# takAniPublisher in Dafny

A model of the publishing core of takAniPublisher, a Maya tool that exports
the skeleton (and optionally the model) of each referenced rig in a scene as
one ASCII FBX file per animation clip, then edits each exported file.

The model covers three parts of the tool.

- The controller (`AniPublisherCtrl`) finds the valid reference nodes of
  the scene: loaded, with a filename. Among those, the rig references are
  the ones with a joint. It builds one `PublishItem` per rig reference.
- The publisher (`AniPublisher`) visits every enabled item with a skeleton
  root:
  - it takes the root out of its hierarchy, with a locator unless a
    constraint already holds it;
  - for each enabled clip, it sets the playback range, selects the roots,
    exports the file and edits it;
  - it then puts the root back.

  At the end it restores the playback range captured at construction.
- The edit of an exported file (`_editFBX`) runs five passes in order:
  1. it turns on the Show flag of limb nodes;
  2. it re-parents the skeleton and model roots to the scene root;
  3. optionally, it moves the skeleton root to the origin and drops its
     animation curves;
  4. it deletes the top transforms;
  5. it strips the namespace.

It also covers the utility functions the core relies on: `removeNamespace`,
`isConstrained`, `restoreRootTransform` and `showJoints`.

The host is represented by data:
- The Maya scene is the record `Publisher.SceneState`. The class
  `Publisher.Scene` changes it in place, holding the playback range,
  selection, transform nodes, locators, the export requests made, and the
  file contents.
- The attribute store used by the utilities is the class `Utils.Rig`.
- The reference nodes are `PublishItems.RefNode` records, in the order the
  host lists them.
- The user settings are a `Settings` record.
- The directory listing used by `glob` is the function parameter `listing`.
- The FBX exporter is the function parameter `exporter`, which gives the
  file the exporter writes for a request.

An FBX file is a sequence of segments:
- a model block, made of its header, its `Properties70` lines and the rest
  of its body;
- a connection line `;Model::a, Model::b` / `C: "OO",…`;
- an animation-curve connection line;
- any other text.

`Render` turns the segments into text. The regular-expression searches of
`_editFBX` become lookups over segments. Python's `str.replace` is
`Seqs.ReplaceAll`. It is generic in the element type, so it serves both for
the passes that replace whole blocks and for the namespace pass on
characters. Errors that Python raises are values:
- `addItem` of anything other than a publish item;
- `pm.PyNode` or `pm.select` of a missing node;
- `.group(1)` on a failed search when moving to the origin;
- `cmds.listConnections` or `cmds.setAttr` on a missing plug.

Each loop stops at the first error and leaves the state as it was at that
point, as an uncaught exception does.

Each lazy, dot-matches-all search of `_editFBX` starts at the first model
block not yet consumed, not at the block it is looking for. The limb pass
therefore finds stretches that run from the next model block to the next
`LimbNode` block, and the root-block search matches from the first model
block of the file. The model keeps these stretches as the code has them;
`FixLimbsNonContiguous` shows what follows from them.

The pass under the comment `# Remove topTransforms`
(aniPublisherModels.py:143) is different. Each of its searches also matches
from the first model block of the file through the block named after the top
transform, and the whole stretch is deleted, skeleton blocks included. This
is recorded under "## Findings". The edit of the model (`EditSpec`, and
through it the export and `publish`) runs the pass as written,
`RemoveTopTransform` for each top transform. The corrected pass
`RemoveTopBlocks`, which deletes only the named block, stands beside it, and
`EditSpecCorrected` is the edit with that pass in its place.

The limb pass first drops empty texts from the file (`Canon`), so that two
segmentations of one text that differ only in empty texts are edited alike.

## Model

| member | source | states |
|---|---|---|
| Utils.RemoveNamespace | Contents/scripts/takAniPublisher/utils.py:12-15 | the result is the suffix of the name that follows its last `:`; it holds no `:`; it is preceded by a `:` when the name has one, and is the whole name when it has none |
| Utils.RemoveNamespaceIdempotent | Contents/scripts/takAniPublisher/utils.py:12-15 | removing the namespace twice is removing it once |
| Utils.IsConstrained | Contents/scripts/takAniPublisher/utils.py:98-105 | true exactly when some constraint that feeds the node is a parent, point or orient constraint; false when none feeds it |
| Utils.RootChannels | Contents/scripts/takAniPublisher/utils.py:19-24 | exactly the nine plugs translateX, translateY, translateZ, rotateX, rotateY, rotateZ, jointOrientX, jointOrientY, jointOrientZ of the root, in that order |
| Utils.RootChannelsDistinct | Contents/scripts/takAniPublisher/utils.py:19-24 | the nine channels are pairwise different |
| Utils.RootChannelAt | Contents/scripts/takAniPublisher/utils.py:19-24 | the channel visited for family `a` and axis `x` is the `a`-th family name followed by the `x`-th axis letter, at position `3a + x`: the outer loop runs over families, the inner over axes |
| Utils.ConnectedNodes | Contents/scripts/takAniPublisher/utils.py:24 | the nodes at the other end of the connections into or out of the plug; empty exactly when no connection touches the plug |
| Utils.DeleteNodes | Contents/scripts/takAniPublisher/utils.py:25-26 | a plug is removed exactly when its node is deleted, and a connection exactly when one of its ends is; every remaining value is unchanged and nothing is added |
| Utils.SetAttr | Contents/scripts/takAniPublisher/utils.py:28-32 | fails exactly when the plug is missing, and then nothing changes; otherwise only that plug changes, to the given value |
| Utils.RestoreChannel | Contents/scripts/takAniPublisher/utils.py:24-32 | succeeds exactly when the plug exists and its own node is not among the nodes connected to it (deleting that node would make `setAttr` fail); then the plug holds its rest value with nothing connected; no plug or connection is ever added |
| Utils.RestoreChannels | Contents/scripts/takAniPublisher/utils.py:22-32 | an earlier error is kept; a run that succeeds began without error and found every plug it visits |
| Utils.ShowJointsRun | Contents/scripts/takAniPublisher/utils.py:86-88 | an earlier error is kept; no connection changes and no plug is added or removed |
| Utils.Rig.ListConnections | Contents/scripts/takAniPublisher/utils.py:24 | the nodes connected to an existing plug; an error for a missing plug |
| Utils.Rig.Delete | Contents/scripts/takAniPublisher/utils.py:26 | the nodes, their plugs and every connection touching them are removed |
| Utils.Rig.SetAttribute | Contents/scripts/takAniPublisher/utils.py:30-32 | an existing plug gets the value; a missing plug is an error and nothing changes |
| Utils.Rig.RestoreChannelStep | Contents/scripts/takAniPublisher/utils.py:24-32 | one channel: fails on a missing plug; otherwise deletes the connected nodes, if any, and sets the rest value (-90 for jointOrientX, 0 otherwise) |
| Utils.Rig.RestoreRootTransform | Contents/scripts/takAniPublisher/utils.py:18-32 | the new state is the channel-by-channel run over the nine channels in family-then-axis order; passes exactly when no channel was missing |
| Utils.RestoreChannelsOnlyDeletes | Contents/scripts/takAniPublisher/utils.py:22-32 | the run adds no plug and no connection, and changes no value outside the visited channels |
| Utils.RestoreChannelsKeepsNode | Contents/scripts/takAniPublisher/utils.py:24-26 | a successful run never deletes a plug of the node whose channels it visits |
| Utils.RestoreChannelsResets | Contents/scripts/takAniPublisher/utils.py:22-32 | after a successful run every visited channel is at its rest value with nothing connected |
| Utils.RestoreChannelsEffect | Contents/scripts/takAniPublisher/utils.py:22-32 | after a successful run over distinct plugs of one node, each plug is reset and disconnected; nothing else changes and nothing is added |
| Utils.RestoreRootTransformEffect | Contents/scripts/takAniPublisher/utils.py:18-32 | after a successful `restoreRootTransform` all nine channels are reset and disconnected: jointOrientX is -90 and translateX is 0; no other value changed and nothing was added |
| Utils.Rig.ShowJoints | Contents/scripts/takAniPublisher/utils.py:86-88 | the new state is the joint-by-joint run of `setAttr drawStyle 0`; passes exactly when no joint was missing |
| Utils.ShowJointsEffect | Contents/scripts/takAniPublisher/utils.py:86-88 | succeeds exactly when every listed joint has a draw style; then the listed joints get draw style 0 and every other value and connection is unchanged |
| Paths.DirName | Contents/scripts/takAniPublisher/aniPublisherModels.py:164 | `posixpath.dirname`: a prefix of the path; empty exactly when the path has no `/`; nothing after it but the last component and the separating slashes; a head made only of slashes keeps all of them (`//b` gives `//`) |
| Paths.JoinPath | Contents/scripts/takAniPublisher/aniPublisherModels.py:63 | `posixpath.join`: an absolute second part is the result; otherwise the first part, then a `/` exactly when the first part is non-empty and does not end with `/`, then the second part |
| Paths.GlobJpg | Contents/scripts/takAniPublisher/aniPublisherModels.py:166 | every result is the glob directory joined to a `.jpg` name of its listing, every such name gives a result, and there is at most one result per listed name |
| Seqs.ReplaceIsJoinSplit | Contents/scripts/takAniPublisher/aniPublisherModels.py:150 | `str.replace` with a non-empty pattern is joining the pieces of `str.split` with the replacement |
| Seqs.SplitJoinRoundTrip | Contents/scripts/takAniPublisher/aniPublisherModels.py:150 | joining the pieces of a split with the pattern gives back the text |
| Seqs.ReplaceAll | Contents/scripts/takAniPublisher/aniPublisherModels.py:113 | `str.replace` with a non-empty pattern: a replacement no longer than the pattern never lengthens the text, and one of the same length keeps its length |
| Seqs.ReplaceKeepsImage | Contents/scripts/takAniPublisher/aniPublisherModels.py:113 | a replacement that agrees with the pattern position by position under a map keeps the image of the text under that map, position by position |
| Seqs.ReplaceAtFirst | Contents/scripts/takAniPublisher/aniPublisherModels.py:138 | replacing from the leftmost occurrence: the text before it is kept, the occurrence becomes the replacement, and the rest is replaced in turn |
| Seqs.ReplaceAbsent | Contents/scripts/takAniPublisher/aniPublisherModels.py:147 | text without an occurrence is left unchanged |
| PublishItems.NewClip | Contents/scripts/takAniPublisher/aniPublisherModels.py:220-226 | a new clip is disabled |
| PublishItems.GetExportDirectory | Contents/scripts/takAniPublisher/aniPublisherModels.py:200-208 | the custom directory when the settings ask for it; otherwise the directory of the referenced file, a prefix of it |
| PublishItems.GetImage | Contents/scripts/takAniPublisher/aniPublisherModels.py:160-170 | the first `.jpg` name of the listing of the file's directory, joined to that directory; the default image when there is none |
| PublishItems.TopTransforms | Contents/scripts/takAniPublisher/aniPublisherModels.py:210-217 | at most one name per listed node; `TopTransformsMembers` says which names |
| PublishItems.TopTransformsMembers | Contents/scripts/takAniPublisher/aniPublisherModels.py:210-217 | a name is a top transform exactly when some DAG node of the reference with that name is a transform without a parent |
| PublishItems.GetTopTransforms | Contents/scripts/takAniPublisher/aniPublisherModels.py:210-217 | the loop collects the parentless transforms, in listing order |
| PublishItems.ItemOfReference | Contents/scripts/takAniPublisher/aniPublisherModels.py:172-198 | the constructor's defaults (enabled, skeleton exported, model not, not moved, no roots, no clips), and the file, namespace, image, export directory and top transforms of the reference |
| PublishItems.NewPublishItem | Contents/scripts/takAniPublisher/aniPublisherModels.py:172-198 | construction fails exactly when the filename query of the reference fails; otherwise it gives an enabled item for that reference and file |
| FbxEdit.FixShowValue | Contents/scripts/takAniPublisher/aniPublisherModels.py:111 | the digit after the first comma-digit pair of a Show value becomes `1`; every other character is kept |
| FbxEdit.FixShowValueIdempotent | Contents/scripts/takAniPublisher/aniPublisherModels.py:111 | fixing a Show value twice is fixing it once |
| FbxEdit.FixShowValueChanges | Contents/scripts/takAniPublisher/aniPublisherModels.py:111 | the fix changes a Show value exactly when the value has a comma-digit pair and its digit is not `1` |
| FbxEdit.FixShowRunAppend | Contents/scripts/takAniPublisher/aniPublisherModels.py:110-112 | fixing the finds one by one and concatenating is fixing their concatenation |
| FbxEdit.HiddenLimbIsFixable | Contents/scripts/takAniPublisher/aniPublisherModels.py:111 | a limb block with `Show` 0 is changed by the fix |
| FbxEdit.FirstMatchFrom | Contents/scripts/takAniPublisher/aniPublisherModels.py:107-108 | the first segment at or after the start that the search matches; none when nothing matches |
| FbxEdit.LimbTextIsFlatten | Contents/scripts/takAniPublisher/aniPublisherModels.py:108-113 | the concatenation of the finds is the stretch-by-stretch text the pass replaces |
| FbxEdit.LimbTextContiguous | Contents/scripts/takAniPublisher/aniPublisherModels.py:107-108 | when model blocks run unbroken from the first one through the last limb block, the finds cover exactly that run |
| FbxEdit.FixLimbs | Contents/scripts/takAniPublisher/aniPublisherModels.py:105-113 | the Show pass changes only properties: once empty texts are dropped, every segment keeps its place, and every block keeps its id, name, kind and body |
| FbxEdit.FixLimbsNoLimb | Contents/scripts/takAniPublisher/aniPublisherModels.py:105-113 | a file without limb blocks renders to the same text after the Show pass, which only drops its empty texts |
| FbxEdit.FixLimbsContiguous | Contents/scripts/takAniPublisher/aniPublisherModels.py:105-113 | in that unbroken case, in a file without empty texts, the pass fixes the Show flags of exactly that run and keeps everything else |
| FbxEdit.FixLimbsNonContiguous | Contents/scripts/takAniPublisher/aniPublisherModels.py:105-113 | two limb blocks with non-empty text between them: the concatenation of the finds does not occur in the file, so the pass changes nothing |
| FbxEdit.FixLimbsEmptyBetween | Contents/scripts/takAniPublisher/aniPublisherModels.py:105-113 | an empty text between two limb blocks does not separate them: the pass fixes both, exactly as for the two adjacent blocks |
| FbxEdit.ReparentEffect | Contents/scripts/takAniPublisher/aniPublisherModels.py:116-117 | each connection of the root gets parent `RootNode` and id 0 and keeps its child; every other segment is unchanged |
| FbxEdit.ReparentNoMatch | Contents/scripts/takAniPublisher/aniPublisherModels.py:116-117 | without a connection of the root nothing changes |
| FbxEdit.ReparentIdempotent | Contents/scripts/takAniPublisher/aniPublisherModels.py:116-117 | re-parenting twice is re-parenting once |
| FbxEdit.Reparent | Contents/scripts/takAniPublisher/aniPublisherModels.py:116-117 | the number of segments is kept; `ReparentEffect` says which change |
| FbxEdit.RootProperties | Contents/scripts/takAniPublisher/aniPublisherModels.py:125-134 | the eight replacement properties, with `Show` set to 1 |
| FbxEdit.MoveToOrigin | Contents/scripts/takAniPublisher/aniPublisherModels.py:119-141 | fails exactly when no block name ends with the root (`.group(1)` on None); on success no curve connection of the root is left |
| FbxEdit.MoveToOriginRootBlock | Contents/scripts/takAniPublisher/aniPublisherModels.py:135-138 | on success the first root block appears with the origin properties in place of its own |
| FbxEdit.MoveToOriginFrame | Contents/scripts/takAniPublisher/aniPublisherModels.py:135-141 | on success the curve connections of the root are dropped, and every other segment stays, in order; every block keeps its id, name, kind and body, so only properties change |
| FbxEdit.RemoveTopTransformEffect | Contents/scripts/takAniPublisher/aniPublisherModels.py:145-147 | with a block of that name, what precedes the first model block is kept, the matched stretch is removed, and its later occurrences are removed too |
| FbxEdit.RemoveTopTransformAbsent | Contents/scripts/takAniPublisher/aniPublisherModels.py:145-146 | without a block of that name the file is unchanged |
| FbxEdit.RemoveTopsAbsent | Contents/scripts/takAniPublisher/aniPublisherModels.py:144-147 | no top transform present: the loop changes nothing |
| FbxEdit.RemoveTopTakesEarlierBlocks | Contents/scripts/takAniPublisher/aniPublisherModels.py:145-147 | a limb block before the top transform is deleted with it |
| FbxEdit.RemoveTopTransform | Contents/scripts/takAniPublisher/aniPublisherModels.py:145-147 | as written: the file never grows, and a file without a block of that name is unchanged |
| FbxEdit.RemoveTops | Contents/scripts/takAniPublisher/aniPublisherModels.py:144-147 | as written: the loop never makes the file longer |
| FbxEdit.RemoveTopBlock | Contents/scripts/takAniPublisher/aniPublisherModels.py:144-147 | corrected: without a block named after the top transform nothing changes; otherwise exactly the first such block is removed: the segments before it are kept, the ones after it move up by one |
| FbxEdit.RemoveTopBlockKeeps | Contents/scripts/takAniPublisher/aniPublisherModels.py:144-147 | corrected: at most one segment is removed, and it is a block named after the top transform; every other segment occurs as often as before |
| FbxEdit.RemoveTopBlocksKeeps | Contents/scripts/takAniPublisher/aniPublisherModels.py:144-147 | corrected loop: at most one segment per top transform is removed, and only blocks named after a top transform can lose occurrences |
| FbxEdit.RemoveTopBlocksAbsent | Contents/scripts/takAniPublisher/aniPublisherModels.py:144-147 | corrected loop: with no top transform present nothing changes |
| FbxEdit.RemoveTopBlockSparesEarlierBlocks | Contents/scripts/takAniPublisher/aniPublisherModels.py:144-147 | corrected: the limb block before the top transform is kept, on the input that shows the finding |
| FbxEdit.StripNamespaceEffect | Contents/scripts/takAniPublisher/aniPublisherModels.py:150 | the result is the text between the occurrences of `namespace:`, which split the text exactly; text without one is unchanged |
| FbxEdit.StripNamespace | Contents/scripts/takAniPublisher/aniPublisherModels.py:150 | the text never gets longer; `StripNamespaceEffect` says which text results |
| FbxEdit.EditSpecNoEdit | Contents/scripts/takAniPublisher/aniPublisherModels.py:101-153 | a file that none of the passes applies to is written back as it was |
| FbxEdit.EditSpecFails | Contents/scripts/takAniPublisher/aniPublisherModels.py:119-138 | the edit fails exactly when it moves to the origin and the re-parented file has no root block |
| FbxEdit.EditSpec | Contents/scripts/takAniPublisher/aniPublisherModels.py:101-153 | the five passes with the top-transform pass as written; without the move to the origin the edit always succeeds; its only error is a missing root block |
| FbxEdit.EditSpecCorrected | Contents/scripts/takAniPublisher/aniPublisherModels.py:101-153 | the edit with the corrected top-transform pass fails exactly when the edit as written fails, and with the same error |
| Publisher.ExportPath | Contents/scripts/takAniPublisher/aniPublisherModels.py:63 | the joined path with every backslash replaced by a slash, then `.fbx`; no backslash is left |
| Publisher.RequestOf | Contents/scripts/takAniPublisher/aniPublisherModels.py:62-64 | the request path ends with `.fbx` and holds no backslash; the request takes the current selection and the clip's range |
| Publisher.Orient | Contents/scripts/takAniPublisher/aniPublisherModels.py:120-124 | the joint orient of the skeleton root when it has one; `0,0,0` for a missing root or one without a joint orient |
| Publisher.SelectAdd | Contents/scripts/takAniPublisher/aniPublisherModels.py:59 | the node is appended unless it is already selected; the earlier selection is kept as a prefix and nothing else is added |
| Publisher.SelectRoots | Contents/scripts/takAniPublisher/aniPublisherModels.py:56-59 | fails exactly when a root to select is missing; otherwise, with the skeleton flag, the selection is replaced by the skeleton root, and with the model flag too, the model root is added after it once; with only the model flag, the model root is added to the earlier selection |
| Publisher.EditRun | Contents/scripts/takAniPublisher/aniPublisherModels.py:101-153 | on success the file holds the edited text and nothing else changed; an error (missing root, no root block) happens only when moving to the origin, and then nothing is written |
| Publisher.ExportClip | Contents/scripts/takAniPublisher/aniPublisherModels.py:62-67 | the request is recorded; on success the file holds the edited export; on error it holds the export as written |
| Publisher.ClipStep | Contents/scripts/takAniPublisher/aniPublisherModels.py:49-67 | a disabled clip changes nothing; an enabled one sets the playback range to the clip, and on success adds its export under the selection `SelectRoots` made; nodes and locators are kept |
| Publisher.ClipsRun | Contents/scripts/takAniPublisher/aniPublisherModels.py:49-67 | an error stops the clip loop, so later clips change nothing; no clips change nothing |
| Publisher.HeldInPlace | Contents/scripts/takAniPublisher/aniPublisherModels.py:84-88 | afterwards a constraint holds the root: a constrained root is unchanged, any other gains a `parentConstraint`; its `inheritsTransform` and joint orient are unchanged |
| Publisher.HeldInPlaceIdempotent | Contents/scripts/takAniPublisher/aniPublisherModels.py:84-88 | holding a root that is already held changes nothing |
| Publisher.InWorld | Contents/scripts/takAniPublisher/aniPublisherModels.py:81-91 | the root's `inheritsTransform` is off and a constraint holds it: when none held it, a locator `<root>_loc` and a `parentConstraint` are added; its joint orient and every other node are unchanged |
| Publisher.Restore | Contents/scripts/takAniPublisher/aniPublisherModels.py:70-73 | the root gets back the saved `inheritsTransform` and the last locator is removed when one was made; every other node, and the rest of the scene, is unchanged |
| Publisher.RestoreUndoesInWorld | Contents/scripts/takAniPublisher/aniPublisherModels.py:47-73 | restoring undoes taking the root into the world except for the constraint: the scene is as before, with the root held in place |
| Publisher.ItemStep | Contents/scripts/takAniPublisher/aniPublisherModels.py:39-47 | an item that is disabled or has no skeleton root changes nothing; a missing root raises before any change |
| Publisher.ClipsRunFrame | Contents/scripts/takAniPublisher/aniPublisherModels.py:49-67 | the clip loop changes neither the nodes nor the locators |
| Publisher.ItemStepDuringClips | Contents/scripts/takAniPublisher/aniPublisherModels.py:47-73 | while the clips are exported the root is out of its hierarchy and the locator exists; an error leaves the scene that way |
| Publisher.ItemStepRestores | Contents/scripts/takAniPublisher/aniPublisherModels.py:70-73 | an item that finishes leaves the locators as they were, and every node but its root; the root is as it was, except that a root no constraint held now has a `parentConstraint` |
| Publisher.ItemStepLeavesConstraint | Contents/scripts/takAniPublisher/aniPublisherModels.py:70-73 | after an eligible item the root is held by a constraint, so publishing it again makes no locator |
| Publisher.ItemsRun | Contents/scripts/takAniPublisher/aniPublisherModels.py:39-73 | an error stops the item loop, so later items change nothing; no items change nothing |
| Publisher.ItemsRunRestores | Contents/scripts/takAniPublisher/aniPublisherModels.py:39-73 | items that finish leave the node names and the locators as they were; each node is as it was or has gained the lingering `parentConstraint` |
| Publisher.PublishRestores | Contents/scripts/takAniPublisher/aniPublisherModels.py:36-79 | a `publish` that returns gives True, restores the captured playback range and the locators, and every node keeps its `inheritsTransform` and joint orient; its constraints are as before, or it has gained the lingering `parentConstraint` |
| Publisher.PublishSpec | Contents/scripts/takAniPublisher/aniPublisherModels.py:36-79 | `publish` returns exactly when no item raised, and then with True and the captured playback range; a raise leaves the scene as the item loop left it |
| Publisher.ClipsRunPlan | Contents/scripts/takAniPublisher/aniPublisherModels.py:49-67 | the clip loop exports one file per enabled clip, in clip order, over the clip's range |
| Publisher.ItemsRunPlan | Contents/scripts/takAniPublisher/aniPublisherModels.py:39-67 | the item loop exports the files of the eligible items, in item order |
| Publisher.PublishExports | Contents/scripts/takAniPublisher/aniPublisherModels.py:36-79 | a `publish` that returns has exported exactly the files of the enabled clips of the eligible items, in order, each over its clip's range |
| Publisher.NewClipSkipped | Contents/scripts/takAniPublisher/aniPublisherModels.py:49-51 | a newly made clip is skipped and exports nothing |
| Publisher.ShowLimbs | Contents/scripts/takAniPublisher/aniPublisherModels.py:105-113 | the empty texts dropped, the loop over the finds followed by the replace is the Show pass |
| Publisher.ReplaceFinds | Contents/scripts/takAniPublisher/aniPublisherModels.py:109-113 | the loop over the finds followed by the replace is the Show pass on a file |
| Publisher.RemoveTopTransforms | Contents/scripts/takAniPublisher/aniPublisherModels.py:143-147 | the loop over the top transforms, each search deleting the stretch from the first model block through the named block, is the pass as written (`RemoveTops`) |
| Publisher.RemoveTopTransformOnce | Contents/scripts/takAniPublisher/aniPublisherModels.py:145-147 | one search and, when it matches, the deletion of every occurrence of the matched stretch, is `RemoveTopTransform` |
| Publisher.Scene.SetRange | Contents/scripts/takAniPublisher/aniPublisherModels.py:94-95 | only the playback range changes |
| Publisher.Scene.Select | Contents/scripts/takAniPublisher/aniPublisherModels.py:57 | an existing node replaces the selection; a missing node is an error and nothing changes |
| Publisher.Scene.AddToSelection | Contents/scripts/takAniPublisher/aniPublisherModels.py:59 | an existing node is added to the selection; a missing node is an error and nothing changes |
| Publisher.Scene.SetInheritsTransform | Contents/scripts/takAniPublisher/aniPublisherModels.py:73 | only that node's `inheritsTransform` changes |
| Publisher.Scene.SpaceLocator | Contents/scripts/takAniPublisher/aniPublisherModels.py:86 | a locator of that name is added |
| Publisher.Scene.ParentConstraint | Contents/scripts/takAniPublisher/aniPublisherModels.py:88 | `parentConstraint` is added to the node's constraint types; nothing else changes |
| Publisher.Scene.DeleteLastLocator | Contents/scripts/takAniPublisher/aniPublisherModels.py:72 | the last locator made is removed; the constraint it drove stays on the root |
| Publisher.Scene.Export | Contents/scripts/takAniPublisher/aniPublisherModels.py:64 | the request (path, current selection, range) is recorded and the file holds what the exporter writes |
| Publisher.Scene.WriteFile | Contents/scripts/takAniPublisher/aniPublisherModels.py:152-153 | only that file changes |
| Publisher.AniPublisher.constructor | Contents/scripts/takAniPublisher/aniPublisherModels.py:22-26 | no items; the scene's playback range is captured |
| Publisher.AniPublisher.AddItem | Contents/scripts/takAniPublisher/aniPublisherModels.py:28-31 | a publish item is appended; anything else is an error and the items are unchanged |
| Publisher.AniPublisher.SetItems | Contents/scripts/takAniPublisher/aniPublisherModels.py:33-34 | the items are replaced |
| Publisher.AniPublisher.MakeSkeletonRootInWorld | Contents/scripts/takAniPublisher/aniPublisherModels.py:81-91 | returns the original `inheritsTransform` and the locator, made exactly when the root is not constrained; the scene becomes `InWorld`, with the root constrained to the locator |
| Publisher.AniPublisher.SetPlaybackRange | Contents/scripts/takAniPublisher/aniPublisherModels.py:93-95 | the playback range becomes the clip's |
| Publisher.AniPublisher.RecoverScenePlaybackRange | Contents/scripts/takAniPublisher/aniPublisherModels.py:97-99 | the playback range becomes the one captured at construction |
| Publisher.AniPublisher.EditFbx | Contents/scripts/takAniPublisher/aniPublisherModels.py:101-153 | the new scene state and outcome are those of `EditRun` |
| Publisher.AniPublisher.PublishClip | Contents/scripts/takAniPublisher/aniPublisherModels.py:53-67 | the new scene state and outcome are those of `ClipStep` |
| Publisher.AniPublisher.PublishOne | Contents/scripts/takAniPublisher/aniPublisherModels.py:46-73 | the new scene state and outcome are those of `ItemStep` |
| Publisher.AniPublisher.Publish | Contents/scripts/takAniPublisher/aniPublisherModels.py:36-79 | the result and the new scene state are those of `PublishSpec` over the items |
| Ctrl.AniPublisherCtrl.constructor | Contents/scripts/takAniPublisher/aniPublisherCtrl.py:11-17 | no publisher and no references yet; the settings are kept |
| Ctrl.AniPublisherCtrl.GetValidRefNodes | Contents/scripts/takAniPublisher/aniPublisherCtrl.py:44-59 | the valid references are the listed ones with a filename that are loaded, in listing order |
| Ctrl.AniPublisherCtrl.GetRigRefNodes | Contents/scripts/takAniPublisher/aniPublisherCtrl.py:33-42 | the rig references are the valid ones with a joint, each once, in order |
| Ctrl.ScanForJoint | Contents/scripts/takAniPublisher/aniPublisherCtrl.py:37-41 | the scan of one reference's nodes reports a find exactly when some node of that reference is a joint |
| Ctrl.AniPublisherCtrl.ShowUI | Contents/scripts/takAniPublisher/aniPublisherCtrl.py:19-31 | a new publisher with the scene's playback range and one publish item per rig reference, in order, built from that reference |
| Ctrl.AddReferenceItems | Contents/scripts/takAniPublisher/aniPublisherCtrl.py:25-27 | one publish item per rig reference is added, in order |
| Ctrl.RigRefNodesValid | Contents/scripts/takAniPublisher/aniPublisherCtrl.py:33-59 | every rig reference is valid and has a joint |
| Ctrl.ValidRefNodesOrdered | Contents/scripts/takAniPublisher/aniPublisherCtrl.py:44-59 | the valid references are a subsequence of the listing, and every valid reference appears as often as it is listed |
| Ctrl.RigRefNodesOrdered | Contents/scripts/takAniPublisher/aniPublisherCtrl.py:33-59 | the rig references are a subsequence of the valid references and of the listing; a reference is among them exactly when it is valid and has a joint, and then once per listing, however many joints it has |

## Left out

- The UI (`aniPublisherUI`, `aniPubUI.show()`), `pm.refresh`, logging and `PerformanceChecker` are left out: they have no effect on the state modelled.
- `utils.getSettings` reads JSON from disk; the settings are a `Settings` parameter.
- `open`, `read`, `write`, the UTF-8 decoding and FBX export are I/O. The files are a map in the scene state. The exporter is a parameter. `setFBXExportOptions` and the plug-in loading only configure the exporter, so they are left out.
- Host queries (`referenceQuery`, `pm.ls`, `nodeType`, `getParent`, `inputs`, `glob`'s directory listing) are given as data: `RefNode` records, per-node constraint types and a listing function.
- The regular-expression engine is not modelled generally. Matches are aligned to segment boundaries, and `Text` segments are assumed to hold no model header or connection line. Two segmentations of one text can differ in empty texts, which the limb pass drops first (`Canon`), or in how text is split into `Text` segments, which is assumed not to matter and is not proved. Names in the patterns are taken literally, although the source does not escape regular-expression metacharacters in them.
- The replacement property text is modelled as properties, so its whitespace and line layout are not modelled.
- The joint orient is given as the text `x,y,z`: Python's float formatting is not modelled.
- `os.path` is modelled with POSIX semantics. Windows `ntpath` and `glob` magic characters in directory names are not modelled.
- The host's clamping of the playback range is not modelled.
- Node names are short names: `PyNode` path resolution is not modelled.
- FbxEdit.MoveToOrigin: a root block whose `Properties70` is empty is not modelled as the source handles it. There `.group(1)` (line 136) is the newline between the braces, so line 137 puts the new property text in place of every newline of the matched stretch. The model instead replaces an empty property list block by block, and its result in that case differs from the text the source writes. `MoveToOriginRootBlock` is stated only for a root block with properties.
- Utils.DeleteNodes: the model has no DAG hierarchy, so deleting a node does not delete its descendants, which `cmds.delete` (utils.py:26) does.
- Utils.Rig.Delete: the same as `DeleteNodes`, which it carries out: descendants of a deleted node stay.
- Utils.RestoreChannel: because descendants are not deleted, it succeeds when a node connected to a root channel is an ancestor of the root. In the source, deleting that ancestor deletes the root too, and the `setAttr` of utils.py:30/32 raises. The failure case modelled is the root itself being among the connected nodes.
- Publisher.AniPublisher.MakeSkeletonRootInWorld: does not model `matchTransform`. The `parentConstraint` is recorded only as a constraint type of the root, not as a node that ties the root to the locator. The host's renaming of a locator whose name is taken is not modelled either. The locator is kept in its own list, not among the transform nodes.
- Publisher.Scene.DeleteLastLocator: `pm.delete(skelRootLoc)` is modelled as removing the last locator made. Deleting the locator does not delete the constraint with it, so the root keeps its `parentConstraint` (`ItemStepLeavesConstraint`). What the root does once the constraint target is gone is not modelled.
- Publisher.AniPublisher.SetItems: the model does not capture that Python keeps the caller's list object, so later changes to that list are not seen.
- The `None` defaults of `Clip` (name, start and end frame) are not modelled. A clip always has a name and a range. With a `None` name the path join raises.
- An unset model or skeleton root in a pattern, or in `pm.select`, is the text `None`, which is how Python formats it. `pm.select(None)` is modelled as selecting the node named `None`.
- `PublishItem(refNode)` on a reference whose filename query raises is `NewPublishItem`'s error. The controller only builds items for valid references, so it never meets that error.

## Findings

| source | as written | input that shows it | evidently intended | confidence | as-written member | corrected member |
|---|---|---|---|---|---|---|
| Contents/scripts/takAniPublisher/aniPublisherModels.py:145-147 | each search matches from the first model block of the file through the first block named after the top transform, and that whole stretch is deleted wherever it occurs | a file of a `LimbNode` block `hip` followed by a block `Geo`, with top transform `Geo`: the result is empty, so the skeleton block is lost | delete only the block named after the top transform (the comment `# Remove topTransforms` at line 143) | not executed | FbxEdit.RemoveTopTakesEarlierBlocks | FbxEdit.RemoveTopBlocksKeeps |
