/** `AniPublisher`: the publish loop over items and clips, the scene state it
    changes and puts back, and the edit of each exported file. The scene is
    the record `SceneState`, changed in place by the host class `Scene`; the
    FBX exporter is the parameter `exporter`, which gives the segments the
    exporter writes for a request. */
module Publisher {
  import opened Results
  import opened Seqs
  import opened Paths
  import opened Utils
  import opened PublishItems
  import opened FbxEdit

  /** A transform node of the scene: its `inheritsTransform` value, the node
      types of the constraints that feed it, and, for a joint, its
      `jointOrient` written as `x,y,z`. */
  datatype TransformNode = TransformNode(inheritsTransform: bool, constraintTypes: seq<string>, jointOrient: Option<string>)

  /** One `FBXExport` call: the file, what was selected and the baked range. */
  datatype ExportRequest = ExportRequest(path: string, selection: seq<string>, startFrame: int, endFrame: int)

  /** What the publisher reads and changes in the scene. */
  datatype SceneState = SceneState(
    minTime: int,
    maxTime: int,
    selection: seq<string>,
    nodes: map<string, TransformNode>,
    locators: seq<string>,
    exports: seq<ExportRequest>,
    files: map<string, string>)

  datatype PublishError =
    | NoSuchNode(name: string)          // `pm.PyNode` or `pm.select` of a missing node
    | EditFailed(edit: EditError)       // `.group(1)` on a failed search in `_editFBX`
    | NotAPublishItem(repr: string)     // `addItem` of something else

  /** An argument of `addItem`: a publish item or any other Python value. */
  datatype PyValue = ItemValue(item: PublishItem) | OtherValue(repr: string)

  // ---------------------------------------------------------------------
  // One clip

  /** The export file of a clip: the export directory joined with the clip
      name, every backslash turned into a slash, and `.fbx` appended. */
  function ExportPath(directory: string, name: string): (p: string)
    ensures var j := JoinPath(directory, name);
      |p| == |j| + 4 && p[|j|..] == ".fbx" &&
      forall i :: 0 <= i < |j| ==> p[i] == if j[i] == '\\' then '/' else j[i]
    ensures '\\' !in p && EndsWith(p, ".fbx")
  {
    var j := JoinPath(directory, name);
    ReplaceElement(j, '\\', '/');
    var p := ReplaceAll(j, "\\", "/") + ".fbx";
    assert p[|j|..] == ".fbx";
    p
  }

  /** `pm.select(name, add=True)` on a node: appended unless already selected. */
  function SelectAdd(selection: seq<string>, name: string): (r: seq<string>)
    ensures name in r && forall x :: x in selection ==> x in r
    ensures name in selection ==> r == selection
    ensures |r| >= |selection| && r[..|selection|] == selection
    ensures |r| == |selection| + (if name in selection then 0 else 1)
  {
    if name in selection then selection else selection + [name]
  }

  /** The two `pm.select` calls before an export. The skeleton root replaces
      the selection; the model root is added after it. Selecting a missing
      node raises, leaving the selection as far as it got. */
  function SelectRoots(selection: seq<string>, nodes: set<string>, item: PublishItem): (r: Run<seq<string>, PublishError>)
    ensures r.error.Some? <==>
      (item.exportSkeleton && RootText(item.skeletonRoot) !in nodes) ||
      (item.exportModel && RootText(item.modelRoot) !in nodes)
    ensures r.error.None? && item.exportSkeleton ==> |r.state| > 0 && r.state[0] == RootText(item.skeletonRoot)
    ensures r.error.None? && item.exportSkeleton && !item.exportModel ==> r.state == [RootText(item.skeletonRoot)]
    ensures r.error.None? && item.exportModel ==> RootText(item.modelRoot) in r.state
    ensures r.error.None? && !item.exportSkeleton && !item.exportModel ==> r.state == selection
    ensures r.error.None? && item.exportSkeleton && item.exportModel ==>
      r.state == SelectAdd([RootText(item.skeletonRoot)], RootText(item.modelRoot))
    ensures r.error.None? && !item.exportSkeleton && item.exportModel ==>
      r.state == SelectAdd(selection, RootText(item.modelRoot))
    ensures r.error.None? ==> forall x :: x in r.state ==> x in selection || x in nodes
  {
    var skeleton := RootText(item.skeletonRoot);
    var model := RootText(item.modelRoot);
    if item.exportSkeleton && skeleton !in nodes then Run(selection, Some(NoSuchNode(skeleton)))
    else
      var first := if item.exportSkeleton then [skeleton] else selection;
      if item.exportModel && model !in nodes then Run(first, Some(NoSuchNode(model)))
      else Run(if item.exportModel then SelectAdd(first, model) else first, None)
  }

  /** The orient `_editFBX` writes for the skeleton root: a joint's
      `jointOrient`, and `0,0,0` for any other node. */
  function Orient(st: SceneState, root: string): (r: string)
    ensures r == "0,0,0" || (root in st.nodes && st.nodes[root].jointOrient == Some(r))
    ensures root !in st.nodes || st.nodes[root].jointOrient.None? ==> r == "0,0,0"
  {
    if root in st.nodes && st.nodes[root].jointOrient.Some? then st.nodes[root].jointOrient.value
    else "0,0,0"
  }

  /** `_editFBX` on the file at `path`, which holds the rendering of `segs`:
      the edited text is written back; a missing skeleton root or a failed
      root-block search raises before anything is written. */
  function EditRun(st: SceneState, path: string, segs: seq<Segment>, item: PublishItem): (r: Run<SceneState, PublishError>)
    ensures var edit := EditSpec(segs, item, Orient(st, RootText(item.skeletonRoot)));
      (r.error.None? ==> edit.Success? && r.state == st.(files := st.files[path := edit.value])) &&
      (r.error.Some? ==> r.state == st) &&
      (r.error.Some? <==> item.moveToOrigin && (RootText(item.skeletonRoot) !in st.nodes || edit.Failure?))
  {
    var root := RootText(item.skeletonRoot);
    if item.moveToOrigin && root !in st.nodes then Run(st, Some(NoSuchNode(root)))
    else
      EditSpecFails(segs, item, Orient(st, root));
      match EditSpec(segs, item, Orient(st, root))
      case Failure(e) => Run(st, Some(EditFailed(e)))
      case Success(text) => Run(st.(files := st.files[path := text]), None)
  }

  /** The export request of a clip under the current selection. */
  function RequestOf(st: SceneState, item: PublishItem, clip: Clip): (r: ExportRequest)
    ensures EndsWith(r.path, ".fbx") && '\\' !in r.path
    ensures r.selection == st.selection && r.startFrame == clip.startFrame && r.endFrame == clip.endFrame
  {
    ExportRequest(ExportPath(item.exportDirectory, clip.name), st.selection, clip.startFrame, clip.endFrame)
  }

  /** `FBXExport` of the selection to the clip's file, then `_editFBX` on
      it. When the edit raises, the file stays as the exporter wrote it. */
  function ExportClip(st: SceneState, item: PublishItem, clip: Clip, exporter: ExportRequest -> seq<Segment>): (r: Run<SceneState, PublishError>)
    ensures var req := RequestOf(st, item, clip);
      var edit := EditSpec(exporter(req), item, Orient(st, RootText(item.skeletonRoot)));
      r.state.exports == st.exports + [req] &&
      (r.error.None? ==> edit.Success? && r.state == st.(exports := r.state.exports, files := st.files[req.path := edit.value])) &&
      (r.error.Some? ==> r.state == st.(exports := r.state.exports, files := st.files[req.path := Render(exporter(req))]))
  {
    var req := RequestOf(st, item, clip);
    var segs := exporter(req);
    var exported := st.(exports := st.exports + [req], files := st.files[req.path := Render(segs)]);
    var r := EditRun(exported, req.path, segs, item);
    assert Orient(exported, RootText(item.skeletonRoot)) == Orient(st, RootText(item.skeletonRoot));
    var edit := EditSpec(segs, item, Orient(st, RootText(item.skeletonRoot)));
    MapOverwrite(st.files, req.path, Render(segs), if edit.Success? then edit.value else "");
    r
  }

  /** Writing a file twice keeps the second text. */
  lemma MapOverwrite(files: map<string, string>, path: string, first: string, second: string)
    ensures files[path := first][path := second] == files[path := second]
  {
  }

  /** The body of the clip loop: skip a disabled clip; otherwise set the
      playback range to the clip, select, export and edit the file. */
  function ClipStep(st: SceneState, item: PublishItem, clip: Clip, exporter: ExportRequest -> seq<Segment>): (r: Run<SceneState, PublishError>)
    ensures !clip.enable ==> r == Run(st, None)
    ensures clip.enable ==> r.state.minTime == clip.startFrame && r.state.maxTime == clip.endFrame
    ensures r.state.nodes == st.nodes && r.state.locators == st.locators
    ensures r.error.None? && clip.enable ==>
      r.state.exports == st.exports + [RequestOf(r.state, item, clip)] &&
      r.state.selection == SelectRoots(st.selection, st.nodes.Keys, item).state
  {
    if !clip.enable then Run(st, None)
    else
      var selected := SelectRoots(st.selection, st.nodes.Keys, item);
      var chosen := st.(minTime := clip.startFrame, maxTime := clip.endFrame, selection := selected.state);
      if selected.error.Some? then Run(chosen, selected.error)
      else ExportClip(chosen, item, clip, exporter)
  }

  /** The clip loop: Python stops at the first error. */
  function ClipsRun(run: Run<SceneState, PublishError>, item: PublishItem, clips: seq<Clip>, exporter: ExportRequest -> seq<Segment>): (r: Run<SceneState, PublishError>)
    ensures run.error.Some? ==> r == run
    ensures clips == [] ==> r == run
    decreases |clips|
  {
    if clips == [] || run.error.Some? then run
    else ClipsRun(ClipStep(run.state, item, clips[0], exporter), item, clips[1..], exporter)
  }

  // ---------------------------------------------------------------------
  // One item

  /** The parent constraint `makeSkeletonRootInWorld` adds to a node no
      constraint holds in place yet; a node already held keeps its
      constraints. */
  function HeldInPlace(node: TransformNode): (r: TransformNode)
    ensures Constrained(r.constraintTypes)
    ensures r.inheritsTransform == node.inheritsTransform && r.jointOrient == node.jointOrient
    ensures Constrained(node.constraintTypes) ==> r == node
    ensures !Constrained(node.constraintTypes) ==> r.constraintTypes == node.constraintTypes + ["parentConstraint"]
  {
    if Constrained(node.constraintTypes) then node
    else
      var types := node.constraintTypes + ["parentConstraint"];
      assert types[|types| - 1] in WorldConstraintTypes;
      node.(constraintTypes := types)
  }

  /** Holding a node in place a second time adds nothing. */
  lemma HeldInPlaceIdempotent(node: TransformNode)
    ensures HeldInPlace(HeldInPlace(node)) == HeldInPlace(node)
  {
    assert Constrained(HeldInPlace(node).constraintTypes);
  }

  /** `makeSkeletonRootInWorld`: unless a constraint already holds the root
      in place, a locator `<root>_loc` and a parent constraint from it to
      the root; then `inheritsTransform` off. */
  function InWorld(st: SceneState, root: string): (r: SceneState)
    requires root in st.nodes
    ensures root in r.nodes && !r.nodes[root].inheritsTransform
    ensures r.nodes[root].jointOrient == st.nodes[root].jointOrient
    ensures Constrained(st.nodes[root].constraintTypes) ==> r.nodes[root].constraintTypes == st.nodes[root].constraintTypes
    ensures !Constrained(st.nodes[root].constraintTypes) ==>
      r.nodes[root].constraintTypes == st.nodes[root].constraintTypes + ["parentConstraint"]
    ensures Constrained(r.nodes[root].constraintTypes)
    ensures r.nodes.Keys == st.nodes.Keys && forall n :: n in st.nodes && n != root ==> r.nodes[n] == st.nodes[n]
    ensures r.locators == st.locators + (if Constrained(st.nodes[root].constraintTypes) then [] else [root + "_loc"])
    ensures r == st.(nodes := r.nodes, locators := r.locators)
  {
    var locators := if Constrained(st.nodes[root].constraintTypes) then st.locators else st.locators + [root + "_loc"];
    st.(nodes := st.nodes[root := HeldInPlace(st.nodes[root]).(inheritsTransform := false)], locators := locators)
  }

  /** The restore after the clip loop: the locator (the last one created)
      is deleted and `inheritsTransform` gets its saved value. */
  function Restore(st: SceneState, root: string, inheritsTransform: bool, created: bool): (r: SceneState)
    ensures r.nodes.Keys == st.nodes.Keys
    ensures root in st.nodes ==> r.nodes[root] == st.nodes[root].(inheritsTransform := inheritsTransform)
    ensures forall n :: n in st.nodes && n != root ==> r.nodes[n] == st.nodes[n]
    ensures created && st.locators != [] ==> r.locators + [st.locators[|st.locators| - 1]] == st.locators
    ensures !created || st.locators == [] ==> r.locators == st.locators
    ensures r == st.(nodes := r.nodes, locators := r.locators)
  {
    var locators := if created && |st.locators| > 0 then st.locators[..|st.locators| - 1] else st.locators;
    var nodes := if root in st.nodes then st.nodes[root := st.nodes[root].(inheritsTransform := inheritsTransform)] else st.nodes;
    st.(nodes := nodes, locators := locators)
  }

  /** The restore undoes `makeSkeletonRootInWorld` but for the parent
      constraint it added. */
  lemma RestoreUndoesInWorld(st: SceneState, root: string)
    requires root in st.nodes
    ensures var created := !Constrained(st.nodes[root].constraintTypes);
      Restore(InWorld(st, root), root, st.nodes[root].inheritsTransform, created)
        == st.(nodes := st.nodes[root := HeldInPlace(st.nodes[root])])
  {
    var moved := InWorld(st, root);
    assert moved.nodes[root := moved.nodes[root].(inheritsTransform := st.nodes[root].inheritsTransform)]
      == st.nodes[root := HeldInPlace(st.nodes[root])];
  }

  /** An item `publish` exports: enabled, with a skeleton root set. */
  predicate Eligible(item: PublishItem) {
    item.enable && item.skeletonRoot.Some? && item.skeletonRoot.value != ""
  }

  /** The body of the item loop. */
  function ItemStep(st: SceneState, item: PublishItem, exporter: ExportRequest -> seq<Segment>): (r: Run<SceneState, PublishError>)
    ensures !Eligible(item) ==> r == Run(st, None)
    ensures Eligible(item) && item.skeletonRoot.value !in st.nodes ==> r == Run(st, Some(NoSuchNode(item.skeletonRoot.value)))
  {
    if !Eligible(item) then Run(st, None)
    else
      var root := item.skeletonRoot.value;
      if root !in st.nodes then Run(st, Some(NoSuchNode(root)))
      else
        var saved := st.nodes[root].inheritsTransform;
        var created := !Constrained(st.nodes[root].constraintTypes);
        var r := ClipsRun(Run(InWorld(st, root), None), item, item.clips, exporter);
        if r.error.Some? then r else Run(Restore(r.state, root, saved, created), None)
  }

  /** The item loop: Python stops at the first error. */
  function ItemsRun(run: Run<SceneState, PublishError>, items: seq<PublishItem>, exporter: ExportRequest -> seq<Segment>): (r: Run<SceneState, PublishError>)
    ensures run.error.Some? ==> r == run
    ensures items == [] ==> r == run
    decreases |items|
  {
    if items == [] || run.error.Some? then run
    else ItemsRun(ItemStep(run.state, items[0], exporter), items[1..], exporter)
  }

  /** `publish`: every item, then the playback range captured at
      construction; `True` unless an error stopped it. */
  function PublishSpec(st: SceneState, items: seq<PublishItem>, minTime: int, maxTime: int, exporter: ExportRequest -> seq<Segment>): (r: (Result<bool, PublishError>, SceneState))
    ensures r.0.Success? <==> ItemsRun(Run(st, None), items, exporter).error.None?
    ensures r.0.Success? ==> r.0.value && r.1.minTime == minTime && r.1.maxTime == maxTime
    ensures r.0.Failure? ==> r.1 == ItemsRun(Run(st, None), items, exporter).state
  {
    var r := ItemsRun(Run(st, None), items, exporter);
    match r.error
    case Some(e) => (Failure(e), r.state)
    case None => (Success(true), r.state.(minTime := minTime, maxTime := maxTime))
  }

  // ---------------------------------------------------------------------
  // What publishing promises

  /** The clip loop changes neither the nodes nor the locators. */
  lemma {:induction false} ClipsRunFrame(run: Run<SceneState, PublishError>, item: PublishItem, clips: seq<Clip>, exporter: ExportRequest -> seq<Segment>)
    ensures ClipsRun(run, item, clips, exporter).state.nodes == run.state.nodes
    ensures ClipsRun(run, item, clips, exporter).state.locators == run.state.locators
    decreases |clips|
  {
    if clips != [] && run.error.None? {
      ClipsRunFrame(ClipStep(run.state, item, clips[0], exporter), item, clips[1..], exporter);
    }
  }

  /** While the clips of an item are exported, the root is out of its
      hierarchy and the locator, if one was made, exists; an error leaves
      them so, since nothing restores them. */
  lemma ItemStepDuringClips(st: SceneState, item: PublishItem, exporter: ExportRequest -> seq<Segment>)
    requires Eligible(item) && item.skeletonRoot.value in st.nodes
    ensures var root := item.skeletonRoot.value;
      var r := ClipsRun(Run(InWorld(st, root), None), item, item.clips, exporter);
      root in r.state.nodes && !r.state.nodes[root].inheritsTransform &&
      r.state.locators == st.locators + (if Constrained(st.nodes[root].constraintTypes) then [] else [root + "_loc"]) &&
      (r.error.Some? ==> ItemStep(st, item, exporter) == r)
  {
    var root := item.skeletonRoot.value;
    ClipsRunFrame(Run(InWorld(st, root), None), item, item.clips, exporter);
  }

  /** The nodes after a run that finished, against the nodes before: the
      same names, and every node as it was except that a root that was
      published may now carry the parent constraint `makeSkeletonRootInWorld`
      added, since deleting the locator leaves that constraint behind. */
  predicate RestoredNodes(before: map<string, TransformNode>, after: map<string, TransformNode>) {
    after.Keys == before.Keys &&
    forall n :: n in before ==> after[n] == before[n] || after[n] == HeldInPlace(before[n])
  }

  lemma RestoredNodesTransitive(a: map<string, TransformNode>, b: map<string, TransformNode>, c: map<string, TransformNode>)
    requires RestoredNodes(a, b) && RestoredNodes(b, c)
    ensures RestoredNodes(a, c)
  {
    forall n | n in a ensures c[n] == a[n] || c[n] == HeldInPlace(a[n]) {
      HeldInPlaceIdempotent(a[n]);
    }
  }

  /** An item that finishes puts its root's `inheritsTransform` back and
      deletes the locator it made; the parent constraint stays on the root,
      and every other node is as before. */
  lemma ItemStepRestores(st: SceneState, item: PublishItem, exporter: ExportRequest -> seq<Segment>)
    requires ItemStep(st, item, exporter).error.None?
    ensures ItemStep(st, item, exporter).state.locators == st.locators
    ensures !Eligible(item) ==> ItemStep(st, item, exporter).state.nodes == st.nodes
    ensures Eligible(item) ==> var root := item.skeletonRoot.value;
      root in st.nodes && ItemStep(st, item, exporter).state.nodes == st.nodes[root := HeldInPlace(st.nodes[root])]
  {
    if Eligible(item) {
      var root := item.skeletonRoot.value;
      var moved := InWorld(st, root);
      ClipsRunFrame(Run(moved, None), item, item.clips, exporter);
      assert moved.nodes[root := moved.nodes[root].(inheritsTransform := st.nodes[root].inheritsTransform)] == st.nodes[root := HeldInPlace(st.nodes[root])];
    }
  }

  /** After an item with a root that nothing constrained has finished, the
      root is constrained, so `isConstrained` answers true for it from then
      on and publishing it again makes no locator. */
  lemma ItemStepLeavesConstraint(st: SceneState, item: PublishItem, exporter: ExportRequest -> seq<Segment>)
    requires ItemStep(st, item, exporter).error.None? && Eligible(item)
    ensures var root := item.skeletonRoot.value;
      var fin := ItemStep(st, item, exporter).state;
      root in fin.nodes && Constrained(fin.nodes[root].constraintTypes) &&
      InWorld(fin, root).locators == fin.locators
  {
    ItemStepRestores(st, item, exporter);
  }

  /** Items that finish leave the locators as they were, and every node as
      it was up to the parent constraint left on a published root. */
  lemma {:induction false} ItemsRunRestores(run: Run<SceneState, PublishError>, items: seq<PublishItem>, exporter: ExportRequest -> seq<Segment>)
    requires run.error.None? && ItemsRun(run, items, exporter).error.None?
    ensures RestoredNodes(run.state.nodes, ItemsRun(run, items, exporter).state.nodes)
    ensures ItemsRun(run, items, exporter).state.locators == run.state.locators
    decreases |items|
  {
    if items == [] {
      assert RestoredNodes(run.state.nodes, run.state.nodes);
    } else {
      var next := ItemStep(run.state, items[0], exporter);
      ItemStepRestores(run.state, items[0], exporter);
      assert RestoredNodes(run.state.nodes, next.state.nodes);
      ItemsRunRestores(next, items[1..], exporter);
      RestoredNodesTransitive(run.state.nodes, next.state.nodes, ItemsRun(run, items, exporter).state.nodes);
    }
  }

  /** A `publish` that returns gives `True`, puts the playback range back to
      the values captured at construction, leaves the locators as they were
      and every node's `inheritsTransform` and `jointOrient` as they were;
      a published root may keep the parent constraint it was given. */
  lemma PublishRestores(st: SceneState, items: seq<PublishItem>, minTime: int, maxTime: int, exporter: ExportRequest -> seq<Segment>)
    requires PublishSpec(st, items, minTime, maxTime, exporter).0.Success?
    ensures var (r, fin) := PublishSpec(st, items, minTime, maxTime, exporter);
      r.value == true && fin.minTime == minTime && fin.maxTime == maxTime &&
      fin.locators == st.locators && RestoredNodes(st.nodes, fin.nodes) &&
      forall n :: n in st.nodes ==>
        fin.nodes[n].inheritsTransform == st.nodes[n].inheritsTransform && fin.nodes[n].jointOrient == st.nodes[n].jointOrient
  {
    ItemsRunRestores(Run(st, None), items, exporter);
  }

  /** The file, start and end of an export. */
  datatype Planned = Planned(path: string, startFrame: int, endFrame: int)

  function PlanOf(reqs: seq<ExportRequest>): (r: seq<Planned>)
    ensures |r| == |reqs|
    ensures forall i :: 0 <= i < |reqs| ==> r[i] == Planned(reqs[i].path, reqs[i].startFrame, reqs[i].endFrame)
  {
    seq(|reqs|, i requires 0 <= i < |reqs| => Planned(reqs[i].path, reqs[i].startFrame, reqs[i].endFrame))
  }

  lemma PlanAppend(a: seq<ExportRequest>, b: seq<ExportRequest>)
    ensures PlanOf(a + b) == PlanOf(a) + PlanOf(b)
  {
  }

  /** The export of one clip, if it is enabled. */
  function ClipPlanned(item: PublishItem, clip: Clip): (r: seq<Planned>)
    ensures |r| == if clip.enable then 1 else 0
  {
    if clip.enable then [Planned(ExportPath(item.exportDirectory, clip.name), clip.startFrame, clip.endFrame)] else []
  }

  lemma ClipStepPlan(st: SceneState, item: PublishItem, clip: Clip, exporter: ExportRequest -> seq<Segment>)
    requires ClipStep(st, item, clip, exporter).error.None?
    ensures PlanOf(ClipStep(st, item, clip, exporter).state.exports) == PlanOf(st.exports) + ClipPlanned(item, clip)
  {
    var next := ClipStep(st, item, clip, exporter);
    if clip.enable {
      PlanAppend(st.exports, [RequestOf(next.state, item, clip)]);
    } else {
      assert PlanOf(st.exports) + [] == PlanOf(st.exports);
    }
  }

  /** The exports of the enabled clips of an item, in clip order. */
  function ClipPlan(item: PublishItem, clips: seq<Clip>): (r: seq<Planned>)
    ensures |r| <= |clips|
    decreases |clips|
  {
    if clips == [] then [] else ClipPlanned(item, clips[0]) + ClipPlan(item, clips[1..])
  }

  /** The exports of one item, if it is eligible. */
  function ItemPlanned(item: PublishItem): (r: seq<Planned>)
    ensures !Eligible(item) ==> r == []
  {
    if Eligible(item) then ClipPlan(item, item.clips) else []
  }

  /** The exports of the eligible items, in item order. */
  function ItemsPlan(items: seq<PublishItem>): (r: seq<Planned>)
    decreases |items|
  {
    if items == [] then [] else ItemPlanned(items[0]) + ItemsPlan(items[1..])
  }

  lemma {:induction false} ClipsRunPlan(run: Run<SceneState, PublishError>, item: PublishItem, clips: seq<Clip>, exporter: ExportRequest -> seq<Segment>)
    requires run.error.None? && ClipsRun(run, item, clips, exporter).error.None?
    ensures PlanOf(ClipsRun(run, item, clips, exporter).state.exports) == PlanOf(run.state.exports) + ClipPlan(item, clips)
    decreases |clips|
  {
    if clips != [] {
      var next := ClipStep(run.state, item, clips[0], exporter);
      assert ClipsRun(run, item, clips, exporter) == ClipsRun(next, item, clips[1..], exporter);
      ClipStepPlan(run.state, item, clips[0], exporter);
      ClipsRunPlan(next, item, clips[1..], exporter);
      PlanAssociates(PlanOf(run.state.exports), ClipPlanned(item, clips[0]), ClipPlan(item, clips[1..]), ClipPlan(item, clips));
    }
  }

  lemma ItemStepPlan(st: SceneState, item: PublishItem, exporter: ExportRequest -> seq<Segment>)
    requires ItemStep(st, item, exporter).error.None?
    ensures PlanOf(ItemStep(st, item, exporter).state.exports) == PlanOf(st.exports) + ItemPlanned(item)
  {
    if Eligible(item) {
      ClipsRunPlan(Run(InWorld(st, item.skeletonRoot.value), None), item, item.clips, exporter);
    } else {
      assert PlanOf(st.exports) + [] == PlanOf(st.exports);
    }
  }

  /** Three plans put together in order. */
  lemma PlanAssociates(before: seq<Planned>, here: seq<Planned>, later: seq<Planned>, whole: seq<Planned>)
    requires whole == here + later
    ensures (before + here) + later == before + whole
  {
  }

  lemma {:induction false} ItemsRunPlan(run: Run<SceneState, PublishError>, items: seq<PublishItem>, exporter: ExportRequest -> seq<Segment>)
    requires run.error.None? && ItemsRun(run, items, exporter).error.None?
    ensures PlanOf(ItemsRun(run, items, exporter).state.exports) == PlanOf(run.state.exports) + ItemsPlan(items)
    decreases |items|
  {
    if items == [] {
      assert PlanOf(run.state.exports) + [] == PlanOf(run.state.exports);
    } else {
      var next := ItemStep(run.state, items[0], exporter);
      assert ItemsRun(run, items, exporter) == ItemsRun(next, items[1..], exporter);
      ItemStepPlan(run.state, items[0], exporter);
      ItemsRunPlan(next, items[1..], exporter);
      PlanAssociates(PlanOf(run.state.exports), ItemPlanned(items[0]), ItemsPlan(items[1..]), ItemsPlan(items));
    }
  }

  /** A `publish` that returns has exported, in order, one file per enabled
      clip of every enabled item with a skeleton root, each over the range
      of its clip, and nothing else. */
  lemma PublishExports(st: SceneState, items: seq<PublishItem>, minTime: int, maxTime: int, exporter: ExportRequest -> seq<Segment>)
    requires PublishSpec(st, items, minTime, maxTime, exporter).0.Success?
    ensures PlanOf(PublishSpec(st, items, minTime, maxTime, exporter).1.exports) == PlanOf(st.exports) + ItemsPlan(items)
  {
    ItemsRunPlan(Run(st, None), items, exporter);
  }

  /** A new clip is disabled, so it is skipped. */
  lemma NewClipSkipped(st: SceneState, item: PublishItem, exporter: ExportRequest -> seq<Segment>)
    ensures ClipStep(st, item, NewClip(), exporter) == Run(st, None)
    ensures ClipPlan(item, [NewClip()]) == []
  {
  }

  // ---------------------------------------------------------------------
  // The two loops of `_editFBX`

  /** The Show pass as written, over the file without its empty texts. */
  method ShowLimbs(contents: seq<Segment>) returns (r: seq<Segment>)
    ensures r == FixLimbs(contents)
  {
    var canon := Canon(contents);
    r := ReplaceFinds(canon);
  }

  /** The finds, each fixed and concatenated, then one replace of the
      concatenation of the finds. */
  method ReplaceFinds(contents: seq<Segment>) returns (r: seq<Segment>)
    ensures r == ShowPass(contents)
  {
    var finds := LimbFinds(contents);
    var subStrs: seq<Segment> := [];
    if |finds| > 0 {
      for i := 0 to |finds|
        invariant subStrs == FixShowRun(Flatten(finds[..i]))
      {
        FlattenAppend(finds[..i], [finds[i]]);
        FlattenCons(finds[i], []);
        assert finds[..i + 1] == finds[..i] + [finds[i]];
        FixShowRunAppend(Flatten(finds[..i]), finds[i]);
        subStrs := subStrs + FixShowRun(finds[i]);
      }
      assert finds[..|finds|] == finds;
    }
    r := ReplaceAll(contents, Flatten(finds), subStrs);
  }

  /** The top-transform loop: each search matches from the first model
      block through the first block named after the top transform, and
      every occurrence of that stretch is deleted. */
  method RemoveTopTransforms(contents: seq<Segment>, topTransforms: seq<string>) returns (r: seq<Segment>)
    ensures r == RemoveTops(contents, topTransforms)
  {
    r := contents;
    for i := 0 to |topTransforms|
      invariant RemoveTops(r, topTransforms[i..]) == RemoveTops(contents, topTransforms)
    {
      assert topTransforms[i..][1..] == topTransforms[i + 1..];
      r := RemoveTopTransformOnce(r, topTransforms[i]);
    }
    assert topTransforms[|topTransforms|..] == [];
  }

  /** One step of the top-transform loop: the search, and when it matches,
      the deletion of the matched stretch. */
  method RemoveTopTransformOnce(contents: seq<Segment>, t: string) returns (r: seq<Segment>)
    ensures r == RemoveTopTransform(contents, t)
  {
    r := contents;
    var found := FirstMatch(contents, NamedBlock(t));
    if found.Some? {
      assert Matches(contents[found.value], AnyModel);
      var start := FirstMatch(contents, AnyModel).value;
      r := ReplaceAll(contents, contents[start..found.value + 1], []);
    }
  }

  // ---------------------------------------------------------------------
  // The scene and the publisher as objects

  /** The host scene, changed in place by the commands the publisher
      issues. */
  class Scene {
    var minTime: int
    var maxTime: int
    var selection: seq<string>
    var nodes: map<string, TransformNode>
    var locators: seq<string>
    var exports: seq<ExportRequest>
    var files: map<string, string>

    function State(): SceneState
      reads this
    {
      SceneState(minTime, maxTime, selection, nodes, locators, exports, files)
    }

    constructor (st: SceneState)
      ensures State() == st
    {
      minTime := st.minTime;
      maxTime := st.maxTime;
      selection := st.selection;
      nodes := st.nodes;
      locators := st.locators;
      exports := st.exports;
      files := st.files;
    }

    /** `pm.env.setMinTime` and `pm.env.setMaxTime`. */
    method SetRange(startFrame: int, endFrame: int)
      modifies this
      ensures State() == old(State()).(minTime := startFrame, maxTime := endFrame)
    {
      minTime := startFrame;
      maxTime := endFrame;
    }

    /** `pm.select(name, r=True)`: raises for a missing node. */
    method Select(name: string) returns (r: Outcome<PublishError>)
      modifies this
      ensures name in old(nodes) ==> r.Pass? && State() == old(State()).(selection := [name])
      ensures name !in old(nodes) ==> r == Fail(NoSuchNode(name)) && State() == old(State())
    {
      if name !in nodes {
        return Fail(NoSuchNode(name));
      }
      selection := [name];
      r := Pass;
    }

    /** `pm.select(name, add=True)`: raises for a missing node. */
    method AddToSelection(name: string) returns (r: Outcome<PublishError>)
      modifies this
      ensures name in old(nodes) ==> r.Pass? && State() == old(State()).(selection := SelectAdd(old(selection), name))
      ensures name !in old(nodes) ==> r == Fail(NoSuchNode(name)) && State() == old(State())
    {
      if name !in nodes {
        return Fail(NoSuchNode(name));
      }
      selection := SelectAdd(selection, name);
      r := Pass;
    }

    /** `node.inheritsTransform.set(value)`. */
    method SetInheritsTransform(name: string, value: bool)
      requires name in nodes
      modifies this
      ensures State() == old(State()).(nodes := old(nodes)[name := old(nodes)[name].(inheritsTransform := value)])
    {
      nodes := nodes[name := nodes[name].(inheritsTransform := value)];
    }

    /** `pm.spaceLocator(n=name)`. */
    method SpaceLocator(name: string) returns (locator: string)
      modifies this
      ensures locator == name && State() == old(State()).(locators := old(locators) + [name])
    {
      locators := locators + [name];
      locator := name;
    }

    /** `pm.parentConstraint(locator, name)`: a parent constraint now feeds
        the node (which node drives it is not recorded). */
    method ParentConstraint(name: string)
      requires name in nodes
      modifies this
      ensures State() == old(State()).(nodes := old(nodes)[name := old(nodes)[name].(constraintTypes := old(nodes)[name].constraintTypes + ["parentConstraint"])])
    {
      nodes := nodes[name := nodes[name].(constraintTypes := nodes[name].constraintTypes + ["parentConstraint"])];
    }

    /** `pm.delete` of the locator created last; a constraint it drives
        stays on the constrained node. */
    method DeleteLastLocator()
      requires |locators| > 0
      modifies this
      ensures State() == old(State()).(locators := old(locators)[..|old(locators)| - 1])
    {
      locators := locators[..|locators| - 1];
    }

    /** `FBXExport -f path -s` after the bake range has been set: the
        exporter writes the selection to the file. */
    method Export(path: string, startFrame: int, endFrame: int, exporter: ExportRequest -> seq<Segment>) returns (segs: seq<Segment>)
      modifies this
      ensures var req := ExportRequest(path, old(selection), startFrame, endFrame);
        segs == exporter(req) && State() == old(State()).(exports := old(exports) + [req], files := old(files)[path := Render(segs)])
    {
      var req := ExportRequest(path, selection, startFrame, endFrame);
      segs := exporter(req);
      exports := exports + [req];
      files := files[path := Render(segs)];
    }

    /** Writing a file. */
    method WriteFile(path: string, text: string)
      modifies this
      ensures State() == old(State()).(files := old(files)[path := text])
    {
      files := files[path := text];
    }
  }

  /** `AniPublisher`: the items to publish and the playback range of the
      scene when it was made. */
  class AniPublisher {
    var publishItems: seq<PublishItem>
    const minTime: int
    const maxTime: int

    constructor (scene: Scene)
      ensures publishItems == [] && minTime == scene.minTime && maxTime == scene.maxTime
    {
      publishItems := [];
      minTime := scene.minTime;
      maxTime := scene.maxTime;
    }

    /** `addItem`: raises for anything but a publish item, and otherwise
        appends it. */
    method AddItem(value: PyValue) returns (r: Outcome<PublishError>)
      modifies this
      ensures value.OtherValue? ==> r == Fail(NotAPublishItem(value.repr)) && publishItems == old(publishItems)
      ensures value.ItemValue? ==> r.Pass? && publishItems == old(publishItems) + [value.item]
    {
      if !value.ItemValue? {
        return Fail(NotAPublishItem(value.repr));
      }
      publishItems := publishItems + [value.item];
      r := Pass;
    }

    /** `setItems`. */
    method SetItems(items: seq<PublishItem>)
      modifies this
      ensures publishItems == items
    {
      publishItems := items;
    }

    /** `makeSkeletonRootInWorld`: returns the locator it made, if any, and
        the `inheritsTransform` value to put back. */
    method MakeSkeletonRootInWorld(scene: Scene, root: string) returns (locator: Option<string>, saved: bool)
      requires root in scene.nodes
      modifies scene
      ensures saved == old(scene.nodes[root].inheritsTransform)
      ensures locator == if Constrained(old(scene.nodes[root].constraintTypes)) then None else Some(root + "_loc")
      ensures scene.State() == InWorld(old(scene.State()), root)
    {
      locator := None;
      saved := scene.nodes[root].inheritsTransform;
      var isParentConst := IsConstrained(scene.nodes[root].constraintTypes);
      if !isParentConst {
        var made := scene.SpaceLocator(root + "_loc");
        scene.ParentConstraint(root);
        locator := Some(made);
      }
      scene.SetInheritsTransform(root, false);
    }

    /** `_setPlaybackRange`. */
    method SetPlaybackRange(scene: Scene, clip: Clip)
      modifies scene
      ensures scene.State() == old(scene.State()).(minTime := clip.startFrame, maxTime := clip.endFrame)
    {
      scene.SetRange(clip.startFrame, clip.endFrame);
    }

    /** `_recoverScenePlaybackRange`. */
    method RecoverScenePlaybackRange(scene: Scene)
      modifies scene
      ensures scene.State() == old(scene.State()).(minTime := minTime, maxTime := maxTime)
    {
      scene.SetRange(minTime, maxTime);
    }

    /** `_editFBX` on the file at `path`, whose text is the rendering of
        `segs`: the passes one after the other, then the edited text is
        written back. */
    method EditFbx(scene: Scene, path: string, segs: seq<Segment>, item: PublishItem) returns (r: Outcome<PublishError>)
      requires path in scene.files && scene.files[path] == Render(segs)
      modifies scene
      ensures Run(scene.State(), ErrorOf(r)) == EditRun(old(scene.State()), path, segs, item)
    {
      var contents := segs;

      // Show joints
      contents := ShowLimbs(contents);

      // Parent export nodes to the world
      contents := Reparent(contents, RootText(item.skeletonRoot));
      contents := Reparent(contents, RootText(item.modelRoot));

      if item.moveToOrigin {
        var root := RootText(item.skeletonRoot);
        if root !in scene.nodes {
          return Fail(NoSuchNode(root));
        }
        var jointOrientStr := "0,0,0";
        if scene.nodes[root].jointOrient.Some? {
          jointOrientStr := scene.nodes[root].jointOrient.value;
        }
        var moved := MoveToOrigin(contents, root, jointOrientStr);
        if moved.Failure? {
          return Fail(EditFailed(moved.error));
        }
        contents := moved.value;
      }

      // Remove top transforms
      contents := RemoveTopTransforms(contents, item.topTransforms);

      // Remove namespace
      var text := StripNamespace(Render(contents), item.namespace);
      scene.WriteFile(path, text);
      r := Pass;
    }

    /** One enabled clip: the range, the selection, the export and the
        edit. */
    method PublishClip(scene: Scene, item: PublishItem, clip: Clip, exporter: ExportRequest -> seq<Segment>) returns (r: Outcome<PublishError>)
      requires clip.enable
      modifies scene
      ensures Run(scene.State(), ErrorOf(r)) == ClipStep(old(scene.State()), item, clip, exporter)
    {
      SetPlaybackRange(scene, clip);
      if item.exportSkeleton {
        r := scene.Select(RootText(item.skeletonRoot));
        if r.Fail? {
          return;
        }
      }
      if item.exportModel {
        r := scene.AddToSelection(RootText(item.modelRoot));
        if r.Fail? {
          return;
        }
      }
      var path := ExportPath(item.exportDirectory, clip.name);
      var segs := scene.Export(path, clip.startFrame, clip.endFrame, exporter);
      r := EditFbx(scene, path, segs, item);
    }

    /** One enabled item with a skeleton root: the root is taken out of its
        hierarchy, the clips are exported, and the root is put back. */
    method PublishOne(scene: Scene, item: PublishItem, exporter: ExportRequest -> seq<Segment>) returns (r: Outcome<PublishError>)
      requires Eligible(item)
      modifies scene
      ensures Run(scene.State(), ErrorOf(r)) == ItemStep(old(scene.State()), item, exporter)
    {
      var root := item.skeletonRoot.value;
      if root !in scene.nodes {
        return Fail(NoSuchNode(root));
      }
      var locator, saved := MakeSkeletonRootInWorld(scene, root);
      ghost var moved := scene.State();
      for j := 0 to |item.clips|
        invariant ClipsRun(Run(scene.State(), None), item, item.clips[j..], exporter) == ClipsRun(Run(moved, None), item, item.clips, exporter)
      {
        assert item.clips[j..][1..] == item.clips[j + 1..];
        var clip := item.clips[j];
        if !clip.enable {
          continue;
        }
        r := PublishClip(scene, item, clip, exporter);
        if r.Fail? {
          return;
        }
      }
      assert item.clips[|item.clips|..] == [];
      ClipsRunFrame(Run(moved, None), item, item.clips, exporter);
      if locator.Some? {
        scene.DeleteLastLocator();
      }
      scene.SetInheritsTransform(root, saved);
      r := Pass;
    }

    /** `publish`: every enabled item with a skeleton root, then the
        playback range of the scene as it was at construction. */
    method Publish(scene: Scene, exporter: ExportRequest -> seq<Segment>) returns (r: Result<bool, PublishError>)
      modifies scene
      ensures (r, scene.State()) == PublishSpec(old(scene.State()), publishItems, minTime, maxTime, exporter)
    {
      ghost var st := scene.State();
      for i := 0 to |publishItems|
        invariant ItemsRun(Run(scene.State(), None), publishItems[i..], exporter) == ItemsRun(Run(st, None), publishItems, exporter)
      {
        assert publishItems[i..][1..] == publishItems[i + 1..];
        var pubItem := publishItems[i];
        if !pubItem.enable {
          continue;
        }
        if pubItem.skeletonRoot.None? || pubItem.skeletonRoot.value == "" {
          continue;
        }
        var o := PublishOne(scene, pubItem, exporter);
        if o.Fail? {
          return Failure(o.error);
        }
      }
      assert publishItems[|publishItems|..] == [];
      RecoverScenePlaybackRange(scene);
      r := Success(true);
    }
  }
}
