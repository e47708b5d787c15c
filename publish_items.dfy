/** The values the publisher works on: a clip (a named frame range), a
    publish item (one referenced rig with its export choices), and the host
    queries a publish item is built from, given here as records: the
    reference node, its DAG nodes, the user settings and a directory
    listing. */
module PublishItems {
  import opened Results
  import opened Seqs
  import opened Paths

  /** `Clip`: a named frame range to export. */
  datatype Clip = Clip(enable: bool, name: string, startFrame: int, endFrame: int)

  /** `Clip()`: a new clip is disabled; its name and range are still unset. */
  function NewClip(): (c: Clip)
    ensures !c.enable
  {
    Clip(false, "", 0, 0)
  }

  /** A DAG node listed by `referenceQuery(..., nodes=True, dagPath=True)`. */
  datatype DagNode = DagNode(name: string, nodeType: string, hasParent: bool)

  /** A reference node of the scene. `filename` is None when the filename
      query raises (an empty reference node). */
  datatype RefNode = RefNode(name: string, filename: Option<string>, loaded: bool, namespace: string, nodes: seq<DagNode>)

  /** The two entries of the user settings the publisher reads. */
  datatype Settings = Settings(useCustomExportDirectory: bool, customExportDirectory: string)

  /** `PublishItem`: one referenced rig and how to export it. */
  datatype PublishItem = PublishItem(
    refNode: string,
    refFile: string,
    image: string,
    namespace: string,
    exportDirectory: string,
    enable: bool,
    moveToOrigin: bool,
    exportSkeleton: bool,
    exportModel: bool,
    modelRoot: Option<string>,
    skeletonRoot: Option<string>,
    topTransforms: seq<string>,
    clips: seq<Clip>)

  datatype ItemError = EmptyReference(refNode: string)

  /** `PublishItem.DEFAULT_IMAGE`. */
  const DefaultImage: string := ":noPreview.png"

  /** `getExportDirectory`: the custom directory when the settings ask for
      it, otherwise the directory of the referenced file. */
  function GetExportDirectory(settings: Settings, refFile: string): (r: string)
    ensures settings.useCustomExportDirectory ==> r == settings.customExportDirectory
    ensures !settings.useCustomExportDirectory ==>
      r == DirName(refFile) && |r| <= |refFile| && refFile[..|r|] == r
  {
    if settings.useCustomExportDirectory then settings.customExportDirectory
    else DirName(refFile)
  }

  /** `getImage`: the first `.jpg` file of the referenced file's directory,
      in listing order, or the default image when there is none. */
  function GetImage(refFile: string, listing: string -> seq<string>): (r: string)
    ensures var d := JpgGlobDirectory(DirName(refFile));
      match FirstWhere(listing(d), IsJpgName)
      case None => r == DefaultImage
      case Some(i) => r == JoinPath(d, listing(d)[i]) && EndsWith(r, listing(d)[i])
    ensures r == DefaultImage || EndsWith(r, ".jpg")
  {
    var d := JpgGlobDirectory(DirName(refFile));
    var images := GlobJpg(DirName(refFile), listing);
    KeepHead(listing(d), IsJpgName);
    if |images| > 0 then
      assert EndsWith(images[0], Keep(listing(d), IsJpgName)[0]);
      images[0]
    else
      DefaultImage
  }

  /** A node `getTopTransforms` keeps: a transform without a parent. */
  predicate IsTopTransform(n: DagNode) {
    n.nodeType == "transform" && !n.hasParent
  }

  /** The top transforms among the nodes, in the order they are listed. */
  function TopTransforms(nodes: seq<DagNode>): (r: seq<string>)
    ensures |r| <= |nodes|
    decreases |nodes|
  {
    if nodes == [] then []
    else (if IsTopTransform(nodes[0]) then [nodes[0].name] else []) + TopTransforms(nodes[1..])
  }

  /** A name is listed exactly when it names a top transform. */
  lemma {:induction false} TopTransformsMembers(nodes: seq<DagNode>, x: string)
    ensures x in TopTransforms(nodes) <==> exists k :: 0 <= k < |nodes| && IsTopTransform(nodes[k]) && nodes[k].name == x
    decreases |nodes|
  {
    if nodes != [] {
      TopTransformsMembers(nodes[1..], x);
      if exists k :: 1 <= k < |nodes| && IsTopTransform(nodes[k]) && nodes[k].name == x {
        var k :| 1 <= k < |nodes| && IsTopTransform(nodes[k]) && nodes[k].name == x;
        assert nodes[1..][k - 1] == nodes[k];
      }
      if exists k :: 0 <= k < |nodes[1..]| && IsTopTransform(nodes[1..][k]) && nodes[1..][k].name == x {
        var k :| 0 <= k < |nodes[1..]| && IsTopTransform(nodes[1..][k]) && nodes[1..][k].name == x;
        assert nodes[k + 1] == nodes[1..][k];
      }
    }
  }

  /** `getTopTransforms`: the names of the parentless transforms of the
      reference, in listing order. */
  method GetTopTransforms(nodes: seq<DagNode>) returns (topTransforms: seq<string>)
    ensures topTransforms == TopTransforms(nodes)
  {
    topTransforms := [];
    for i := 0 to |nodes|
      invariant topTransforms + TopTransforms(nodes[i..]) == TopTransforms(nodes)
    {
      assert nodes[i..][1..] == nodes[i + 1..];
      if nodes[i].nodeType == "transform" {
        if !nodes[i].hasParent {
          topTransforms := topTransforms + [nodes[i].name];
        }
      }
    }
    assert nodes[|nodes|..] == [];
  }

  /** `PublishItem(refNode)` for a reference whose filename query succeeds:
      the defaults of the constructor, then the reference information. */
  function ItemOfReference(ref: RefNode, settings: Settings, listing: string -> seq<string>): (item: PublishItem)
    requires ref.filename.Some?
    ensures item.refNode == ref.name && item.refFile == ref.filename.value
    ensures item.enable && !item.moveToOrigin && item.exportSkeleton && !item.exportModel
    ensures item.modelRoot.None? && item.skeletonRoot.None? && item.clips == []
    ensures item.namespace == ref.namespace
    ensures item.image == GetImage(ref.filename.value, listing)
    ensures item.exportDirectory == GetExportDirectory(settings, ref.filename.value)
    ensures forall x :: x in item.topTransforms <==>
      exists k :: 0 <= k < |ref.nodes| && IsTopTransform(ref.nodes[k]) && ref.nodes[k].name == x
  {
    var refFile := ref.filename.value;
    var tops := TopTransforms(ref.nodes);
    forall x ensures x in tops <==> exists k :: 0 <= k < |ref.nodes| && IsTopTransform(ref.nodes[k]) && ref.nodes[k].name == x {
      TopTransformsMembers(ref.nodes, x);
    }
    PublishItem(
      refNode := ref.name,
      refFile := refFile,
      image := GetImage(refFile, listing),
      namespace := ref.namespace,
      exportDirectory := GetExportDirectory(settings, refFile),
      enable := true,
      moveToOrigin := false,
      exportSkeleton := true,
      exportModel := false,
      modelRoot := None,
      skeletonRoot := None,
      topTransforms := tops,
      clips := [])
  }

  /** `PublishItem(refNode)`: raises when the filename query of the
      reference raises. */
  function NewPublishItem(ref: RefNode, settings: Settings, listing: string -> seq<string>): (r: Result<PublishItem, ItemError>)
    ensures r.Failure? <==> ref.filename.None?
    ensures r.Failure? ==> r.error == EmptyReference(ref.name)
    ensures r.Success? ==> r.value.refNode == ref.name && r.value.refFile == ref.filename.value && r.value.enable
  {
    if ref.filename.None? then Failure(EmptyReference(ref.name))
    else Success(ItemOfReference(ref, settings, listing))
  }
}
