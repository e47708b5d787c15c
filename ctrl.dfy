/** `AniPublisherCtrl`: finds the rig references of the scene and makes one
    publish item per rig reference. The scene's reference nodes are given
    as `RefNode` records in the order `pm.ls(type='reference')` lists them. */
module Ctrl {
  import opened Results
  import opened Seqs
  import opened PublishItems
  import opened Publisher

  /** A reference node whose filename query succeeds and which is loaded. */
  predicate IsValidRef(refNode: RefNode) {
    refNode.filename.Some? && refNode.loaded
  }

  /** A reference with a joint among its DAG nodes. */
  predicate HasJoint(refNode: RefNode) {
    exists k :: 0 <= k < |refNode.nodes| && refNode.nodes[k].nodeType == "joint"
  }

  /** The inner scan of `__getRigRefNodes`: walks a reference's nodes and
      stops at the first joint. */
  method ScanForJoint(refNode: RefNode) returns (found: bool)
    ensures found == HasJoint(refNode)
  {
    var j := 0;
    while j < |refNode.nodes|
      invariant 0 <= j <= |refNode.nodes|
      invariant forall k :: 0 <= k < j ==> refNode.nodes[k].nodeType != "joint"
    {
      if refNode.nodes[j].nodeType == "joint" {
        return true;
      }
      j := j + 1;
    }
    return false;
  }

  class AniPublisherCtrl {
    var aniPub: AniPublisher?
    const settings: Settings
    var validRefNodes: seq<RefNode>
    var rigRefNodes: seq<RefNode>

    /** The settings are read once, when the controller is made. */
    constructor (settings: Settings)
      ensures aniPub == null && this.settings == settings && validRefNodes == [] && rigRefNodes == []
    {
      aniPub := null;
      this.settings := settings;
      validRefNodes := [];
      rigRefNodes := [];
    }

    /** `__getValidRefNodes`: the references whose filename query does not
        raise and which are loaded, in listing order. */
    method GetValidRefNodes(refNodes: seq<RefNode>)
      modifies this
      ensures validRefNodes == Keep(refNodes, IsValidRef)
      ensures rigRefNodes == old(rigRefNodes) && aniPub == old(aniPub)
    {
      var valid: seq<RefNode> := [];
      for i := 0 to |refNodes|
        invariant valid == Keep(refNodes[..i], IsValidRef)
        modifies {}
      {
        assert refNodes[..i + 1] == refNodes[..i] + [refNodes[i]];
        KeepAppend(refNodes[..i], refNodes[i], IsValidRef);
        var refNode := refNodes[i];
        if refNode.filename.None? {
          continue;
        }
        if !refNode.loaded {
          continue;
        }
        valid := valid + [refNode];
      }
      assert refNodes[..|refNodes|] == refNodes;
      validRefNodes := valid;
    }

    /** `__getRigRefNodes`: the valid references with a joint, each once,
        in order; the scan of a reference's nodes stops at its first
        joint. */
    method GetRigRefNodes()
      modifies this
      ensures rigRefNodes == Keep(validRefNodes, HasJoint)
      ensures validRefNodes == old(validRefNodes) && aniPub == old(aniPub)
    {
      var valid := validRefNodes;
      var rig: seq<RefNode> := [];
      for i := 0 to |valid|
        invariant rig == Keep(valid[..i], HasJoint)
        modifies {}
      {
        TakeOneMore(valid, i);
        KeepAppend(valid[..i], valid[i], HasJoint);
        var refNode := valid[i];
        var found := ScanForJoint(refNode);
        if found {
          rig := rig + [refNode];
        }
      }
      assert valid[..|valid|] == valid;
      rigRefNodes := rig;
    }

    /** `showUI` without the window: a new publisher holding one publish
        item per rig reference, in rig-reference order. */
    method ShowUI(refNodes: seq<RefNode>, scene: Scene, listing: string -> seq<string>)
      modifies this
      ensures validRefNodes == Keep(refNodes, IsValidRef)
      ensures rigRefNodes == Keep(Keep(refNodes, IsValidRef), HasJoint)
      ensures aniPub != null && fresh(aniPub)
      ensures aniPub.minTime == scene.minTime && aniPub.maxTime == scene.maxTime
      ensures forall i :: 0 <= i < |rigRefNodes| ==> rigRefNodes[i].filename.Some?
      ensures |aniPub.publishItems| == |rigRefNodes|
      ensures forall i :: 0 <= i < |rigRefNodes| ==> aniPub.publishItems[i] == ItemOfReference(rigRefNodes[i], settings, listing)
    {
      GetValidRefNodes(refNodes);
      GetRigRefNodes();
      var rig := rigRefNodes;
      RigRefNodesValid(refNodes);
      assert forall i :: 0 <= i < |rig| ==> rig[i].filename.Some?;
      var publisher := new AniPublisher(scene);
      AddReferenceItems(publisher, rig, settings, listing);
      aniPub := publisher;
      assert rigRefNodes == rig;
    }
  }

  /** The loop of `showUI`: one `addItem(PublishItem(refNode))` per rig
      reference, in order, on a publisher that starts empty. */
  method AddReferenceItems(publisher: AniPublisher, rig: seq<RefNode>, settings: Settings, listing: string -> seq<string>)
    requires forall i :: 0 <= i < |rig| ==> rig[i].filename.Some?
    requires publisher.publishItems == []
    modifies publisher
    ensures |publisher.publishItems| == |rig|
    ensures forall i :: 0 <= i < |rig| ==> publisher.publishItems[i] == ItemOfReference(rig[i], settings, listing)
  {
    ghost var items := seq(|rig|, k requires 0 <= k < |rig| => ItemOfReference(rig[k], settings, listing));
    for i := 0 to |rig|
      invariant publisher.publishItems == items[..i]
    {
      var pubItem := ItemOfReference(rig[i], settings, listing);
      var added := publisher.AddItem(ItemValue(pubItem));
      TakeOneMore(items, i);
    }
    assert items[..|rig|] == items;
  }

  /** Every rig reference is valid and has a joint. */
  lemma RigRefNodesValid(refNodes: seq<RefNode>)
    ensures var rig := Keep(Keep(refNodes, IsValidRef), HasJoint);
      forall i :: 0 <= i < |rig| ==> IsValidRef(rig[i]) && HasJoint(rig[i])
  {
    var valid := Keep(refNodes, IsValidRef);
    var rig := Keep(valid, HasJoint);
    forall i | 0 <= i < |rig| ensures IsValidRef(rig[i]) {
      var j :| 0 <= j < |valid| && valid[j] == rig[i];
    }
  }

  /** The valid references keep their listing order; every listed
      reference that is valid is among them, as often as it is listed. */
  lemma ValidRefNodesOrdered(refNodes: seq<RefNode>)
    ensures Subsequence(Keep(refNodes, IsValidRef), refNodes)
    ensures forall x :: multiset(Keep(refNodes, IsValidRef))[x] == if IsValidRef(x) then multiset(refNodes)[x] else 0
  {
    KeepIsSubsequence(refNodes, IsValidRef);
    forall x ensures multiset(Keep(refNodes, IsValidRef))[x] == if IsValidRef(x) then multiset(refNodes)[x] else 0 {
      KeepMultiplicity(refNodes, IsValidRef, x);
    }
  }

  /** The rig references are a subsequence of the valid references and of
      the listing. A reference is there exactly when it is valid and has a
      joint, and then as often as it is listed: once, however many joints
      it has. */
  lemma RigRefNodesOrdered(refNodes: seq<RefNode>)
    ensures Subsequence(Keep(Keep(refNodes, IsValidRef), HasJoint), Keep(refNodes, IsValidRef))
    ensures Subsequence(Keep(Keep(refNodes, IsValidRef), HasJoint), refNodes)
    ensures var rig := Keep(Keep(refNodes, IsValidRef), HasJoint);
      forall x :: multiset(rig)[x] == (if IsValidRef(x) && HasJoint(x) then multiset(refNodes)[x] else 0)
  {
    var valid := Keep(refNodes, IsValidRef);
    KeepIsSubsequence(refNodes, IsValidRef);
    KeepIsSubsequence(valid, HasJoint);
    SubsequenceTransitive(Keep(valid, HasJoint), valid, refNodes);
    forall x ensures multiset(Keep(valid, HasJoint))[x] == if IsValidRef(x) && HasJoint(x) then multiset(refNodes)[x] else 0 {
      KeepMultiplicity(refNodes, IsValidRef, x);
      KeepMultiplicity(valid, HasJoint, x);
    }
  }
}
