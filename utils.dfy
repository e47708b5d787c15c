/** The helpers of the publisher's utility module: the short name of a node,
    whether a node is driven by a world-space constraint, and two edits of
    rig attributes (resetting the root joint's channels and making joints
    visible). The host's attribute store is the class `Rig`. */
module Utils {
  import opened Results
  import opened Seqs

  /** `node.split(':')[-1]`: the name after the last namespace separator. */
  function RemoveNamespace(node: string): (r: string)
    ensures EndsWith(node, r)
    ensures ':' !in r
    ensures ':' in node ==> |r| < |node| && node[|node| - |r| - 1] == ':'
    ensures ':' !in node ==> r == node
  {
    var parts := Split(node, ":");
    var last := parts[|parts| - 1];
    SplitJoinRoundTrip(node, ":");
    OccursSingleton(last, ':');
    OccursSingleton(node, ':');
    if |parts| >= 2 then
      JoinLast(parts, ":");
      last
    else
      last
  }

  lemma RemoveNamespaceIdempotent(node: string)
    ensures RemoveNamespace(RemoveNamespace(node)) == RemoveNamespace(node)
  {
  }

  /** The constraint types that make a node move in world space. */
  const WorldConstraintTypes: set<string> := {"parentConstraint", "pointConstraint", "orientConstraint"}

  /** Some constraint feeding the node is a parent, point or orient constraint. */
  predicate Constrained(constraintTypes: seq<string>) {
    exists i :: 0 <= i < |constraintTypes| && constraintTypes[i] in WorldConstraintTypes
  }

  /** `isConstrained`: scans the node types of the constraint nodes that
      feed a node (the host's `inputs(type='constraint')`). */
  method IsConstrained(constraintTypes: seq<string>) returns (result: bool)
    ensures result <==> Constrained(constraintTypes)
  {
    result := false;
    if |constraintTypes| > 0 {
      for i := 0 to |constraintTypes|
        invariant result <==> exists j :: 0 <= j < i && constraintTypes[j] in WorldConstraintTypes
      {
        if constraintTypes[i] in WorldConstraintTypes {
          result := true;
        }
      }
    }
  }

  /** An attribute of a node, as in `node.attr`. */
  datatype Plug = Plug(node: string, attr: string)

  /** A connection from one plug to another. */
  datatype Connection = Connection(source: Plug, destination: Plug)

  datatype RigError = NoSuchPlug(plug: Plug)

  /** The attribute values and connections of the host scene. A plug exists
      exactly when it has a value. */
  datatype RigState = RigState(values: map<Plug, real>, connections: set<Connection>)

  /** `cmds.listConnections(plug)`: the nodes at the other end of every
      connection into or out of the plug. */
  function ConnectedNodes(st: RigState, p: Plug): (r: set<string>)
    ensures r == {} <==> forall c :: c in st.connections ==> c.destination != p && c.source != p
  {
    var r := (set c | c in st.connections && c.destination == p :: c.source.node)
      + (set c | c in st.connections && c.source == p :: c.destination.node);
    assert forall c :: c in st.connections && c.destination == p ==> c.source.node in r;
    assert forall c :: c in st.connections && c.source == p ==> c.destination.node in r;
    r
  }

  /** `cmds.delete(nodes)`: the nodes' plugs and connections disappear. */
  function DeleteNodes(st: RigState, nodes: set<string>): (r: RigState)
    ensures r.values.Keys <= st.values.Keys && r.connections <= st.connections
    ensures forall q :: q in st.values ==> (q in r.values <==> q.node !in nodes)
    ensures forall q :: q in r.values ==> r.values[q] == st.values[q]
    ensures forall c :: c in st.connections ==>
      (c in r.connections <==> c.source.node !in nodes && c.destination.node !in nodes)
  {
    RigState(
      map q | q in st.values && q.node !in nodes :: st.values[q],
      set c | c in st.connections && c.source.node !in nodes && c.destination.node !in nodes)
  }

  /** `cmds.setAttr(plug, v)`; it raises for a plug that does not exist. */
  function SetAttr(st: RigState, p: Plug, v: real): (r: Run<RigState, RigError>)
    ensures r.error.None? <==> p in st.values
    ensures r.error.Some? ==> r == Run(st, Some(NoSuchPlug(p)))
    ensures r.error.None? ==>
      && r.state.values.Keys == st.values.Keys && r.state.values[p] == v
      && r.state.connections == st.connections
      && forall q :: q in st.values && q != p ==> r.state.values[q] == st.values[q]
  {
    if p in st.values then Run(st.(values := st.values[p := v]), None)
    else Run(st, Some(NoSuchPlug(p)))
  }

  /** The channel families and axes `restoreRootTransform` loops over. */
  const ChannelAttrs: seq<string> := ["translate", "rotate", "jointOrient"]
  const Axes: seq<string> := ["X", "Y", "Z"]

  /** The nine channels `restoreRootTransform` visits, family by family and
      axis by axis. */
  function RootChannels(root: string): (ps: seq<Plug>)
    ensures ps == [Plug(root, "translateX"), Plug(root, "translateY"), Plug(root, "translateZ"),
                   Plug(root, "rotateX"), Plug(root, "rotateY"), Plug(root, "rotateZ"),
                   Plug(root, "jointOrientX"), Plug(root, "jointOrientY"), Plug(root, "jointOrientZ")]
  {
    var ps := seq(9, i requires 0 <= i < 9 => Plug(root, ChannelAttrs[i / 3] + Axes[i % 3]));
    assert ps[0].attr == "translateX" && ps[1].attr == "translateY" && ps[2].attr == "translateZ";
    assert ps[3].attr == "rotateX" && ps[4].attr == "rotateY" && ps[5].attr == "rotateZ";
    assert ps[6].attr == "jointOrientX" && ps[7].attr == "jointOrientY" && ps[8].attr == "jointOrientZ";
    ps
  }

  /** Channel `3a+x` is family `a` with axis `x`. */
  lemma RootChannelAt(root: string, a: int, x: int)
    requires 0 <= a < 3 && 0 <= x < 3
    ensures RootChannels(root)[3 * a + x] == Plug(root, ChannelAttrs[a] + Axes[x])
  {
    assert (3 * a + x) / 3 == a && (3 * a + x) % 3 == x;
  }

  /** The nine channel names are pairwise different. */
  lemma RootChannelsDistinct(root: string)
    ensures forall i, j :: 0 <= i < j < 9 ==> RootChannels(root)[i] != RootChannels(root)[j]
  {
    forall i, j | 0 <= i < j < 9 ensures RootChannels(root)[i] != RootChannels(root)[j] {
      var a, b := ChannelAttrs[i / 3] + Axes[i % 3], ChannelAttrs[j / 3] + Axes[j % 3];
      if i / 3 != j / 3 {
        assert |a| != |b|;
      } else {
        assert a[|a| - 1] != b[|b| - 1];
      }
    }
  }

  /** The value a reset channel receives. */
  function RestValue(attr: string): real {
    if attr == "jointOrientX" then -90.0 else 0.0
  }

  /** One channel of `restoreRootTransform`: delete what is connected to it,
      then set its rest value. */
  function RestoreChannel(st: RigState, p: Plug): (r: Run<RigState, RigError>)
    ensures r.error.None? <==> p in st.values && p.node !in ConnectedNodes(st, p)
    ensures r.error.Some? ==> r.error == Some(NoSuchPlug(p))
    ensures p !in st.values ==> r == Run(st, Some(NoSuchPlug(p)))
    ensures r.error.None? ==> p in r.state.values && r.state.values[p] == RestValue(p.attr) && ConnectedNodes(r.state, p) == {}
    ensures r.state.values.Keys <= st.values.Keys && r.state.connections <= st.connections
  {
    if p !in st.values then Run(st, Some(NoSuchPlug(p)))
    else
      var inputs := ConnectedNodes(st, p);
      var st1 := if inputs != {} then DeleteNodes(st, inputs) else st;
      SetAttr(st1, p, RestValue(p.attr))
  }

  /** The channels handled in order; the first error stops the rest. */
  function RestoreChannels(run: Run<RigState, RigError>, ps: seq<Plug>): (r: Run<RigState, RigError>)
    ensures run.error.Some? ==> r == run
    ensures r.error.None? ==> run.error.None? && forall i :: 0 <= i < |ps| ==> ps[i] in run.state.values
    decreases |ps|
  {
    if ps == [] || run.error.Some? then run
    else RestoreChannels(RestoreChannel(run.state, ps[0]), ps[1..])
  }

  lemma RestoreChannelsUnfold(st: RigState, ps: seq<Plug>, n: nat)
    requires n < |ps|
    ensures RestoreChannels(Run(st, None), ps[n..]) == RestoreChannels(RestoreChannel(st, ps[n]), ps[n + 1..])
  {
    assert ps[n..][1..] == ps[n + 1..];
  }

  /** A run over plugs of one node never adds plugs or connections and
      changes no value outside the visited plugs. */
  lemma {:induction false} RestoreChannelsOnlyDeletes(st: RigState, ps: seq<Plug>)
    ensures var fin := RestoreChannels(Run(st, None), ps).state;
      && fin.values.Keys <= st.values.Keys
      && fin.connections <= st.connections
      && forall q :: q in fin.values && q !in ps ==> fin.values[q] == st.values[q]
    decreases |ps|
  {
    if ps != [] {
      var r1 := RestoreChannel(st, ps[0]);
      if r1.error.None? {
        RestoreChannelsOnlyDeletes(r1.state, ps[1..]);
      }
    }
  }

  /** A successful run keeps every plug of the node its plugs belong to. */
  lemma {:induction false} RestoreChannelsKeepsNode(st: RigState, ps: seq<Plug>, n: string, q: Plug)
    requires forall i :: 0 <= i < |ps| ==> ps[i].node == n
    requires RestoreChannels(Run(st, None), ps).error.None?
    requires q in st.values && q.node == n
    ensures q in RestoreChannels(Run(st, None), ps).state.values
    decreases |ps|
  {
    if ps != [] {
      var p := ps[0];
      var inputs := ConnectedNodes(st, p);
      var r1 := RestoreChannel(st, p);
      assert r1.error.None?;
      if inputs != {} {
        assert p in DeleteNodes(st, inputs).values;
      }
      RestoreChannelsKeepsNode(r1.state, ps[1..], n, q);
    }
  }

  /** Every visited plug of a successful run ends at its rest value with
      nothing connected to it. */
  lemma {:induction false} RestoreChannelsResets(st: RigState, ps: seq<Plug>, n: string)
    requires forall i :: 0 <= i < |ps| ==> ps[i].node == n
    requires forall i, j :: 0 <= i < j < |ps| ==> ps[i] != ps[j]
    requires RestoreChannels(Run(st, None), ps).error.None?
    ensures var fin := RestoreChannels(Run(st, None), ps).state;
      forall i :: 0 <= i < |ps| ==>
        ps[i] in fin.values && fin.values[ps[i]] == RestValue(ps[i].attr) && ConnectedNodes(fin, ps[i]) == {}
    decreases |ps|
  {
    if ps != [] {
      var p := ps[0];
      var r1 := RestoreChannel(st, p);
      var rest := ps[1..];
      assert RestoreChannels(Run(st, None), ps) == RestoreChannels(r1, rest);
      assert r1.error.None?;
      RestoreChannelsResets(r1.state, rest, n);
      ResetStays(r1.state, rest, n, p);
      var fin := RestoreChannels(Run(st, None), ps).state;
      forall i | 0 <= i < |ps|
        ensures ps[i] in fin.values && fin.values[ps[i]] == RestValue(ps[i].attr) && ConnectedNodes(fin, ps[i]) == {}
      {
        if i > 0 {
          assert ps[i] == rest[i - 1];
        }
      }
    }
  }

  /** A plug that was reset stays reset while other plugs of its node are. */
  lemma ResetStays(st: RigState, rest: seq<Plug>, n: string, p: Plug)
    requires forall i :: 0 <= i < |rest| ==> rest[i].node == n && rest[i] != p
    requires p.node == n && p in st.values && st.values[p] == RestValue(p.attr) && ConnectedNodes(st, p) == {}
    requires RestoreChannels(Run(st, None), rest).error.None?
    ensures var fin := RestoreChannels(Run(st, None), rest).state;
      p in fin.values && fin.values[p] == RestValue(p.attr) && ConnectedNodes(fin, p) == {}
  {
    RestoreChannelsOnlyDeletes(st, rest);
    RestoreChannelsKeepsNode(st, rest, n, p);
    var fin := RestoreChannels(Run(st, None), rest).state;
    assert p !in rest;
    assert forall c :: c in fin.connections ==> c in st.connections;
  }

  /** `showJoints` in order; the first missing joint stops the rest. */
  function ShowJointsRun(run: Run<RigState, RigError>, joints: seq<string>): (r: Run<RigState, RigError>)
    ensures run.error.Some? ==> r == run
    ensures r.state.connections == run.state.connections && r.state.values.Keys == run.state.values.Keys
    decreases |joints|
  {
    if joints == [] || run.error.Some? then run
    else ShowJointsRun(SetAttr(run.state, Plug(joints[0], "drawStyle"), 0.0), joints[1..])
  }

  /** `showJoints` succeeds exactly when every listed joint has a draw style;
      it then sets that style to 0 (bone) on the listed joints and on
      nothing else. */
  lemma {:induction false} ShowJointsEffect(st: RigState, joints: seq<string>)
    ensures var run := ShowJointsRun(Run(st, None), joints);
      run.error.None? <==> forall j :: j in joints ==> Plug(j, "drawStyle") in st.values
    ensures var run := ShowJointsRun(Run(st, None), joints);
      run.error.None? ==>
        && run.state.connections == st.connections
        && run.state.values.Keys == st.values.Keys
        && forall q :: q in st.values ==>
             run.state.values[q] == if q.attr == "drawStyle" && q.node in joints then 0.0 else st.values[q]
    decreases |joints|
  {
    if joints != [] {
      var p := Plug(joints[0], "drawStyle");
      var r1 := SetAttr(st, p, 0.0);
      ShowJointsEffect(r1.state, joints[1..]);
      if p in st.values {
        assert r1.state.values.Keys == st.values.Keys;
      }
    }
  }

  /** The host scene's attributes and connections, changed in place by the
      utility commands. */
  class Rig {
    var values: map<Plug, real>
    var connections: set<Connection>

    function State(): RigState
      reads this
    {
      RigState(values, connections)
    }

    constructor (values: map<Plug, real>, connections: set<Connection>)
      ensures State() == RigState(values, connections)
    {
      this.values := values;
      this.connections := connections;
    }

    /** `cmds.listConnections(plug)`; raises for a plug that does not exist. */
    method ListConnections(p: Plug) returns (r: Result<set<string>, RigError>)
      ensures r == if p in values then Success(ConnectedNodes(State(), p)) else Failure(NoSuchPlug(p))
    {
      if p in values {
        r := Success(ConnectedNodes(State(), p));
      } else {
        r := Failure(NoSuchPlug(p));
      }
    }

    method Delete(nodes: set<string>)
      modifies this
      ensures State() == DeleteNodes(old(State()), nodes)
    {
      var st := DeleteNodes(State(), nodes);
      values, connections := st.values, st.connections;
    }

    method SetAttribute(p: Plug, v: real) returns (r: Outcome<RigError>)
      modifies this
      ensures ErrorOf(r) == SetAttr(old(State()), p, v).error
      ensures State() == SetAttr(old(State()), p, v).state
    {
      if p in values {
        values := values[p := v];
        r := Pass;
      } else {
        r := Fail(NoSuchPlug(p));
      }
    }

    /** The body of `restoreRootTransform`'s loop for one channel. */
    method RestoreChannelStep(plug: Plug) returns (r: Outcome<RigError>)
      modifies this
      ensures Run(State(), ErrorOf(r)) == RestoreChannel(old(State()), plug)
    {
      var inputs := ListConnections(plug);
      if inputs.Failure? {
        return Fail(inputs.error);
      }
      if inputs.value != {} {
        Delete(inputs.value);
      }
      var value := if plug.attr == "jointOrientX" then -90.0 else 0.0;
      r := SetAttribute(plug, value);
    }

    /** `restoreRootTransform`: for translate, rotate and jointOrient, axis
        by axis, delete the nodes connected to the channel and set it to its
        rest value (-90 for jointOrientX, 0 otherwise). */
    method RestoreRootTransform(root: string) returns (r: Outcome<RigError>)
      modifies this
      ensures var run := RestoreChannels(Run(old(State()), None), RootChannels(root));
        State() == run.state && (r.Pass? <==> run.error.None?)
    {
      ghost var st0 := State();
      var attrs := ChannelAttrs;
      var axes := Axes;
      var channels := RootChannels(root);
      for a := 0 to 3
        invariant RestoreChannels(Run(State(), None), channels[3 * a..]) == RestoreChannels(Run(st0, None), channels)
      {
        for x := 0 to 3
          invariant RestoreChannels(Run(State(), None), channels[3 * a + x..]) == RestoreChannels(Run(st0, None), channels)
        {
          var plug := Plug(root, attrs[a] + axes[x]);
          RootChannelAt(root, a, x);
          RestoreChannelsUnfold(State(), channels, 3 * a + x);
          var outcome := RestoreChannelStep(plug);
          if outcome.Fail? {
            return outcome;
          }
        }
      }
      r := Pass;
    }

    /** `showJoints`: set every listed joint's draw style to 0. */
    method ShowJoints(joints: seq<string>) returns (r: Outcome<RigError>)
      modifies this
      ensures var run := ShowJointsRun(Run(old(State()), None), joints);
        State() == run.state && (r.Pass? <==> run.error.None?)
    {
      ghost var st0 := State();
      for i := 0 to |joints|
        invariant ShowJointsRun(Run(State(), None), joints[i..]) == ShowJointsRun(Run(st0, None), joints)
      {
        var outcome := SetAttribute(Plug(joints[i], "drawStyle"), 0.0);
        if outcome.Fail? {
          return outcome;
        }
        assert joints[i..][1..] == joints[i + 1..];
      }
      r := Pass;
    }
  }

  /** Every channel of a successful `restoreRootTransform` is at its rest
      value, -90 for jointOrientX and 0 for the other eight, and has no
      connection left; no other value changed and nothing was added. */
  lemma RestoreRootTransformEffect(st: RigState, root: string)
    requires RestoreChannels(Run(st, None), RootChannels(root)).error.None?
    ensures var fin := RestoreChannels(Run(st, None), RootChannels(root)).state;
      && (forall p :: p in RootChannels(root) ==>
            p in fin.values && ConnectedNodes(fin, p) == {} && fin.values[p] == RestValue(p.attr))
      && Plug(root, "jointOrientX") in fin.values && fin.values[Plug(root, "jointOrientX")] == -90.0
      && Plug(root, "translateX") in fin.values && fin.values[Plug(root, "translateX")] == 0.0
      && fin.values.Keys <= st.values.Keys
      && fin.connections <= st.connections
      && forall q :: q in fin.values && q !in RootChannels(root) ==> fin.values[q] == st.values[q]
  {
    RootChannelsDistinct(root);
    RootChannelsOfRoot(root);
    RestoreRootChannels(st, RootChannels(root), root);
  }

  /** The same for any distinct channels of the root that start with
      translateX and hold jointOrientX at index 6. */
  lemma RestoreRootChannels(st: RigState, ps: seq<Plug>, root: string)
    requires |ps| == 9 && ps[0] == Plug(root, "translateX") && ps[6] == Plug(root, "jointOrientX")
    requires forall i :: 0 <= i < |ps| ==> ps[i].node == root
    requires forall i, j :: 0 <= i < j < |ps| ==> ps[i] != ps[j]
    requires RestoreChannels(Run(st, None), ps).error.None?
    ensures var fin := RestoreChannels(Run(st, None), ps).state;
      && (forall p :: p in ps ==>
            p in fin.values && ConnectedNodes(fin, p) == {} && fin.values[p] == RestValue(p.attr))
      && Plug(root, "jointOrientX") in fin.values && fin.values[Plug(root, "jointOrientX")] == -90.0
      && Plug(root, "translateX") in fin.values && fin.values[Plug(root, "translateX")] == 0.0
      && fin.values.Keys <= st.values.Keys
      && fin.connections <= st.connections
      && forall q :: q in fin.values && q !in ps ==> fin.values[q] == st.values[q]
  {
    RestoreChannelsEffect(st, ps, root);
    var fin := RestoreChannels(Run(st, None), ps).state;
    var t, j := ps[0], ps[6];
    assert t in ps && j in ps;
    assert fin.values[t] == RestValue(t.attr) == 0.0;
    assert fin.values[j] == RestValue(j.attr) == -90.0;
  }

  lemma RootChannelsOfRoot(root: string)
    ensures forall i :: 0 <= i < |RootChannels(root)| ==> RootChannels(root)[i].node == root
  {
  }

  /** A successful run over distinct plugs of one node: the plugs are reset
      and disconnected, nothing else changes and nothing is added. */
  lemma RestoreChannelsEffect(st: RigState, ps: seq<Plug>, n: string)
    requires forall i :: 0 <= i < |ps| ==> ps[i].node == n
    requires forall i, j :: 0 <= i < j < |ps| ==> ps[i] != ps[j]
    requires RestoreChannels(Run(st, None), ps).error.None?
    ensures var fin := RestoreChannels(Run(st, None), ps).state;
      && (forall p :: p in ps ==>
            p in fin.values && ConnectedNodes(fin, p) == {} && fin.values[p] == RestValue(p.attr))
      && fin.values.Keys <= st.values.Keys
      && fin.connections <= st.connections
      && forall q :: q in fin.values && q !in ps ==> fin.values[q] == st.values[q]
  {
    RestoreChannelsResets(st, ps, n);
    RestoreChannelsOnlyDeletes(st, ps);
  }
}
