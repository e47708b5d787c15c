/** The rewriting of an exported ASCII FBX file (FBX202000) after export.
    The file is a sequence of segments: model blocks (header, a
    `Properties70` block, the rest of the body), object-to-object connection
    lines, animation-curve connection lines, and any other text. Each
    regular-expression search of the publisher becomes a lookup over the
    segments, and Python's `str.replace` becomes `ReplaceAll` over segments
    (for the passes on blocks) or over characters (for the namespace). */
module FbxEdit {
  import opened Results
  import opened Seqs
  import opened PublishItems

  /** One `P: "name", value` line of a `Properties70` block. */
  datatype Property = Property(name: string, value: string)

  datatype Segment =
    | ModelBlock(id: string, name: string, kind: string, props: seq<Property>, rest: string)
    | ObjectLink(child: string, childId: string, parent: string, parentId: string)
    | CurveLink(curve: string, model: string, ids: string)
    | Text(text: string)

  datatype EditError = NoRootBlock(root: string)

  function RenderProperty(p: Property): string {
    "\t\t\tP: \"" + p.name + "\", " + p.value + "\n"
  }

  function RenderProperties(ps: seq<Property>): string
    decreases |ps|
  {
    if ps == [] then "" else RenderProperty(ps[0]) + RenderProperties(ps[1..])
  }

  function RenderSegment(s: Segment): (r: string) {
    match s
    case ModelBlock(id, name, kind, props, rest) =>
      "\tModel: " + id + ", \"Model::" + name + "\", \"" + kind + "\" {\n\t\tVersion: 232\n\t\tProperties70:  {\n"
      + RenderProperties(props) + "\t\t}\n" + rest + "\t}\n"
    case ObjectLink(child, childId, parent, parentId) =>
      "\t;Model::" + child + ", Model::" + parent + "\n\tC: \"OO\"," + childId + "," + parentId + "\n"
    case CurveLink(curve, model, ids) =>
      "\t;AnimCurveNode::" + curve + ", Model::" + model + "\n\tC: \"OP\"," + ids + "\n"
    case Text(text) => text
  }

  /** The text of the file. */
  function Render(segs: seq<Segment>): string
    decreases |segs|
  {
    if segs == [] then "" else RenderSegment(segs[0]) + Render(segs[1..])
  }

  /** No segment is an empty text. */
  predicate Canonical(segs: seq<Segment>) {
    forall i :: 0 <= i < |segs| ==> segs[i] != Text("")
  }

  /** The segments without the empty texts: the same file text, in the
      form where blocks with nothing but empty text between them are
      adjacent, as they are in the text the regular expressions scan. */
  function Canon(segs: seq<Segment>): (r: seq<Segment>)
    ensures Canonical(r)
    ensures Render(r) == Render(segs)
    ensures Canonical(segs) ==> r == segs
    decreases |segs|
  {
    if segs == [] then []
    else
      var rest := Canon(segs[1..]);
      if segs[0] == Text("") then rest
      else
        var r := [segs[0]] + rest;
        assert r[1..] == rest;
        r
  }

  /** Dropping the empty texts keeps only segments of the file. */
  lemma {:induction false} CanonKeeps(segs: seq<Segment>)
    ensures forall i :: 0 <= i < |Canon(segs)| ==> Canon(segs)[i] in segs
    decreases |segs|
  {
    if segs != [] {
      CanonKeeps(segs[1..]);
      var rest := Canon(segs[1..]);
      assert forall i :: 0 <= i < |rest| ==> rest[i] in segs;
    }
  }

  predicate IsDigit(c: char) {
    '0' <= c <= '9'
  }

  /** A match of the regular expression `\d+`. */
  predicate IsNumber(s: string) {
    s != [] && forall k :: 0 <= k < |s| ==> IsDigit(s[k])
  }

  /** A match of `\w+` (ASCII word characters). */
  predicate IsWord(s: string) {
    s != [] && forall k :: 0 <= k < |s| ==>
      ('a' <= s[k] <= 'z') || ('A' <= s[k] <= 'Z') || IsDigit(s[k]) || s[k] == '_'
  }

  function RootText(root: Option<string>): string {
    match root
    case None => "None"
    case Some(name) => name
  }

  // ---------------------------------------------------------------------
  // Show flags of limb nodes

  /** A comma followed by a digit at index `k` of a property value. */
  predicate FlagAt(v: string, k: nat) {
    k + 1 < |v| && v[k] == ',' && IsDigit(v[k + 1])
  }

  /** The first comma-digit pair at or after `k`. */
  function FlagFrom(v: string, k: nat): (r: Option<nat>)
    requires k <= |v|
    ensures r.Some? ==> k <= r.value && FlagAt(v, r.value)
    ensures r.Some? ==> forall j: nat :: k <= j < r.value ==> !FlagAt(v, j)
    ensures r.None? ==> forall j: nat :: k <= j ==> !FlagAt(v, j)
    decreases |v| - k
  {
    if k == |v| then None
    else if FlagAt(v, k) then Some(k)
    else FlagFrom(v, k + 1)
  }

  /** Where `(P: "Show".*?),\d` ends: the first comma-digit pair of the
      value (the text before the value has none). */
  function FirstFlag(v: string): (r: Option<nat>)
    ensures r.Some? ==> FlagAt(v, r.value) && forall j: nat :: j < r.value ==> !FlagAt(v, j)
    ensures r.None? ==> forall j: nat :: !FlagAt(v, j)
  {
    FlagFrom(v, 0)
  }

  /** The digit after the first comma-digit pair becomes `1`; nothing else
      changes. */
  function FixShowValue(v: string): (r: string)
    ensures |r| == |v|
    ensures FirstFlag(v).None? ==> r == v
    ensures FirstFlag(v).Some? ==> r[FirstFlag(v).value + 1] == '1'
    ensures forall j :: 0 <= j < |v| && (FirstFlag(v).None? || j != FirstFlag(v).value + 1) ==> r[j] == v[j]
  {
    match FirstFlag(v)
    case None => v
    case Some(k) => v[..k + 1] + "1" + v[k + 2..]
  }

  /** The fix changes a value exactly when its first comma-digit pair
      holds a digit other than `1`. */
  lemma FixShowValueChanges(v: string)
    ensures FixShowValue(v) != v <==> FirstFlag(v).Some? && v[FirstFlag(v).value + 1] != '1'
  {
    var r := FixShowValue(v);
    if FirstFlag(v).Some? && v[FirstFlag(v).value + 1] == '1' {
      assert forall j :: 0 <= j < |v| ==> r[j] == v[j];
    }
  }

  /** Fixing a Show value twice is fixing it once. */
  lemma FixShowValueIdempotent(v: string)
    ensures FixShowValue(FixShowValue(v)) == FixShowValue(v)
  {
    var r := FixShowValue(v);
    if FirstFlag(v).Some? {
      var k := FirstFlag(v).value;
      assert FlagAt(r, k);
      forall j: nat | j < k ensures !FlagAt(r, j) {
        assert !FlagAt(v, j);
      }
      assert FirstFlag(r) == Some(k);
      assert r[..k + 1] + "1" + r[k + 2..] == r;
    }
  }

  function FixShowProperty(p: Property): Property {
    if p.name == "Show" then p.(value := FixShowValue(p.value)) else p
  }

  /** The `re.sub` of one find: every Show property of every model block. */
  function FixShowSegment(s: Segment): (r: Segment)
    ensures Frame(r) == Frame(s)
  {
    if s.ModelBlock? then
      s.(props := seq(|s.props|, i requires 0 <= i < |s.props| => FixShowProperty(s.props[i])))
    else s
  }

  function FixShowRun(segs: seq<Segment>): (r: seq<Segment>)
    ensures |r| == |segs|
  {
    seq(|segs|, i requires 0 <= i < |segs| => FixShowSegment(segs[i]))
  }

  /** Fixing consecutive finds one by one is fixing their concatenation. */
  lemma FixShowRunAppend(a: seq<Segment>, b: seq<Segment>)
    ensures FixShowRun(a + b) == FixShowRun(a) + FixShowRun(b)
  {
  }

  predicate IsModel(s: Segment) {
    s.ModelBlock?
  }

  predicate IsLimb(s: Segment) {
    s.ModelBlock? && s.kind == "LimbNode"
  }

  /** A header `"Model::...<root>", "<word>" {`. */
  predicate IsRootBlock(s: Segment, root: string) {
    s.ModelBlock? && EndsWith(s.name, root) && IsWord(s.kind)
  }

  /** A header `"Model::<t>", "<word>" {`. */
  predicate IsNamedBlock(s: Segment, t: string) {
    s.ModelBlock? && s.name == t && IsWord(s.kind)
  }

  /** The block searches of the edit. */
  datatype Query = AnyModel | Limb | RootBlock(root: string) | NamedBlock(name: string)

  predicate Matches(s: Segment, q: Query) {
    match q
    case AnyModel => IsModel(s)
    case Limb => IsLimb(s)
    case RootBlock(root) => IsRootBlock(s, root)
    case NamedBlock(t) => IsNamedBlock(s, t)
  }

  /** The index of the first segment at or after `k` the query matches:
      where a search that starts scanning at `k` succeeds. */
  function FirstMatchFrom(segs: seq<Segment>, q: Query, k: nat): (r: Option<nat>)
    requires k <= |segs|
    ensures r.Some? ==> k <= r.value < |segs| && Matches(segs[r.value], q)
    ensures r.Some? ==> forall j :: k <= j < r.value ==> !Matches(segs[j], q)
    ensures r.None? ==> forall j :: k <= j < |segs| ==> !Matches(segs[j], q)
    decreases |segs| - k
  {
    if k == |segs| then None
    else if Matches(segs[k], q) then Some(k)
    else FirstMatchFrom(segs, q, k + 1)
  }

  function FirstMatch(segs: seq<Segment>, q: Query): (r: Option<nat>)
    ensures r.Some? ==> r.value < |segs| && Matches(segs[r.value], q)
    ensures r.Some? ==> forall j :: 0 <= j < r.value ==> !Matches(segs[j], q)
    ensures r.None? ==> forall j :: 0 <= j < |segs| ==> !Matches(segs[j], q)
  {
    FirstMatchFrom(segs, q, 0)
  }

  lemma FirstMatchAt(segs: seq<Segment>, q: Query, k: nat, m: nat)
    requires k <= m < |segs| && Matches(segs[m], q)
    requires forall j :: k <= j < m ==> !Matches(segs[j], q)
    ensures FirstMatchFrom(segs, q, k) == Some(m)
  {
  }

  /** The finds of the limb pattern from index `k` on: each find runs from
      the next model block to the end of the next `LimbNode` block. */
  function LimbFindsFrom(segs: seq<Segment>, k: nat): seq<seq<Segment>>
    requires k <= |segs|
    decreases |segs| - k
  {
    match FirstMatchFrom(segs, AnyModel, k)
    case None => []
    case Some(a) =>
      match FirstMatchFrom(segs, Limb, a)
      case None => []
      case Some(z) => [segs[a..z + 1]] + LimbFindsFrom(segs, z + 1)
  }

  /** `findall` of the limb pattern over the whole file. */
  function LimbFinds(segs: seq<Segment>): seq<seq<Segment>> {
    LimbFindsFrom(segs, 0)
  }

  /** The Show pass on segments without empty texts: the concatenation of
      the finds is replaced by the concatenation of the fixed finds. */
  function ShowPass(c: seq<Segment>): seq<Segment> {
    var found := Flatten(LimbFinds(c));
    ReplaceAll(c, found, FixShowRun(found))
  }

  /** The Show pass over the file, taken without its empty texts. It
      changes only properties: every block keeps its id, name, kind, body
      and place, and every other segment but an empty text stays. */
  function FixLimbs(segs: seq<Segment>): (r: seq<Segment>)
    ensures Frames(r) == Frames(Canon(segs))
  {
    var c := Canon(segs);
    var found := Flatten(LimbFinds(c));
    ShowPassFrames(c, found);
    ShowPass(c)
  }

  /** Fixing Show flags changes only properties. */
  lemma ShowPassFrames(c: seq<Segment>, found: seq<Segment>)
    requires found == Flatten(LimbFinds(c))
    ensures Frames(ShowPass(c)) == Frames(c)
  {
    var fixed := FixShowRun(found);
    assert forall k :: 0 <= k < |found| ==> Frame(fixed[k]) == Frame(found[k]);
    if found != [] {
      ReplaceKeepsImage(c, found, fixed, Frame);
    } else {
      ReplaceEmptyByEmpty(c);
    }
    var r := ShowPass(c);
    assert forall k :: 0 <= k < |r| ==> Frames(r)[k] == Frame(r[k]) == Frame(c[k]) == Frames(c)[k];
  }

  lemma LimbFindsNoLimb(segs: seq<Segment>, k: nat)
    requires k <= |segs|
    requires forall i :: k <= i < |segs| ==> !IsLimb(segs[i])
    ensures LimbFindsFrom(segs, k) == [] && LimbTextFrom(segs, k) == []
  {
    if FirstMatchFrom(segs, AnyModel, k).Some? {
      var a := FirstMatchFrom(segs, AnyModel, k).value;
      assert forall j :: a <= j < |segs| ==> !Matches(segs[j], Limb);
    }
  }

  /** A file without limb blocks is left as it is: the segments lose only
      their empty texts, and the text is the same. */
  lemma FixLimbsNoLimb(segs: seq<Segment>)
    requires forall i :: 0 <= i < |segs| ==> !IsLimb(segs[i])
    ensures FixLimbs(segs) == Canon(segs)
    ensures Render(FixLimbs(segs)) == Render(segs)
  {
    var c := Canon(segs);
    CanonKeeps(segs);
    LimbFindsNoLimb(c, 0);
    ReplaceEmptyByEmpty(c);
  }

  /** The concatenation of the finds from index `k` on. */
  function LimbTextFrom(segs: seq<Segment>, k: nat): seq<Segment>
    requires k <= |segs|
    decreases |segs| - k
  {
    match FirstMatchFrom(segs, AnyModel, k)
    case None => []
    case Some(a) =>
      match FirstMatchFrom(segs, Limb, a)
      case None => []
      case Some(z) => segs[a..z + 1] + LimbTextFrom(segs, z + 1)
  }

  lemma {:induction false} LimbTextIsFlatten(segs: seq<Segment>, k: nat)
    requires k <= |segs|
    ensures Flatten(LimbFindsFrom(segs, k)) == LimbTextFrom(segs, k)
    decreases |segs| - k
  {
    match FirstMatchFrom(segs, AnyModel, k)
    case None =>
    case Some(a) =>
      match FirstMatchFrom(segs, Limb, a)
      case None =>
      case Some(z) =>
        LimbTextIsFlatten(segs, z + 1);
        LimbFlattenStep(segs, k, a, z);
  }

  lemma LimbFlattenStep(segs: seq<Segment>, k: nat, a: nat, b: nat)
    requires k <= |segs|
    requires FirstMatchFrom(segs, AnyModel, k) == Some(a)
    requires FirstMatchFrom(segs, Limb, a) == Some(b)
    requires Flatten(LimbFindsFrom(segs, b + 1)) == LimbTextFrom(segs, b + 1)
    ensures Flatten(LimbFindsFrom(segs, k)) == LimbTextFrom(segs, k)
  {
    LimbTextStep(segs, k, a, b);
    LimbFindsStep(segs, k, a, b);
    FlattenCons(segs[a..b + 1], LimbFindsFrom(segs, b + 1));
  }

  lemma LimbFindsStep(segs: seq<Segment>, k: nat, a: nat, b: nat)
    requires k <= |segs|
    requires FirstMatchFrom(segs, AnyModel, k) == Some(a)
    requires FirstMatchFrom(segs, Limb, a) == Some(b)
    ensures LimbFindsFrom(segs, k) == [segs[a..b + 1]] + LimbFindsFrom(segs, b + 1)
  {
    match FirstMatchFrom(segs, AnyModel, k)
    case Some(a') =>
      match FirstMatchFrom(segs, Limb, a')
      case Some(b') =>
  }

  lemma LimbTextStep(segs: seq<Segment>, k: nat, a: nat, b: nat)
    requires k <= |segs|
    requires FirstMatchFrom(segs, AnyModel, k) == Some(a)
    requires FirstMatchFrom(segs, Limb, a) == Some(b)
    ensures LimbTextFrom(segs, k) == segs[a..b + 1] + LimbTextFrom(segs, b + 1)
  {
    match FirstMatchFrom(segs, AnyModel, k)
    case Some(a') =>
      match FirstMatchFrom(segs, Limb, a')
      case Some(b') =>
  }

  /** Segments `a..z` are model blocks. */
  predicate AllModels(segs: seq<Segment>, a: nat, z: nat)
    requires z < |segs|
  {
    forall j :: a <= j <= z ==> IsModel(segs[j])
  }

  lemma AllModelsSuffix(segs: seq<Segment>, a: nat, c: nat, z: nat)
    requires a <= c <= z < |segs| && AllModels(segs, a, z)
    ensures AllModels(segs, c, z) && IsModel(segs[c])
  {
  }

  lemma LimbTextJoin(segs: seq<Segment>, text: seq<Segment>, a: nat, b: nat, z: nat)
    requires a <= b < z < |segs|
    requires text == segs[a..b + 1] + segs[b + 1..z + 1]
    ensures text == segs[a..z + 1]
  {
    SliceConcat(segs, a, b + 1, z + 1);
  }

  /** The limb search from `a` stops at or before a limb block at `z`. */
  lemma LimbBound(segs: seq<Segment>, a: nat, z: nat)
    requires a <= z < |segs| && IsLimb(segs[z])
    ensures FirstMatchFrom(segs, Limb, a).Some? && FirstMatchFrom(segs, Limb, a).value <= z
  {
    assert Matches(segs[z], Limb);
  }

  /** No limb block after index `z`. */
  predicate NoLimbAfter(segs: seq<Segment>, z: nat)
    requires z < |segs|
  {
    forall j :: z < j < |segs| ==> !IsLimb(segs[j])
  }

  /** When every segment from the first model block at or after `k`
      through the last limb block is a model block, the finds are exactly
      that stretch. */
  lemma {:induction false} LimbTextContiguous(segs: seq<Segment>, k: nat, a: nat, z: nat)
    requires k <= a <= z < |segs|
    requires FirstMatchFrom(segs, AnyModel, k) == Some(a)
    requires AllModels(segs, a, z) && IsLimb(segs[z]) && NoLimbAfter(segs, z)
    ensures LimbTextFrom(segs, k) == segs[a..z + 1]
    decreases |segs| - k
  {
    var b := ContiguousStep(segs, k, a, z);
    if b < z {
      LimbTextContiguous(segs, b + 1, b + 1, z);
      LimbTextJoin(segs, LimbTextFrom(segs, k), a, b, z);
    } else {
      assert segs[a..b + 1] + [] == segs[a..z + 1];
    }
  }

  /** The first find of a contiguous stretch ends at `b`; after it either
      the stretch goes on with a model block or nothing is left. */
  lemma ContiguousStep(segs: seq<Segment>, k: nat, a: nat, z: nat) returns (b: nat)
    requires k <= a <= z < |segs|
    requires FirstMatchFrom(segs, AnyModel, k) == Some(a)
    requires AllModels(segs, a, z) && IsLimb(segs[z]) && NoLimbAfter(segs, z)
    ensures a <= b <= z
    ensures LimbTextFrom(segs, k) == segs[a..b + 1] + LimbTextFrom(segs, b + 1)
    ensures b < z ==> FirstMatchFrom(segs, AnyModel, b + 1) == Some(b + 1) && AllModels(segs, b + 1, z)
    ensures b == z ==> LimbTextFrom(segs, b + 1) == []
  {
    LimbBound(segs, a, z);
    b := FirstMatchFrom(segs, Limb, a).value;
    LimbTextStep(segs, k, a, b);
    if b == z {
      LimbFindsNoLimb(segs, z + 1);
    } else {
      AllModelsSuffix(segs, a, b + 1, z);
      FirstMatchAt(segs, AnyModel, b + 1, b + 1);
    }
  }

  /** A stretch ending in the last limb block does not occur after it. */
  lemma SpanAbsentAfter(segs: seq<Segment>, a: nat, z: nat, span: seq<Segment>, fixed: seq<Segment>)
    requires a <= z < |segs| && span == segs[a..z + 1]
    requires IsLimb(segs[z]) && NoLimbAfter(segs, z)
    ensures ReplaceAll(segs[z + 1..], span, fixed) == segs[z + 1..]
  {
    var tail := segs[z + 1..];
    var last := z - a;
    assert IsLimb(span[last]);
    forall k: nat ensures !OccursAt(tail, span, k) {
      if k + |span| <= |tail| {
        assert tail[k + last] == segs[z + 1 + k + last];
        assert tail[k..k + |span|][last] == tail[k + last];
        assert !IsLimb(tail[k..k + |span|][last]);
      }
    }
    ReplaceAbsent(tail, span, fixed);
  }

  /** In the contiguous case the Show pass fixes exactly that stretch. */
  lemma FixLimbsContiguous(segs: seq<Segment>, a: nat, z: nat)
    requires Canonical(segs) && a <= z < |segs|
    requires forall j :: 0 <= j < a ==> !IsModel(segs[j])
    requires forall j :: a <= j <= z ==> IsModel(segs[j])
    requires IsLimb(segs[z]) && forall j :: z < j < |segs| ==> !IsLimb(segs[j])
    ensures FixLimbs(segs) == segs[..a] + FixShowRun(segs[a..z + 1]) + segs[z + 1..]
  {
    var span := segs[a..z + 1];
    var fixed := FixShowRun(span);
    LimbTextIsFlatten(segs, 0);
    FirstMatchAt(segs, AnyModel, 0, a);
    assert AllModels(segs, a, z) && NoLimbAfter(segs, z);
    LimbTextContiguous(segs, 0, a, z);
    assert Flatten(LimbFinds(segs)) == span;
    ReplaceFromFirstModel(segs, a, z, span, fixed);
    SpanAbsentAfter(segs, a, z, span, fixed);
  }

  /** Two limb blocks with other text between them: the concatenation of
      the finds does not occur, so the Show pass changes nothing. */
  lemma FixLimbsNonContiguous(hip: Segment, between: string, knee: Segment)
    requires IsLimb(hip) && IsLimb(knee) && between != ""
    ensures FixLimbs([hip, Text(between), knee]) == [hip, Text(between), knee]
  {
    var segs := [hip, Text(between), knee];
    assert Canonical(segs);
    var found := [hip, knee];
    NonContiguousFinds(hip, between, knee);
    forall k: nat ensures !OccursAt(segs, found, k) {
      OccursAtElements(segs, found, k);
      if k <= 1 {
        assert k == 0 ==> segs[k + 1] != found[1];
        assert k == 1 ==> segs[k + 0] != found[0];
      }
    }
    ReplaceAbsent(segs, found, FixShowRun(found));
  }

  lemma NonContiguousFinds(hip: Segment, between: string, knee: Segment)
    requires IsLimb(hip) && IsLimb(knee) && between != ""
    ensures Flatten(LimbFinds([hip, Text(between), knee])) == [hip, knee]
  {
    var segs := [hip, Text(between), knee];
    LimbTextIsFlatten(segs, 0);
    FirstMatchAt(segs, AnyModel, 0, 0);
    FirstMatchAt(segs, Limb, 0, 0);
    LimbTextStep(segs, 0, 0, 0);
    FirstMatchAt(segs, AnyModel, 1, 2);
    FirstMatchAt(segs, Limb, 2, 2);
    LimbTextStep(segs, 1, 2, 2);
    assert LimbTextFrom(segs, 3) == [];
    assert segs[0..1] == [hip] && segs[2..3] == [knee];
  }

  /** Two limb blocks with only empty text between them are adjacent in
      the file's text: the Show pass fixes both, as it does when nothing
      is between them. */
  lemma FixLimbsEmptyBetween(hip: Segment, knee: Segment)
    requires IsLimb(hip) && IsLimb(knee)
    ensures FixLimbs([hip, Text(""), knee]) == FixLimbs([hip, knee]) == FixShowRun([hip, knee])
  {
    var segs := [hip, knee];
    CanonDropsEmpty(hip, knee);
    assert Canonical(segs);
    FixLimbsContiguous(segs, 0, 1);
    assert segs[..0] == [] && segs[0..2] == segs && segs[2..] == [];
  }

  lemma CanonDropsEmpty(hip: Segment, knee: Segment)
    requires hip.ModelBlock? && knee.ModelBlock?
    ensures Canon([hip, Text(""), knee]) == [hip, knee]
  {
    var spaced := [hip, Text(""), knee];
    assert Canonical([knee]);
    assert spaced[1..] == [Text(""), knee] && [Text(""), knee][1..] == [knee];
    assert Canon([Text(""), knee]) == [knee];
  }

  /** A hidden limb block such as the one above: its Show flag is 0, and
      the fix would have set it. */
  lemma HiddenLimbIsFixable()
    ensures var hip := ModelBlock("1", "hip", "LimbNode", [Property("Show", "\"bool\", \"\", \"\",0")], "");
      IsLimb(hip) && FixShowSegment(hip) != hip
  {
    var v := "\"bool\", \"\", \"\",0";
    var hip := ModelBlock("1", "hip", "LimbNode", [Property("Show", v)], "");
    assert FlagAt(v, 14);
    assert forall j: nat :: j < 14 ==> !FlagAt(v, j);
    assert FirstFlag(v) == Some(14);
    assert FixShowValue(v)[15] == '1' && v[15] == '0';
    assert FixShowSegment(hip).props[0] != hip.props[0];
  }

  /** A stretch that starts at the first model block is found there
      first. */
  lemma SpanFromFirstModel(segs: seq<Segment>, f: nat, j: nat, span: seq<Segment>)
    requires f <= j < |segs| && span == segs[f..j + 1]
    requires forall k :: 0 <= k < f ==> !IsModel(segs[k])
    requires IsModel(segs[f])
    ensures OccursAt(segs, span, f) && NoneBefore(segs, span, f)
  {
    forall k: nat | k < f ensures !OccursAt(segs, span, k) {
      OccursAtElements(segs, span, k);
    }
  }

  // ---------------------------------------------------------------------
  // Re-parenting to the world

  /** The connection line `\t;Model.*?<root>, Model::...` with `C: "OO",id,id`:
      a connection whose child's name, after `::`, ends with the root. */
  predicate LinksFrom(s: Segment, root: string) {
    s.ObjectLink? && EndsWith("::" + s.child, root) && IsNumber(s.childId) && IsNumber(s.parentId)
  }

  function ReparentSegment(s: Segment, root: string): (r: Segment)
    ensures r == s || LinksFrom(s, root)
  {
    if LinksFrom(s, root) then s.(parent := "RootNode", parentId := "0") else s
  }

  /** The `re.sub` of one root: its connection lines now point at the
      scene root (`RootNode`, id 0). */
  function Reparent(segs: seq<Segment>, root: string): (r: seq<Segment>)
    ensures |r| == |segs|
  {
    seq(|segs|, i requires 0 <= i < |segs| => ReparentSegment(segs[i], root))
  }

  /** Every matching connection keeps its child and gets the scene root as
      parent; every other segment is unchanged. */
  lemma ReparentEffect(segs: seq<Segment>, root: string)
    ensures forall i :: 0 <= i < |segs| && LinksFrom(segs[i], root) ==>
      Reparent(segs, root)[i] == ObjectLink(segs[i].child, segs[i].childId, "RootNode", "0")
    ensures forall i :: 0 <= i < |segs| && !LinksFrom(segs[i], root) ==> Reparent(segs, root)[i] == segs[i]
    ensures forall i :: 0 <= i < |segs| && LinksFrom(Reparent(segs, root)[i], root) ==>
      Reparent(segs, root)[i].parent == "RootNode"
  {
  }

  /** Without a matching connection nothing is re-parented. */
  lemma ReparentNoMatch(segs: seq<Segment>, root: string)
    requires forall i :: 0 <= i < |segs| ==> !LinksFrom(segs[i], root)
    ensures Reparent(segs, root) == segs
  {
  }

  lemma ReparentIdempotent(segs: seq<Segment>, root: string)
    ensures Reparent(Reparent(segs, root), root) == Reparent(segs, root)
  {
  }

  // ---------------------------------------------------------------------
  // Moving the skeleton root to the origin

  /** The properties written for the skeleton root instead of its own. */
  function RootProperties(orient: string): (ps: seq<Property>)
    ensures |ps| == 8 && ps[4] == Property("Show", "\"bool\", \"\", \"\",1")
  {
    [Property("PreRotation", "\"Vector3D\", \"Vector\", \"\"," + orient),
     Property("RotationActive", "\"bool\", \"\", \"\",1"),
     Property("InheritType", "\"enum\", \"\", \"\",1"),
     Property("ScalingMax", "\"Vector3D\", \"Vector\", \"\",0,0,0"),
     Property("Show", "\"bool\", \"\", \"\",1"),
     Property("DefaultAttributeIndex", "\"int\", \"Integer\", \"\",0"),
     Property("Lcl Translation", "\"Lcl Translation\", \"\", \"A\",0,0,0"),
     Property("Lcl Rotation", "\"Lcl Rotation\", \"\", \"A+\",0,0,0")]
  }

  /** The line pair `\t;AnimCurveNode::...Model::...<root>` / `C: "OP",...`. */
  predicate IsRootCurve(s: Segment, root: string) {
    s.CurveLink? && EndsWith(s.model, root)
  }

  /** What the root's curve connections are dropped by. */
  function OtherThanRootCurve(root: string): Segment -> bool {
    (s: Segment) => !IsRootCurve(s, root)
  }

  /** A segment with the properties of a model block left out: the id,
      name, kind and the rest of the block, or the whole of any other
      segment. */
  function Frame(s: Segment): (r: Segment)
    ensures r.ModelBlock? == s.ModelBlock?
  {
    if s.ModelBlock? then s.(props := []) else s
  }

  function Frames(segs: seq<Segment>): (r: seq<Segment>)
    ensures |r| == |segs|
  {
    seq(|segs|, k requires 0 <= k < |segs| => Frame(segs[k]))
  }

  function ReplaceProperties(s: Segment, previous: seq<Property>, replacement: seq<Property>): (r: Segment)
    ensures Frame(r) == Frame(s)
  {
    if s.ModelBlock? then s.(props := ReplaceAll(s.props, previous, replacement)) else s
  }

  /** The property replacement applied to every block of a stretch. */
  function ReplaceEachProperties(span: seq<Segment>, previous: seq<Property>, replacement: seq<Property>): (r: seq<Segment>)
    ensures |r| == |span|
    ensures forall k :: 0 <= k < |span| ==> r[k] == ReplaceProperties(span[k], previous, replacement)
  {
    seq(|span|, k requires 0 <= k < |span| => ReplaceProperties(span[k], previous, replacement))
  }

  /** The move-to-origin pass. The match of the root-block search runs from
      the first model block to the end of the first block whose name ends
      with the root; within that stretch the root's properties are replaced
      (in every block holding them), the stretch is replaced in the file,
      and the root's animation-curve connections are dropped. Without a
      root block `.group(1)` is called on None and raises. */
  function MoveToOrigin(segs: seq<Segment>, root: string, orient: string): (r: Result<seq<Segment>, EditError>)
    ensures r.Failure? <==> forall i :: 0 <= i < |segs| ==> !IsRootBlock(segs[i], root)
    ensures r.Failure? ==> r.error == NoRootBlock(root)
    ensures r.Success? ==> forall i :: 0 <= i < |r.value| ==> !IsRootCurve(r.value[i], root)
  {
    match FirstMatch(segs, RootBlock(root))
    case None => Failure(NoRootBlock(root))
    case Some(i) =>
      assert Matches(segs[i], AnyModel);
      var f := FirstMatch(segs, AnyModel).value;
      var span := segs[f..i + 1];
      var newSpan := ReplaceEachProperties(span, segs[i].props, RootProperties(orient));
      var moved := ReplaceAll(segs, span, newSpan);
      Success(Keep(moved, OtherThanRootCurve(root)))
  }

  /** After a successful move the first root block carries the origin
      properties (it had properties of its own). */
  lemma MoveToOriginRootBlock(segs: seq<Segment>, root: string, orient: string, i: nat)
    requires i < |segs| && IsRootBlock(segs[i], root)
    requires forall j :: 0 <= j < i ==> !IsRootBlock(segs[j], root)
    requires segs[i].props != []
    ensures MoveToOrigin(segs, root, orient).Success?
    ensures segs[i].(props := RootProperties(orient)) in MoveToOrigin(segs, root, orient).value
  {
    var b := segs[i];
    FirstMatchAt(segs, RootBlock(root), 0, i);
    assert Matches(segs[i], AnyModel);
    var f := FirstMatch(segs, AnyModel).value;
    var span := segs[f..i + 1];
    var newSpan := ReplaceEachProperties(span, b.props, RootProperties(orient));
    var moved := ReplaceAll(segs, span, newSpan);
    var target := b.(props := RootProperties(orient));
    assert MoveToOrigin(segs, root, orient) == Success(Keep(moved, OtherThanRootCurve(root)));
    ReplaceWhole(b.props, RootProperties(orient));
    assert span[i - f] == b;
    assert newSpan[i - f] == target;
    MovedHoldsTarget(segs, f, i, span, newSpan, target);
    assert !IsRootCurve(moved[i], root);
  }

  /** Only properties change and only the root's curve connections go: the
      result is the file without those connections, with every model block
      keeping its id, name, kind, body and place, and every other segment
      as it was. */
  lemma MoveToOriginFrame(segs: seq<Segment>, root: string, orient: string)
    requires MoveToOrigin(segs, root, orient).Success?
    ensures Frames(MoveToOrigin(segs, root, orient).value) == Frames(Keep(segs, OtherThanRootCurve(root)))
  {
    var i := FirstMatch(segs, RootBlock(root)).value;
    assert Matches(segs[i], AnyModel);
    var f := FirstMatch(segs, AnyModel).value;
    var span := segs[f..i + 1];
    var newSpan := ReplaceEachProperties(span, segs[i].props, RootProperties(orient));
    var moved := ReplaceAll(segs, span, newSpan);
    assert MoveToOrigin(segs, root, orient) == Success(Keep(moved, OtherThanRootCurve(root)));
    assert forall k :: 0 <= k < |span| ==> Frame(newSpan[k]) == Frame(span[k]);
    ReplaceFramesKept(segs, span, newSpan, root);
  }

  /** Replacing a stretch by one with the same frames, then dropping the
      root's curve connections, gives the frames of the file without them. */
  lemma ReplaceFramesKept(segs: seq<Segment>, span: seq<Segment>, newSpan: seq<Segment>, root: string)
    requires span != [] && |newSpan| == |span|
    requires forall k :: 0 <= k < |span| ==> Frame(newSpan[k]) == Frame(span[k])
    ensures Frames(Keep(ReplaceAll(segs, span, newSpan), OtherThanRootCurve(root))) == Frames(Keep(segs, OtherThanRootCurve(root)))
  {
    var moved := ReplaceAll(segs, span, newSpan);
    var keep := OtherThanRootCurve(root);
    ReplaceKeepsImage(segs, span, newSpan, Frame);
    forall k | 0 <= k < |moved| ensures keep(moved[k]) == keep(segs[k]) {
      FrameDecidesRootCurve(moved[k], segs[k], root);
    }
    KeepSameImage(moved, segs, keep, Frame);
  }

  lemma FrameDecidesRootCurve(x: Segment, y: Segment, root: string)
    requires Frame(x) == Frame(y)
    ensures IsRootCurve(x, root) == IsRootCurve(y, root)
  {
  }

  /** The replaced stretch sits at the first model block, so the block at
      `i` of the result is the replaced one. */
  lemma MovedHoldsTarget(segs: seq<Segment>, f: nat, i: nat, span: seq<Segment>, newSpan: seq<Segment>, target: Segment)
    requires f <= i < |segs| && span == segs[f..i + 1]
    requires forall k :: 0 <= k < f ==> !IsModel(segs[k])
    requires IsModel(segs[f]) && span != []
    requires |newSpan| == |span| && newSpan[i - f] == target
    ensures i < |ReplaceAll(segs, span, newSpan)| && ReplaceAll(segs, span, newSpan)[i] == target
  {
    ReplaceFromFirstModel(segs, f, i, span, newSpan);
    var rest := ReplaceAll(segs[i + 1..], span, newSpan);
    assert (segs[..f] + newSpan + rest)[i] == newSpan[i - f];
  }

  // ---------------------------------------------------------------------
  // Removing top transforms

  /** One top transform: the search match runs from the first model block
      to the end of the first block named `t`, and every occurrence of that
      stretch is deleted. */
  function RemoveTopTransform(segs: seq<Segment>, t: string): (r: seq<Segment>)
    ensures |r| <= |segs|
    ensures (forall k :: 0 <= k < |segs| ==> !IsNamedBlock(segs[k], t)) ==> r == segs
  {
    match FirstMatch(segs, NamedBlock(t))
    case None => segs
    case Some(j) =>
      assert Matches(segs[j], AnyModel);
      var f := FirstMatch(segs, AnyModel).value;
      ReplaceAll(segs, segs[f..j + 1], [])
  }

  /** The top transforms handled in order. */
  function RemoveTops(segs: seq<Segment>, tops: seq<string>): (r: seq<Segment>)
    ensures |r| <= |segs|
    decreases |tops|
  {
    if tops == [] then segs else RemoveTops(RemoveTopTransform(segs, tops[0]), tops[1..])
  }

  /** With a block named `t`, the segments before the first model block
      stay and the first matched stretch is gone. */
  lemma RemoveTopTransformEffect(segs: seq<Segment>, t: string, f: nat, j: nat)
    requires f <= j < |segs|
    requires forall k :: 0 <= k < f ==> !IsModel(segs[k])
    requires IsModel(segs[f])
    requires IsNamedBlock(segs[j], t) && forall k :: 0 <= k < j ==> !IsNamedBlock(segs[k], t)
    ensures RemoveTopTransform(segs, t) == segs[..f] + ReplaceAll(segs[j + 1..], segs[f..j + 1], [])
  {
    var span := segs[f..j + 1];
    FirstMatchAt(segs, NamedBlock(t), 0, j);
    FirstMatchAt(segs, AnyModel, 0, f);
    RemoveTopTransformAt(segs, t, f, j);
    ReplaceFromFirstModel(segs, f, j, span, []);
    assert segs[..f] + [] == segs[..f];
  }

  lemma RemoveTopTransformAt(segs: seq<Segment>, t: string, f: nat, j: nat)
    requires f <= j < |segs|
    requires FirstMatch(segs, NamedBlock(t)) == Some(j) && FirstMatch(segs, AnyModel) == Some(f)
    ensures RemoveTopTransform(segs, t) == ReplaceAll(segs, segs[f..j + 1], [])
  {
    var f' := FirstMatch(segs, AnyModel).value;
    assert f' == f;
    assert segs[f'..j + 1] == segs[f..j + 1];
  }

  /** Replacing a stretch that starts at the first model block: what comes
      before it stays, and the rest is replaced after it. */
  lemma ReplaceFromFirstModel(segs: seq<Segment>, f: nat, j: nat, span: seq<Segment>, r: seq<Segment>)
    requires f <= j < |segs| && span == segs[f..j + 1]
    requires forall k :: 0 <= k < f ==> !IsModel(segs[k])
    requires IsModel(segs[f])
    ensures ReplaceAll(segs, span, r) == segs[..f] + r + ReplaceAll(segs[j + 1..], span, r)
  {
    SpanFromFirstModel(segs, f, j, span);
    ReplaceFirstSpan(segs, f, j, r);
  }


  /** Without a block named `t` the file is unchanged. */
  lemma RemoveTopTransformAbsent(segs: seq<Segment>, t: string)
    requires forall k :: 0 <= k < |segs| ==> !IsNamedBlock(segs[k], t)
    ensures RemoveTopTransform(segs, t) == segs
  {
    assert forall k :: 0 <= k < |segs| ==> !Matches(segs[k], NamedBlock(t));
  }

  lemma {:induction false} RemoveTopsAbsent(segs: seq<Segment>, tops: seq<string>)
    requires forall i, k :: 0 <= i < |tops| && 0 <= k < |segs| ==> !IsNamedBlock(segs[k], tops[i])
    ensures RemoveTops(segs, tops) == segs
    decreases |tops|
  {
    if tops != [] {
      RemoveTopTransformAbsent(segs, tops[0]);
      RemoveTopsAbsent(segs, tops[1..]);
    }
  }

  /** A limb block before the top transform is deleted with it. */
  lemma RemoveTopTakesEarlierBlocks()
    ensures var hip := ModelBlock("1", "hip", "LimbNode", [], "");
      var geo := ModelBlock("2", "Geo", "Null", [], "");
      RemoveTopTransform([hip, geo], "Geo") == []
  {
    var hip := ModelBlock("1", "hip", "LimbNode", [], "");
    var geo := ModelBlock("2", "Geo", "Null", [], "");
    var segs := [hip, geo];
    assert IsWord("Null") by {
      assert "Null"[0] == 'N' && "Null"[1] == 'u' && "Null"[2] == 'l' && "Null"[3] == 'l';
    }
    RemoveTopTransformEffect(segs, "Geo", 0, 1);
    assert segs[2..] == [];
    assert segs[..0] == [];
  }

  /** The removal each search of the top-transform loop is meant to make:
      the first block named `t` goes, and every other segment stays where
      it was. */
  function RemoveTopBlock(segs: seq<Segment>, t: string): (r: seq<Segment>)
    ensures FirstMatch(segs, NamedBlock(t)).None? ==> r == segs
    ensures FirstMatch(segs, NamedBlock(t)).Some? ==> var j := FirstMatch(segs, NamedBlock(t)).value;
      && |r| == |segs| - 1
      && (forall k :: 0 <= k < j ==> r[k] == segs[k])
      && (forall k :: j <= k < |r| ==> r[k] == segs[k + 1])
      && multiset(r) + multiset{segs[j]} == multiset(segs)
  {
    match FirstMatch(segs, NamedBlock(t))
    case None => segs
    case Some(j) =>
      assert segs == segs[..j] + [segs[j]] + segs[j + 1..];
      segs[..j] + segs[j + 1..]
  }

  /** Only a block named `t` can go, and at most one segment goes. */
  lemma RemoveTopBlockKeeps(segs: seq<Segment>, t: string, x: Segment)
    ensures |segs| - 1 <= |RemoveTopBlock(segs, t)| <= |segs|
    ensures multiset(RemoveTopBlock(segs, t))[x] <= multiset(segs)[x]
    ensures !IsNamedBlock(x, t) ==> multiset(RemoveTopBlock(segs, t))[x] == multiset(segs)[x]
  {
    match FirstMatch(segs, NamedBlock(t))
    case None =>
    case Some(j) =>
      assert Matches(segs[j], NamedBlock(t));
      assert !IsNamedBlock(x, t) ==> x != segs[j];
  }

  /** The corrected loop over the top transforms. */
  function RemoveTopBlocks(segs: seq<Segment>, tops: seq<string>): (r: seq<Segment>)
    ensures |r| <= |segs|
    decreases |tops|
  {
    if tops == [] then segs else RemoveTopBlocks(RemoveTopBlock(segs, tops[0]), tops[1..])
  }

  /** The corrected loop removes at most one segment per top transform,
      each one a block named by one of them; no other segment is removed. */
  lemma {:induction false} RemoveTopBlocksKeeps(segs: seq<Segment>, tops: seq<string>, x: Segment)
    ensures |segs| - |tops| <= |RemoveTopBlocks(segs, tops)| <= |segs|
    ensures multiset(RemoveTopBlocks(segs, tops))[x] <= multiset(segs)[x]
    ensures (forall i :: 0 <= i < |tops| ==> !IsNamedBlock(x, tops[i])) ==>
      multiset(RemoveTopBlocks(segs, tops))[x] == multiset(segs)[x]
    decreases |tops|
  {
    if tops != [] {
      var next := RemoveTopBlock(segs, tops[0]);
      RemoveTopBlockKeeps(segs, tops[0], x);
      RemoveTopBlocksKeeps(next, tops[1..], x);
      assert forall i :: 0 <= i < |tops[1..]| ==> tops[1..][i] == tops[i + 1];
    }
  }

  lemma RemoveTopBlockAbsent(segs: seq<Segment>, t: string)
    requires forall k :: 0 <= k < |segs| ==> !IsNamedBlock(segs[k], t)
    ensures RemoveTopBlock(segs, t) == segs
  {
    assert forall k :: 0 <= k < |segs| ==> !Matches(segs[k], NamedBlock(t));
  }

  /** No top transform present: the corrected loop changes nothing. */
  lemma {:induction false} RemoveTopBlocksAbsent(segs: seq<Segment>, tops: seq<string>)
    requires forall i, k :: 0 <= i < |tops| && 0 <= k < |segs| ==> !IsNamedBlock(segs[k], tops[i])
    ensures RemoveTopBlocks(segs, tops) == segs
    decreases |tops|
  {
    if tops != [] {
      RemoveTopBlockAbsent(segs, tops[0]);
      RemoveTopBlocksAbsent(segs, tops[1..]);
    }
  }

  /** The corrected removal of the example above keeps the limb block. */
  lemma RemoveTopBlockSparesEarlierBlocks()
    ensures var hip := ModelBlock("1", "hip", "LimbNode", [], "");
      var geo := ModelBlock("2", "Geo", "Null", [], "");
      RemoveTopBlock([hip, geo], "Geo") == [hip]
  {
    var hip := ModelBlock("1", "hip", "LimbNode", [], "");
    var geo := ModelBlock("2", "Geo", "Null", [], "");
    assert IsWord("Null") by {
      assert "Null"[0] == 'N' && "Null"[1] == 'u' && "Null"[2] == 'l' && "Null"[3] == 'l';
    }
    FirstMatchAt([hip, geo], NamedBlock("Geo"), 0, 1);
  }

  // ---------------------------------------------------------------------
  // Namespace and the whole edit

  /** `contents.replace(namespace + ':', '')`. */
  function StripNamespace(text: string, namespace: string): (r: string)
    ensures |r| <= |text|
  {
    ReplaceAll(text, namespace + ":", "")
  }

  /** Every occurrence of the prefix is removed, left to right and without
      overlap: the result is the text between occurrences, and text without
      an occurrence is unchanged. */
  lemma StripNamespaceEffect(text: string, namespace: string)
    ensures StripNamespace(text, namespace) == Join(Split(text, namespace + ":"), "")
    ensures Join(Split(text, namespace + ":"), namespace + ":") == text
    ensures !Occurs(text, namespace + ":") ==> StripNamespace(text, namespace) == text
  {
    ReplaceIsJoinSplit(text, namespace + ":", "");
    SplitJoinRoundTrip(text, namespace + ":");
    if !Occurs(text, namespace + ":") {
      ReplaceAbsent(text, namespace + ":", "");
    }
  }

  /** `_editFBX` on the exported file: the Show fix, re-parenting of the
      skeleton root and then the model root, the move to the origin when
      asked, the removal of the top transforms, and the namespace last. */
  function EditSpec(segs: seq<Segment>, item: PublishItem, orient: string): (r: Result<string, EditError>)
    ensures !item.moveToOrigin ==> r.Success?
    ensures r.Failure? ==> r.error == NoRootBlock(RootText(item.skeletonRoot))
  {
    var shown := FixLimbs(segs);
    var linked := Reparent(Reparent(shown, RootText(item.skeletonRoot)), RootText(item.modelRoot));
    var moved := if item.moveToOrigin then MoveToOrigin(linked, RootText(item.skeletonRoot), orient) else Success(linked);
    match moved
    case Failure(e) => Failure(e)
    case Success(m) => Success(StripNamespace(Render(RemoveTops(m, item.topTransforms)), item.namespace))
  }

  /** `_editFBX` with the corrected top-transform pass, which removes only
      the blocks named after the top transforms. It fails exactly when the
      edit as written does, and with the same error. */
  function EditSpecCorrected(segs: seq<Segment>, item: PublishItem, orient: string): (r: Result<string, EditError>)
    ensures r.Failure? <==> EditSpec(segs, item, orient).Failure?
    ensures r.Failure? ==> r == EditSpec(segs, item, orient)
  {
    var shown := FixLimbs(segs);
    var linked := Reparent(Reparent(shown, RootText(item.skeletonRoot)), RootText(item.modelRoot));
    var moved := if item.moveToOrigin then MoveToOrigin(linked, RootText(item.skeletonRoot), orient) else Success(linked);
    match moved
    case Failure(e) => Failure(e)
    case Success(m) => Success(StripNamespace(Render(RemoveTopBlocks(m, item.topTransforms)), item.namespace))
  }

  /** A file none of the passes applies to is written back unchanged. */
  lemma EditSpecNoEdit(segs: seq<Segment>, item: PublishItem, orient: string)
    requires forall i :: 0 <= i < |segs| ==> !IsLimb(segs[i])
    requires forall i :: 0 <= i < |segs| ==>
      !LinksFrom(segs[i], RootText(item.skeletonRoot)) && !LinksFrom(segs[i], RootText(item.modelRoot))
    requires !item.moveToOrigin
    requires forall i, k :: 0 <= i < |item.topTransforms| && 0 <= k < |segs| ==> !IsNamedBlock(segs[k], item.topTransforms[i])
    requires !Occurs(Render(segs), item.namespace + ":")
    ensures EditSpec(segs, item, orient) == Success(Render(segs))
  {
    FixLimbsNoLimb(segs);
    var c := Canon(segs);
    CanonKeeps(segs);
    ReparentNoMatch(c, RootText(item.skeletonRoot));
    ReparentNoMatch(c, RootText(item.modelRoot));
    RemoveTopsAbsent(c, item.topTransforms);
    ReplaceAbsent(Render(segs), item.namespace + ":", "");
  }

  /** The edit fails exactly when the move to the origin finds no root
      block. */
  lemma EditSpecFails(segs: seq<Segment>, item: PublishItem, orient: string)
    ensures var linked := Reparent(Reparent(FixLimbs(segs), RootText(item.skeletonRoot)), RootText(item.modelRoot));
      EditSpec(segs, item, orient).Failure? <==>
        item.moveToOrigin && forall i :: 0 <= i < |linked| ==> !IsRootBlock(linked[i], RootText(item.skeletonRoot))
  {
  }
}
