/** Sequence operations the publisher relies on: Python's `str.replace`
    (generalised to any element type, so that it also serves for the
    block-level model of the FBX file), its split/join reference
    characterisation, first-match search, filtering and concatenation. */
module Seqs {
  import opened Results

  predicate StartsWith<T(==)>(s: seq<T>, p: seq<T>) {
    |p| <= |s| && s[..|p|] == p
  }

  predicate EndsWith<T(==)>(s: seq<T>, p: seq<T>) {
    |p| <= |s| && s[|s| - |p|..] == p
  }

  /** `p` occurs in `s` starting at index `k`. */
  predicate OccursAt<T(==)>(s: seq<T>, p: seq<T>, k: nat) {
    k + |p| <= |s| && s[k..k + |p|] == p
  }

  ghost predicate Occurs<T>(s: seq<T>, p: seq<T>) {
    exists k: nat :: OccursAt(s, p, k)
  }

  lemma OccursAtTail<T>(s: seq<T>, p: seq<T>)
    requires |s| > 0
    ensures forall k: nat :: OccursAt(s, p, k + 1) <==> OccursAt(s[1..], p, k)
    ensures forall j: nat :: j >= 1 ==> (OccursAt(s, p, j) <==> OccursAt(s[1..], p, j - 1))
  {
    forall k: nat ensures OccursAt(s, p, k + 1) <==> OccursAt(s[1..], p, k) {
      if k + 1 + |p| <= |s| {
        SliceOfTail(s, k, |p|);
      }
    }
  }

  lemma SliceOfTail<T>(s: seq<T>, k: nat, n: nat)
    requires |s| > 0 && k + 1 + n <= |s|
    ensures s[k + 1..k + 1 + n] == s[1..][k..k + n]
  {
    var a, b := s[k + 1..k + 1 + n], s[1..][k..k + n];
    forall i | 0 <= i < n ensures a[i] == b[i] {
      assert a[i] == s[k + 1 + i];
    }
  }

  lemma OccursAtPrefix<T>(s: seq<T>, p: seq<T>, n: nat)
    requires n <= |s|
    ensures forall k: nat :: OccursAt(s[..n], p, k) ==> OccursAt(s, p, k)
  {
    forall k: nat | OccursAt(s[..n], p, k) ensures OccursAt(s, p, k) {
      assert s[..n][k..k + |p|] == s[k..k + |p|];
    }
  }

  lemma OccursAtSuffix<T>(s: seq<T>, p: seq<T>, n: nat)
    requires n <= |s|
    ensures forall k: nat :: OccursAt(s[n..], p, k) <==> OccursAt(s, p, n + k)
  {
    forall k: nat ensures OccursAt(s[n..], p, k) <==> OccursAt(s, p, n + k) {
      if n + k + |p| <= |s| {
        assert s[n..][k..k + |p|] == s[n + k..n + k + |p|];
      }
    }
  }

  lemma SliceConcat<T>(s: seq<T>, i: nat, j: nat, k: nat)
    requires i <= j <= k <= |s|
    ensures s[i..j] + s[j..k] == s[i..k]
  {
  }

  /** The elements of an occurrence are those of the pattern. */
  lemma OccursAtElements<T>(s: seq<T>, p: seq<T>, k: nat)
    ensures OccursAt(s, p, k) ==> forall i :: 0 <= i < |p| ==> s[k + i] == p[i]
  {
    if OccursAt(s, p, k) {
      forall i | 0 <= i < |p| ensures s[k + i] == p[i] {
        assert s[k..k + |p|][i] == s[k + i];
      }
    }
  }

  /** The index of the leftmost occurrence of `p` in `s`, if any. */
  function FindFirst<T(==)>(s: seq<T>, p: seq<T>): (r: Option<nat>)
    ensures r.Some? ==> OccursAt(s, p, r.value)
    ensures r.Some? ==> forall j: nat :: j < r.value ==> !OccursAt(s, p, j)
    ensures r.None? <==> !Occurs(s, p)
    decreases |s|
  {
    if |s| < |p| then None
    else if s[..|p|] == p then assert OccursAt(s, p, 0); Some(0)
    else
      OccursAtTail(s, p);
      match FindFirst(s[1..], p)
      case None => None
      case Some(k) => Some(k + 1)
  }

  /** Python's `s.replace(p, r)`: every non-overlapping occurrence of `p`,
      scanning left to right, is replaced by `r`; an empty `p` inserts `r`
      before every element and at the end. */
  function ReplaceAll<T(==)>(s: seq<T>, p: seq<T>, r: seq<T>): (out: seq<T>)
    ensures p != [] && |r| <= |p| ==> |out| <= |s|
    ensures p != [] && |r| == |p| ==> |out| == |s|
    decreases |s|
  {
    if p == [] then
      if s == [] then r else r + [s[0]] + ReplaceAll(s[1..], p, r)
    else if |s| < |p| then s
    else if s[..|p|] == p then r + ReplaceAll(s[|p|..], p, r)
    else [s[0]] + ReplaceAll(s[1..], p, r)
  }

  /** Text without an occurrence of the pattern is left unchanged. */
  lemma {:induction false} ReplaceAbsent<T>(s: seq<T>, p: seq<T>, r: seq<T>)
    requires p != [] && !Occurs(s, p)
    ensures ReplaceAll(s, p, r) == s
    decreases |s|
  {
    if |s| >= |p| {
      assert !OccursAt(s, p, 0);
      OccursAtTail(s, p);
      ReplaceAbsent(s[1..], p, r);
      assert s == [s[0]] + s[1..];
    }
  }

  /** Replacing `p` by an `r` of the same length that `g` cannot tell
      from it leaves the image of every element under `g` as it was. */
  lemma {:induction false} ReplaceKeepsImage<T, U>(s: seq<T>, p: seq<T>, r: seq<T>, g: T -> U)
    requires p != [] && |r| == |p| && forall k :: 0 <= k < |p| ==> g(r[k]) == g(p[k])
    ensures |ReplaceAll(s, p, r)| == |s|
    ensures forall k :: 0 <= k < |s| ==> g(ReplaceAll(s, p, r)[k]) == g(s[k])
    decreases |s|
  {
    if |s| >= |p| {
      if s[..|p|] == p {
        var t := ReplaceAll(s[|p|..], p, r);
        ReplaceKeepsImage(s[|p|..], p, r, g);
        assert ReplaceAll(s, p, r) == r + t;
        forall k | 0 <= k < |s| ensures g((r + t)[k]) == g(s[k]) {
          if k < |p| {
            assert s[..|p|][k] == s[k];
          } else {
            assert s[|p|..][k - |p|] == s[k];
          }
        }
      } else {
        var t := ReplaceAll(s[1..], p, r);
        ReplaceKeepsImage(s[1..], p, r, g);
        assert ReplaceAll(s, p, r) == [s[0]] + t;
        forall k | 0 <= k < |s| ensures g(([s[0]] + t)[k]) == g(s[k]) {
          if k > 0 {
            assert s[1..][k - 1] == s[k];
          }
        }
      }
    }
  }

  /** Replacing the empty pattern by the empty sequence is the identity. */
  lemma {:induction false} ReplaceEmptyByEmpty<T>(s: seq<T>)
    ensures ReplaceAll(s, [], []) == s
    decreases |s|
  {
    if s != [] {
      ReplaceEmptyByEmpty(s[1..]);
      assert s == [s[0]] + s[1..];
    }
  }

  /** Replacing a pattern by itself is the identity. */
  lemma {:induction false} ReplaceSelf<T>(s: seq<T>, p: seq<T>)
    ensures ReplaceAll(s, p, p) == s
    decreases |s|
  {
    if p == [] {
      ReplaceEmptyByEmpty(s);
    } else if |s| >= |p| {
      if s[..|p|] == p {
        ReplaceSelf(s[|p|..], p);
        assert s == s[..|p|] + s[|p|..];
      } else {
        ReplaceSelf(s[1..], p);
        assert s == [s[0]] + s[1..];
      }
    }
  }

  /** The three ways one step of the replacement goes. */
  lemma ReplaceShort<T>(s: seq<T>, p: seq<T>, r: seq<T>)
    requires p != [] && |s| < |p|
    ensures ReplaceAll(s, p, r) == s
  {
  }

  lemma ReplaceMiss<T>(s: seq<T>, p: seq<T>, r: seq<T>)
    requires p != [] && |p| <= |s| && s[..|p|] != p
    ensures ReplaceAll(s, p, r) == [s[0]] + ReplaceAll(s[1..], p, r)
  {
  }

  /** Replacement of an occurrence at the start. */
  lemma ReplaceAtStart<T>(t: seq<T>, p: seq<T>, r: seq<T>)
    requires p != [] && |p| <= |t| && t[..|p|] == p
    ensures ReplaceAll(t, p, r) == r + ReplaceAll(t[|p|..], p, r)
  {
  }

  /** No occurrence of `p` starts before index `k`. */
  predicate NoneBefore<T(==)>(s: seq<T>, p: seq<T>, k: nat) {
    forall j: nat :: j < k ==> !OccursAt(s, p, j)
  }

  lemma NoneBeforeTail<T>(s: seq<T>, p: seq<T>, k: nat)
    requires 1 <= k <= |s| && NoneBefore(s, p, k)
    ensures !OccursAt(s, p, 0) && NoneBefore(s[1..], p, k - 1)
  {
    assert !OccursAt(s, p, 0);
    forall j: nat | j < k - 1 ensures !OccursAt(s[1..], p, j) {
      assert !OccursAt(s, p, j + 1);
      if j + 1 + |p| <= |s| {
        SliceOfTail(s, j, |p|);
      }
    }
  }

  /** The prefix before the first occurrence is copied unchanged. */
  lemma {:induction false} ReplaceSkip<T>(s: seq<T>, p: seq<T>, r: seq<T>, k: nat)
    requires p != [] && k <= |s| && NoneBefore(s, p, k)
    ensures ReplaceAll(s, p, r) == s[..k] + ReplaceAll(s[k..], p, r)
    decreases k
  {
    if k == 0 {
      assert s[..0] + s[0..] == s;
    } else if |s| < |p| {
      ReplaceShort(s, p, r);
      ReplaceShort(s[k..], p, r);
      assert s[..k] + s[k..] == s;
    } else {
      NoneBeforeTail(s, p, k);
      ReplaceSkip(s[1..], p, r, k - 1);
      ReplaceSkipStep(s, p, r, k);
    }
  }

  /** One step of `ReplaceSkip`: a miss at index 0, then the tail. */
  lemma ReplaceSkipStep<T>(s: seq<T>, p: seq<T>, r: seq<T>, k: nat)
    requires p != [] && 1 <= k <= |s| && |p| <= |s| && !OccursAt(s, p, 0)
    requires ReplaceAll(s[1..], p, r) == s[1..][..k - 1] + ReplaceAll(s[1..][k - 1..], p, r)
    ensures ReplaceAll(s, p, r) == s[..k] + ReplaceAll(s[k..], p, r)
  {
    assert s[..|p|] == s[0..|p|];
    ReplaceMiss(s, p, r);
    assert s[1..][k - 1..] == s[k..];
    assert s[..k] == [s[0]] + s[1..][..k - 1];
    Associate([s[0]], s[1..][..k - 1], ReplaceAll(s[k..], p, r));
  }

  /** Replacement at the leftmost occurrence, then on the rest. */
  lemma ReplaceAtFirst<T>(s: seq<T>, p: seq<T>, r: seq<T>, k: nat)
    requires p != [] && OccursAt(s, p, k) && NoneBefore(s, p, k)
    ensures k + |p| <= |s|
    ensures ReplaceAll(s, p, r) == s[..k] + r + ReplaceAll(s[k + |p|..], p, r)
  {
    ReplaceSkip(s, p, r, k);
    ReplaceAtCut(s, p, r, k);
    Associate(s[..k], r, ReplaceAll(s[k + |p|..], p, r));
  }

  /** Replacement at the leftmost occurrence, for the pattern given as the
      slice of `s` from `k` to `j` inclusive. */
  lemma ReplaceFirstSpan<T>(s: seq<T>, k: nat, j: nat, r: seq<T>)
    requires k <= j < |s| && NoneBefore(s, s[k..j + 1], k)
    ensures ReplaceAll(s, s[k..j + 1], r) == s[..k] + r + ReplaceAll(s[j + 1..], s[k..j + 1], r)
  {
    var p := s[k..j + 1];
    assert OccursAt(s, p, k);
    assert |p| == j + 1 - k;
    ReplaceAtFirst(s, p, r, k);
    assert s[k + |p|..] == s[j + 1..];
  }

  /** Replacement of an occurrence at index `k` of the suffix from `k`. */
  lemma ReplaceAtCut<T>(s: seq<T>, p: seq<T>, r: seq<T>, k: nat)
    requires p != [] && OccursAt(s, p, k)
    ensures ReplaceAll(s[k..], p, r) == r + ReplaceAll(s[k + |p|..], p, r)
  {
    var t := s[k..];
    assert t[..|p|] == s[k..k + |p|];
    assert t[|p|..] == s[k + |p|..];
    ReplaceAtStart(t, p, r);
  }

  lemma Associate<T>(a: seq<T>, b: seq<T>, c: seq<T>)
    ensures a + (b + c) == a + b + c
  {
  }

  /** Concatenation with a separator between consecutive pieces. */
  function Join<T>(pieces: seq<seq<T>>, sep: seq<T>): seq<T>
    requires |pieces| > 0
  {
    if |pieces| == 1 then pieces[0] else pieces[0] + sep + Join(pieces[1..], sep)
  }

  lemma {:induction false} JoinLast<T>(pieces: seq<seq<T>>, sep: seq<T>)
    requires |pieces| >= 2
    ensures Join(pieces, sep) == Join(pieces[..|pieces| - 1], sep) + sep + pieces[|pieces| - 1]
    decreases |pieces|
  {
    if |pieces| > 2 {
      JoinLast(pieces[1..], sep);
      assert pieces[1..][..|pieces| - 2] == pieces[..|pieces| - 1][1..];
    }
  }

  /** An element occurs as a one-element pattern exactly when it is in `s`. */
  lemma OccursSingleton<T>(s: seq<T>, x: T)
    ensures Occurs(s, [x]) <==> x in s
  {
    if x in s {
      var k :| 0 <= k < |s| && s[k] == x;
      assert OccursAt(s, [x], k);
    }
    if Occurs(s, [x]) {
      var k: nat :| OccursAt(s, [x], k);
      assert s[k] == s[k..k + 1][0];
    }
  }

  /** Replacing a whole non-empty sequence by `r` gives `r`. */
  lemma ReplaceWhole<T>(p: seq<T>, r: seq<T>)
    requires p != []
    ensures ReplaceAll(p, p, r) == r
  {
    assert p[..|p|] == p;
    assert ReplaceAll(p[|p|..], p, r) == [];
  }

  /** Python's `s.split(p)`: the pieces between the non-overlapping
      occurrences of `p`, found left to right. */
  function Split<T(==)>(s: seq<T>, p: seq<T>): (pieces: seq<seq<T>>)
    requires p != []
    ensures |pieces| > 0
    ensures forall i :: 0 <= i < |pieces| ==> !Occurs(pieces[i], p)
    decreases |s|
  {
    match FindFirst(s, p)
    case None => [s]
    case Some(k) =>
      OccursAtPrefix(s, p, k);
      [s[..k]] + Split(s[k + |p|..], p)
  }

  /** Reference characterisation of replace: split at the pattern, join with
      the replacement. */
  lemma {:induction false} ReplaceIsJoinSplit<T>(s: seq<T>, p: seq<T>, r: seq<T>)
    requires p != []
    ensures ReplaceAll(s, p, r) == Join(Split(s, p), r)
    decreases |s|
  {
    match FindFirst(s, p)
    case None =>
      ReplaceAbsent(s, p, r);
    case Some(k) =>
      assert NoneBefore(s, p, k);
      ReplaceAtFirst(s, p, r, k);
      ReplaceIsJoinSplit(s[k + |p|..], p, r);
      var pieces := Split(s, p);
      assert pieces == [s[..k]] + Split(s[k + |p|..], p);
      assert pieces[1..] == Split(s[k + |p|..], p);
  }

  /** Joining the pieces with the pattern gives back the text. */
  lemma SplitJoinRoundTrip<T>(s: seq<T>, p: seq<T>)
    requires p != []
    ensures Join(Split(s, p), p) == s
  {
    ReplaceIsJoinSplit(s, p, p);
    ReplaceSelf(s, p);
  }

  /** Replacing one element by another acts element-wise. */
  lemma {:induction false} ReplaceElement<T>(s: seq<T>, a: T, b: T)
    ensures |ReplaceAll(s, [a], [b])| == |s|
    ensures forall i :: 0 <= i < |s| ==> ReplaceAll(s, [a], [b])[i] == if s[i] == a then b else s[i]
    decreases |s|
  {
    if s != [] {
      ReplaceElement(s[1..], a, b);
      assert s[..1] == [a] <==> s[0] == a;
    }
  }

  /** The index of the first element satisfying `f`, if any. */
  function FirstWhere<T>(s: seq<T>, f: T -> bool): (r: Option<nat>)
    ensures r.Some? ==> r.value < |s| && f(s[r.value])
    ensures r.Some? ==> forall j :: 0 <= j < r.value ==> !f(s[j])
    ensures r.None? ==> forall j :: 0 <= j < |s| ==> !f(s[j])
    decreases |s|
  {
    if s == [] then None
    else if f(s[0]) then Some(0)
    else match FirstWhere(s[1..], f)
      case None => None
      case Some(k) => Some(k + 1)
  }

  /** The elements of `s` satisfying `f`, in order (a filtering loop). */
  function Keep<T(==)>(s: seq<T>, f: T -> bool): (r: seq<T>)
    ensures |r| <= |s|
    ensures forall i :: 0 <= i < |r| ==> r[i] in s && f(r[i])
    ensures forall i :: 0 <= i < |s| && f(s[i]) ==> s[i] in r
    decreases |s|
  {
    if s == [] then []
    else if f(s[0]) then [s[0]] + Keep(s[1..], f)
    else Keep(s[1..], f)
  }

  /** Filtering two sequences that agree, element by element, on `f` and
      on their image under `g` gives results that agree under `g`. */
  lemma {:induction false} KeepSameImage<T, U>(a: seq<T>, b: seq<T>, f: T -> bool, g: T -> U)
    requires |a| == |b|
    requires forall k :: 0 <= k < |a| ==> g(a[k]) == g(b[k]) && f(a[k]) == f(b[k])
    ensures |Keep(a, f)| == |Keep(b, f)|
    ensures forall k :: 0 <= k < |Keep(a, f)| ==> g(Keep(a, f)[k]) == g(Keep(b, f)[k])
    decreases |a|
  {
    if a != [] {
      var a', b' := a[1..], b[1..];
      assert forall k :: 0 <= k < |a'| ==> a'[k] == a[k + 1] && b'[k] == b[k + 1];
      KeepSameImage(a', b', f, g);
      var ka, kb := Keep(a', f), Keep(b', f);
      assert f(a[0]) == f(b[0]) && g(a[0]) == g(b[0]);
      if f(a[0]) {
        assert Keep(a, f) == [a[0]] + ka && Keep(b, f) == [b[0]] + kb;
        ConsSameImage(a[0], b[0], ka, kb, g);
      } else {
        assert Keep(a, f) == ka && Keep(b, f) == kb;
      }
    }
  }

  /** Prepending elements with the same image keeps two sequences image-equal. */
  lemma ConsSameImage<T, U>(x: T, y: T, xs: seq<T>, ys: seq<T>, g: T -> U)
    requires g(x) == g(y) && |xs| == |ys|
    requires forall k :: 0 <= k < |xs| ==> g(xs[k]) == g(ys[k])
    ensures forall k :: 0 <= k < |xs| + 1 ==> g(([x] + xs)[k]) == g(([y] + ys)[k])
  {
    forall k | 0 <= k < |xs| + 1 ensures g(([x] + xs)[k]) == g(([y] + ys)[k]) {
      if k > 0 {
        assert ([x] + xs)[k] == xs[k - 1] && ([y] + ys)[k] == ys[k - 1];
      }
    }
  }

  /** A prefix one element longer. */
  lemma TakeOneMore<T>(s: seq<T>, i: nat)
    requires i < |s|
    ensures s[..i + 1] == s[..i] + [s[i]]
  {
  }

  /** Filtering one more element at the end. */
  lemma {:induction false} KeepAppend<T>(s: seq<T>, x: T, f: T -> bool)
    ensures Keep(s + [x], f) == Keep(s, f) + (if f(x) then [x] else [])
    decreases |s|
  {
    if s == [] {
      assert [] + [x] == [x];
      assert [x][1..] == [];
    } else {
      assert (s + [x])[1..] == s[1..] + [x];
      KeepAppend(s[1..], x, f);
    }
  }

  /** The first kept element is the first element satisfying `f`. */
  lemma {:induction false} KeepHead<T>(s: seq<T>, f: T -> bool)
    ensures FirstWhere(s, f).None? <==> Keep(s, f) == []
    ensures FirstWhere(s, f).Some? ==> Keep(s, f)[0] == s[FirstWhere(s, f).value]
    decreases |s|
  {
    if s != [] && !f(s[0]) {
      KeepHead(s[1..], f);
    }
  }

  /** Filtering keeps exactly the multiplicity of every kept element. */
  lemma {:induction false} KeepMultiplicity<T>(s: seq<T>, f: T -> bool, x: T)
    ensures multiset(Keep(s, f))[x] == if f(x) then multiset(s)[x] else 0
    decreases |s|
  {
    if s != [] {
      KeepMultiplicity(s[1..], f, x);
      assert s == [s[0]] + s[1..];
    }
  }

  /** `a` is `b` with some elements left out. */
  predicate Subsequence<T(==)>(a: seq<T>, b: seq<T>)
    decreases |b|
  {
    a == [] || (b != [] && ((a[0] == b[0] && Subsequence(a[1..], b[1..])) || Subsequence(a, b[1..])))
  }

  lemma {:induction false} KeepIsSubsequence<T>(s: seq<T>, f: T -> bool)
    ensures Subsequence(Keep(s, f), s)
    decreases |s|
  {
    if s != [] {
      KeepIsSubsequence(s[1..], f);
      if f(s[0]) {
        assert Keep(s, f)[1..] == Keep(s[1..], f);
      }
    }
  }

  lemma {:induction false} SubsequenceTransitive<T>(a: seq<T>, b: seq<T>, c: seq<T>)
    requires Subsequence(a, b) && Subsequence(b, c)
    ensures Subsequence(a, c)
    decreases |c|
  {
    if a != [] {
      assert b != [] && c != [];
      if b[0] == c[0] && Subsequence(b[1..], c[1..]) {
        if a[0] == b[0] && Subsequence(a[1..], b[1..]) {
          SubsequenceTransitive(a[1..], b[1..], c[1..]);
        } else {
          SubsequenceTransitive(a, b[1..], c[1..]);
        }
      } else {
        SubsequenceTransitive(a, b, c[1..]);
      }
    }
  }

  function Flatten<T>(ss: seq<seq<T>>): seq<T>
    decreases |ss|
  {
    if ss == [] then [] else ss[0] + Flatten(ss[1..])
  }

  lemma FlattenCons<T>(x: seq<T>, xs: seq<seq<T>>)
    ensures Flatten([x] + xs) == x + Flatten(xs)
  {
    assert ([x] + xs)[1..] == xs;
  }

  lemma {:induction false} FlattenAppend<T>(xs: seq<seq<T>>, ys: seq<seq<T>>)
    ensures Flatten(xs + ys) == Flatten(xs) + Flatten(ys)
    decreases |xs|
  {
    if xs != [] {
      assert (xs + ys)[1..] == xs[1..] + ys;
      FlattenAppend(xs[1..], ys);
    } else {
      assert xs + ys == ys;
    }
  }
}
