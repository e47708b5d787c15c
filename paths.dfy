/** The parts of Python's `os.path` and `glob` the publisher calls, with
    POSIX semantics: `dirname`, two-argument `join`, and the `glob` of the `*.jpg` files of
    a directory. A directory listing is a parameter (the host's
    file system). */
module Paths {
  import opened Results
  import opened Seqs

  predicate AllSlashes(s: string) {
    forall k :: 0 <= k < |s| ==> s[k] == '/'
  }

  /** One past the index of the last '/', or 0 (`p.rfind('/') + 1`). */
  function SlashEnd(p: string): (i: nat)
    ensures i <= |p|
    ensures i > 0 ==> p[i - 1] == '/'
    ensures forall k :: i <= k < |p| ==> p[k] != '/'
    decreases |p|
  {
    if p == [] then 0
    else if p[|p| - 1] == '/' then |p|
    else SlashEnd(p[..|p| - 1])
  }

  /** `s.rstrip('/')`. */
  function StripTrailingSlashes(s: string): (r: string)
    ensures |r| <= |s| && s[..|r|] == r
    ensures AllSlashes(s[|r|..])
    ensures r == [] || r[|r| - 1] != '/'
    decreases |s|
  {
    if s != [] && s[|s| - 1] == '/' then
      var r := StripTrailingSlashes(s[..|s| - 1]);
      assert s[..|s| - 1][..|r|] == s[..|r|];
      assert s[|r|..] == s[..|s| - 1][|r|..] + ['/'];
      r
    else s
  }

  /** `posixpath.dirname(p)`: everything before the last '/', without the
      trailing slashes unless the head consists of slashes only. */
  function DirName(p: string): (r: string)
    ensures |r| <= |p| && p[..|r|] == r
    ensures r == "" <==> forall k :: 0 <= k < |p| ==> p[k] != '/'
    ensures forall k :: |r| <= k < |p| && p[k] != '/' ==> forall m :: k < m < |p| ==> p[m] != '/'
    ensures r != "" && !AllSlashes(r) ==> r[|r| - 1] != '/' && |r| < |p| && p[|r|] == '/'
    ensures r != "" && AllSlashes(r) ==> |r| == |p| || p[|r|] != '/'
  {
    var i := SlashEnd(p);
    var head := p[..i];
    if head != "" && !AllSlashes(head) then
      var r := StripTrailingSlashes(head);
      assert head[..|r|] == p[..|r|];
      assert forall k :: |r| <= k < i ==> p[k] == '/' by {
        forall k | |r| <= k < i ensures p[k] == '/' {
          assert head[|r|..][k - |r|] == p[k];
        }
      }
      r
    else
      head
  }

  /** `posixpath.join(a, b)`. */
  function JoinPath(a: string, b: string): (r: string)
    ensures EndsWith(r, b)
    ensures !StartsWith(b, "/") ==> StartsWith(r, a)
    ensures StartsWith(b, "/") ==> r == b
    ensures !StartsWith(b, "/") ==> r == a + b || r == a + "/" + b
    ensures !StartsWith(b, "/") ==> (r == a + "/" + b <==> a != "" && !EndsWith(a, "/"))
  {
    if StartsWith(b, "/") then b
    else if a == "" || EndsWith(a, "/") then a + b
    else a + "/" + b
  }

  /** `fnmatch(name, '*.jpg')` after `glob` has dropped hidden names. */
  predicate IsJpgName(name: string) {
    name != "" && name[0] != '.' && EndsWith(name, ".jpg")
  }

  /** The directory `glob` lists for the pattern made of `dir`, a slash and
      `*.jpg`: the head of `os.path.split` of that pattern. */
  function JpgGlobDirectory(dir: string): string {
    DirName(dir + "/*.jpg")
  }

  /** `glob` of the `*.jpg` files of `dir`: the matching names of the listing, in
      listing order, each joined to the listed directory. */
  function GlobJpg(dir: string, listing: string -> seq<string>): (r: seq<string>)
    ensures var d := JpgGlobDirectory(dir);
      && |r| <= |listing(d)|
      && (forall i :: 0 <= i < |r| ==> exists n :: n in listing(d) && IsJpgName(n) && r[i] == JoinPath(d, n))
      && (forall n :: n in listing(d) && IsJpgName(n) ==> JoinPath(d, n) in r)
  {
    var d := JpgGlobDirectory(dir);
    var names := Keep(listing(d), IsJpgName);
    var r := seq(|names|, i requires 0 <= i < |names| => JoinPath(d, names[i]));
    assert forall i :: 0 <= i < |r| ==> names[i] in listing(d) && IsJpgName(names[i]) && r[i] == JoinPath(d, names[i]);
    assert forall n :: n in listing(d) && IsJpgName(n) ==> JoinPath(d, n) in r by {
      forall n | n in listing(d) && IsJpgName(n) ensures JoinPath(d, n) in r {
        var k :| 0 <= k < |names| && names[k] == n;
        assert r[k] == JoinPath(d, n);
      }
    }
    r
  }
}
