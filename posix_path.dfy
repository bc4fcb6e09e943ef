/**
 * The pieces of Python's `posixpath` module that `generate_output_path` uses
 * to build its result: `rfind`, `basename`, `dirname`, `splitext` and `join`,
 * all on '/'-separated paths.
 */
module PosixPath {

  /** `s.rfind(c)`: the index of the last occurrence of c in s, or -1. */
  function RFind(s: string, c: char): (i: int)
    ensures -1 <= i < |s|
    ensures i >= 0 ==> s[i] == c
    ensures forall k :: i < k < |s| ==> s[k] != c
    decreases |s|
  {
    if |s| == 0 then -1
    else if s[|s| - 1] == c then |s| - 1
    else RFind(s[..|s| - 1], c)
  }

  predicate AllSlashes(s: string)
  {
    forall k :: 0 <= k < |s| ==> s[k] == '/'
  }

  /** `s.rstrip('/')`. */
  function RStripSlashes(s: string): (r: string)
    ensures |r| <= |s| && r == s[..|r|]
    ensures AllSlashes(s[|r|..])
    ensures |r| == 0 || r[|r| - 1] != '/'
    decreases |s|
  {
    if |s| > 0 && s[|s| - 1] == '/' then
      var r := RStripSlashes(s[..|s| - 1]);
      assert s[|r|..] == s[..|s| - 1][|r|..] + ['/'];
      r
    else
      s
  }

  /** `posixpath.basename(p)`: everything after the last '/'. */
  function Basename(p: string): (r: string)
    ensures |r| <= |p| && r == p[|p| - |r|..]
  {
    p[RFind(p, '/') + 1..]
  }

  /**
   * `posixpath.dirname(p)`: everything up to and including the last '/',
   * with trailing slashes removed unless it consists of slashes only.
   */
  function Dirname(p: string): (r: string)
    ensures |r| <= |p| && r == p[..|r|]
  {
    var head := p[..RFind(p, '/') + 1];
    if |head| > 0 && !AllSlashes(head) then RStripSlashes(head) else head
  }

  /**
   * `posixpath.splitext(p)`: split off the extension, which runs from the last
   * '.' of the final component to the end, unless that component is only
   * dots up to that '.' (a leading-dot name such as ".bashrc" has no
   * extension).
   */
  function SplitExt(p: string): (r: (string, string))
    ensures r.0 + r.1 == p
    ensures r.1 == [] || r.1[0] == '.'
  {
    var sep := RFind(p, '/');
    var dot := RFind(p, '.');
    if dot > sep && exists k :: sep + 1 <= k < dot && p[k] != '.' then
      (p[..dot], p[dot..])
    else
      (p, [])
  }

  /**
   * `posixpath.join(a, b)` for two components: an absolute b replaces a;
   * otherwise b is appended, with a '/' in between unless a is empty or
   * already ends in one.
   */
  function Join(a: string, b: string): (r: string)
    ensures |b| <= |r| && r[|r| - |b|..] == b
    ensures !(|b| > 0 && b[0] == '/') ==> |a| <= |r| && r[..|a|] == a
  {
    if |b| > 0 && b[0] == '/' then b
    else if |a| == 0 || a[|a| - 1] == '/' then a + b
    else a + "/" + b
  }

  // ---------------------------------------------------------------------------
  // Properties
  // ---------------------------------------------------------------------------

  /** The base name is the suffix of p after its last '/', and holds no '/'. */
  lemma BasenameIsLastComponent(p: string)
    ensures '/' !in Basename(p)
    ensures exists k :: 0 <= k <= |p| && p == p[..k] + Basename(p) && (k == 0 || p[k - 1] == '/')
  {
    var k := RFind(p, '/') + 1;
    assert p == p[..k] + p[k..];
    assert forall c :: 0 <= c < |p[k..]| ==> p[k..][c] == p[k + c];
  }

  /** A '/'-free string splits into '/'-free parts. */
  lemma SplitExtNoSlash(p: string)
    requires '/' !in p
    ensures '/' !in SplitExt(p).0 && '/' !in SplitExt(p).1
  {
    var n, e := SplitExt(p).0, SplitExt(p).1;
    assert forall c :: 0 <= c < |n| ==> n[c] == p[c];
    assert forall c :: 0 <= c < |e| ==> e[c] == p[|n| + c];
  }

  /** A directory name is empty, all slashes, or does not end in '/'. */
  lemma DirnameShape(p: string)
    ensures Dirname(p) == [] || AllSlashes(Dirname(p)) || Dirname(p)[|Dirname(p)| - 1] != '/'
  {
  }

  /** Joining a '/'-free name onto a directory name gives a path whose base name is that name. */
  lemma BasenameOfJoin(d: string, b: string)
    requires '/' !in b
    ensures Basename(Join(d, b)) == b
  {
    var j := Join(d, b);
    var k := |j| - |b|;
    assert j == j[..k] + b;
    assert j[k..] == b;
    if |b| > 0 {
      assert b[0] != '/';
    }
    assert forall c :: k <= c < |j| ==> j[c] == b[c - k];
    if k > 0 {
      assert j[k - 1] == '/';
    }
    var r := RFind(j, '/');
    assert r < k;
    assert r == k - 1 || (k == 0 && r == -1);
  }

  /**
   * Joining a '/'-free name onto a directory name gives a path whose directory
   * name is the one we started from, whenever that directory name has the
   * shape dirname produces.
   */
  lemma DirnameOfJoin(d: string, b: string)
    requires '/' !in b
    requires d == [] || AllSlashes(d) || d[|d| - 1] != '/'
    ensures Dirname(Join(d, b)) == d
  {
    var j := Join(d, b);
    BasenameOfJoin(d, b);
    var r := RFind(j, '/');
    var head := j[..r + 1];
    if |d| == 0 {
      assert j == b;
      assert r == -1;
    } else if AllSlashes(d) {
      assert j == d + b;
      assert r == |d| - 1 by {
        assert j[|d| - 1] == '/';
        forall c | |d| <= c < |j|
          ensures j[c] != '/'
        {
          assert j[c] == b[c - |d|];
        }
      }
      assert head == d;
    } else {
      assert j == d + "/" + b;
      assert r == |d| by {
        assert j[|d|] == '/';
        forall c | |d| < c < |j|
          ensures j[c] != '/'
        {
          assert j[c] == b[c - |d| - 1];
        }
      }
      assert head == d + "/";
      assert !AllSlashes(head) by {
        assert head[|d| - 1] != '/';
      }
      assert RStripSlashes(head) == RStripSlashes(d);
      assert RStripSlashes(d) == d;
    }
  }
}
