/**
 * `path.basename` of Node's POSIX path module, as applied to the pathname of
 * a URL: trailing separators are ignored, then the last segment is taken.
 */
module PosixPath {

  predicate AllSlashes(p: string) {
    forall i :: 0 <= i < |p| ==> p[i] == '/'
  }

  function TrimTrailingSlashes(p: string): (r: string)
    ensures |r| <= |p| && r == p[..|r|]
    ensures r == [] || r[|r| - 1] != '/'
    ensures AllSlashes(p[|r|..])
    decreases |p|
  {
    if |p| > 0 && p[|p| - 1] == '/' then TrimTrailingSlashes(p[..|p| - 1]) else p
  }

  function LastSegment(p: string): (r: string)
    ensures |r| <= |p| && r == p[|p| - |r|..]
    ensures '/' !in r
    ensures |r| < |p| ==> p[|p| - |r| - 1] == '/'
    decreases |p|
  {
    if |p| == 0 || p[|p| - 1] == '/' then [] else LastSegment(p[..|p| - 1]) + [p[|p| - 1]]
  }

  function BaseName(p: string): string {
    LastSegment(TrimTrailingSlashes(p))
  }

  /** The base name never contains a separator and is empty exactly when the path is all separators. */
  lemma BaseNameShape(p: string)
    ensures '/' !in BaseName(p)
    ensures BaseName(p) == [] <==> AllSlashes(p)
  {
  }

  /** Joining a directory and a separator-free name, with or without a trailing separator, gives back the name. */
  lemma BaseNameOfJoin(dir: string, name: string, trailing: string)
    requires name != [] && '/' !in name
    requires AllSlashes(trailing)
    ensures BaseName(dir + "/" + name + trailing) == name
  {
    var p := dir + "/" + name + trailing;
    var q := dir + "/" + name;
    TrimOf(q, trailing);
    SegmentOf(dir + "/", name);
    assert q == (dir + "/") + name;
  }

  lemma {:induction false} TrimOf(q: string, trailing: string)
    requires q != [] && q[|q| - 1] != '/'
    requires AllSlashes(trailing)
    ensures TrimTrailingSlashes(q + trailing) == q
    decreases |trailing|
  {
    if trailing != [] {
      var t := trailing[..|trailing| - 1];
      assert (q + trailing)[..|q + trailing| - 1] == q + t;
      TrimOf(q, t);
    } else {
      assert q + trailing == q;
    }
  }

  lemma {:induction false} SegmentOf(prefix: string, name: string)
    requires prefix != [] && prefix[|prefix| - 1] == '/'
    requires '/' !in name
    ensures LastSegment(prefix + name) == name
    decreases |name|
  {
    if name == [] {
      assert prefix + name == prefix;
    } else {
      var n := name[..|name| - 1];
      assert (prefix + name)[..|prefix + name| - 1] == prefix + n;
      SegmentOf(prefix, n);
    }
  }
}
