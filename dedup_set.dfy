/**
 * The `pdfSet` of the harvester: a JavaScript `Set` of URL strings, which
 * only grows and iterates in first-insertion order.  Its abstract value is
 * the sequence `Array.from(pdfSet)` would produce.
 */
module DedupSet {
  import opened Sequences

  /** `set.add(x)` seen on the iteration order. */
  function Insert<T(==)>(s: seq<T>, x: T): seq<T> {
    if x in s then s else s + [x]
  }

  /** Adding each of `xs` in turn; `InsertAll([], xs)` is `[...new Set(xs)]`. */
  function InsertAll<T(==)>(s: seq<T>, xs: seq<T>): seq<T>
    decreases |xs|
  {
    if xs == [] then s else Insert(InsertAll(s, xs[..|xs| - 1]), xs[|xs| - 1])
  }

  /** The set never shrinks and never reorders: the old order is a prefix of the new one. */
  lemma {:induction false} InsertAllExtends<T>(s: seq<T>, xs: seq<T>)
    ensures |s| <= |InsertAll(s, xs)| <= |s| + |xs|
    ensures InsertAll(s, xs)[..|s|] == s
    decreases |xs|
  {
    if xs != [] {
      InsertAllExtends(s, xs[..|xs| - 1]);
    }
  }

  /** Something is a member afterwards exactly when it was one before or was added. */
  lemma {:induction false} InsertAllMembers<T>(s: seq<T>, xs: seq<T>)
    ensures forall x :: x in InsertAll(s, xs) <==> x in s || x in xs
    decreases |xs|
  {
    if xs != [] {
      var xs' := xs[..|xs| - 1];
      InsertAllMembers(s, xs');
      assert xs == xs' + [xs[|xs| - 1]];
    }
  }

  /** No URL is ever held twice. */
  lemma {:induction false} InsertAllNoDup<T>(s: seq<T>, xs: seq<T>)
    requires NoDup(s)
    ensures NoDup(InsertAll(s, xs))
    decreases |xs|
  {
    if xs != [] {
      var before := InsertAll(s, xs[..|xs| - 1]);
      InsertAllNoDup(s, xs[..|xs| - 1]);
      NoDupSnoc(before, xs[|xs| - 1]);
    }
  }

  /** Adding only what is already there changes nothing. */
  lemma {:induction false} InsertAllAbsorbs<T>(s: seq<T>, xs: seq<T>)
    requires forall x :: x in xs ==> x in s
    ensures InsertAll(s, xs) == s
    decreases |xs|
  {
    if xs != [] {
      InsertAllAbsorbs(s, xs[..|xs| - 1]);
    }
  }

  /** Starting from nothing, the result is empty exactly when nothing was added. */
  lemma InsertAllEmpty<T>(xs: seq<T>)
    ensures InsertAll([], xs) == [] <==> xs == []
  {
    if xs != [] {
      InsertAllMembers([], xs);
      assert xs[0] in InsertAll([], xs);
    }
  }

  /** Deduplication keeps the first occurrence of each value and is a subsequence of its input. */
  lemma {:induction false} DedupIsSubseq<T>(xs: seq<T>)
    ensures IsSubseq(InsertAll([], xs), xs)
    decreases |xs|
  {
    if xs != [] {
      var xs', x := xs[..|xs| - 1], xs[|xs| - 1];
      var d := InsertAll([], xs');
      DedupIsSubseq(xs');
      assert xs == xs' + [x];
      if x in d {
        SubseqAppend(d, xs', x);
      } else {
        assert (d + [x])[..|d|] == d;
      }
    }
  }

  /** `k` is the index at which `x` first occurs in `xs`. */
  predicate IsFirstIndex<T(==)>(xs: seq<T>, x: T, k: int) {
    0 <= k < |xs| && xs[k] == x && x !in xs[..k]
  }

  /** Iteration order is first-insertion order: earlier members were first seen earlier. */
  lemma {:induction false} DedupFirstSeenOrder<T>(xs: seq<T>, i: nat, j: nat, ki: int, kj: int)
    requires i < j < |InsertAll([], xs)|
    requires IsFirstIndex(xs, InsertAll([], xs)[i], ki)
    requires IsFirstIndex(xs, InsertAll([], xs)[j], kj)
    ensures ki < kj
    decreases |xs|
  {
    var n := |xs|;
    var xs', x := xs[..n - 1], xs[n - 1];
    var d, d' := InsertAll([], xs), InsertAll([], xs');
    InsertAllMembers([], xs');
    assert d'[i] in xs' by {
      if x !in d' { assert d[i] == d'[i]; }
      assert i < |d'| by {
        if x !in d' { assert |d| == |d'| + 1; }
      }
    }
    FirstIndexBefore(xs, d'[i], ki);
    if x in d' {
      assert d == d';
      FirstIndexBefore(xs, d'[j], kj);
      DedupFirstSeenOrder(xs', i, j, ki, kj);
    } else if j < |d'| {
      assert d[j] == d'[j];
      assert d'[j] in xs';
      FirstIndexBefore(xs, d'[j], kj);
      DedupFirstSeenOrder(xs', i, j, ki, kj);
    } else {
      assert d[j] == x && x !in xs';
      assert kj == n - 1;
    }
  }

  /** The first index of a value that already occurs in `xs[..|xs|-1]` lies inside it. */
  lemma FirstIndexBefore<T>(xs: seq<T>, y: T, k: int)
    requires xs != [] && y in xs[..|xs| - 1]
    requires IsFirstIndex(xs, y, k)
    ensures k < |xs| - 1 && IsFirstIndex(xs[..|xs| - 1], y, k)
  {
    var xs' := xs[..|xs| - 1];
    var m :| 0 <= m < |xs'| && xs'[m] == y;
    assert xs'[..k] == xs[..k];
  }

  /** `s` lists values of `xs` in the order of their first occurrences in `xs`. */
  ghost predicate InFirstSeenOrder<T>(s: seq<T>, xs: seq<T>) {
    forall i, j, ki, kj :: 0 <= i < j < |s| && IsFirstIndex(xs, s[i], ki) && IsFirstIndex(xs, s[j], kj) ==> ki < kj
  }

  /** In a list in first-seen order, a value first seen earlier sits at an earlier position. */
  lemma FirstSeenPosition<T>(s: seq<T>, xs: seq<T>, p: int, m: int, kp: int, km: int)
    requires InFirstSeenOrder(s, xs) && 0 <= p < |s| && 0 <= m < |s|
    requires IsFirstIndex(xs, s[p], kp) && IsFirstIndex(xs, s[m], km) && km < kp
    ensures m < p
  {
    assert xs[..kp][km] == xs[km];
  }

  /** `[...new Set(xs)]` is in first-seen order. */
  lemma DedupInFirstSeenOrder<T>(xs: seq<T>)
    ensures InFirstSeenOrder(InsertAll([], xs), xs)
  {
    var d := InsertAll([], xs);
    forall i, j, ki, kj | 0 <= i < j < |d| && IsFirstIndex(xs, d[i], ki) && IsFirstIndex(xs, d[j], kj)
      ensures ki < kj
    {
      DedupFirstSeenOrder(xs, i, j, ki, kj);
    }
  }

  /**
   * The `Set` object: `order` is its iteration order and `members` the
   * membership test `has`, kept in agreement.
   */
  class PdfSet {
    var order: seq<string>
    var members: set<string>

    ghost predicate Valid()
      reads this
    {
      NoDup(order) && members == set u | u in order
    }

    constructor ()
      ensures Valid() && order == []
    {
      order := [];
      members := {};
    }

    /** `set.size`: the number of distinct URLs held. */
    function Size(): (n: nat)
      reads this
      requires Valid()
      ensures n == |order|
      ensures n == 0 <==> order == []
    {
      NoDupCardinality(order);
      |members|
    }

    /** `set.add(url)`: appends a new URL, ignores one already held. */
    method Add(url: string)
      requires Valid()
      modifies this
      ensures Valid()
      ensures order == Insert(old(order), url)
      ensures url in old(members) ==> order == old(order)
      ensures members == old(members) + {url}
    {
      if url !in members {
        NoDupSnoc(order, url);
        order := order + [url];
        members := members + {url};
      }
    }

    /** `Array.from(set)`: the members in first-insertion order, each once. */
    function ToArray(): (links: seq<string>)
      reads this
      requires Valid()
      ensures NoDup(links)
      ensures forall u :: u in links <==> u in members
    {
      order
    }
  }
}
