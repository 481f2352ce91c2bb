/**
 * The fallback crawl, run only when the start page gave no candidate: the
 * same-origin link list built from the start page's `href`s, and the crawl
 * over it that stops after the first page that makes `pdfSet` non-empty.
 */
module Fallback {
  import opened Wrappers
  import opened Sequences
  import opened Urls
  import opened DedupSet
  import opened Discovery

  /** The crawl visits at most this many links (`.slice(0, 25)`). */
  const MaxLinks: nat := 25

  /** `$$eval('a[href]', ...)` with `.filter(Boolean)`: the non-empty `href`s in document order. */
  function AnchorHrefs(anchors: seq<Anchor>): (hrefs: seq<string>)
    ensures |hrefs| <= |anchors|
    decreases |anchors|
  {
    if anchors == [] then []
    else
      var a := anchors[|anchors| - 1];
      AnchorHrefs(anchors[..|anchors| - 1]) + (if a.href != "" then [a.href] else [])
  }

  /** A string is a crawl seed exactly when it is the non-empty `href` of some anchor. */
  lemma {:induction false} AnchorHrefsIff(anchors: seq<Anchor>, h: string)
    ensures h in AnchorHrefs(anchors) <==> h != "" && exists a :: a in anchors && a.href == h
    decreases |anchors|
  {
    if anchors != [] {
      var init := anchors[..|anchors| - 1];
      AnchorHrefsIff(init, h);
      assert anchors == init + [anchors[|anchors| - 1]];
    }
  }

  /** `anchors.map(h => resolveUrl(h, base)).filter(Boolean)`. */
  function ResolvedLinks(hrefs: seq<string>, base: string, resolve: (string, string) -> Option<string>): seq<string>
    decreases |hrefs|
  {
    if hrefs == [] then []
    else
      var r := resolve(hrefs[|hrefs| - 1], base);
      ResolvedLinks(hrefs[..|hrefs| - 1], base, resolve) + (if Truthy(r) then [r.value] else [])
  }

  /** `.filter(h => new URL(h).origin === origin)`. */
  function SameOrigin(links: seq<string>, o: string, origin: string -> string): seq<string>
    decreases |links|
  {
    if links == [] then []
    else
      var h := links[|links| - 1];
      SameOrigin(links[..|links| - 1], o, origin) + (if origin(h) == o then [h] else [])
  }

  /** The link list of the fallback: resolve, deduplicate, keep the start URL's origin, take 25. */
  function FallbackLinks(hrefs: seq<string>, base: string, startUrl: string, api: UrlApi): seq<string> {
    var same := SameOrigin(InsertAll([], ResolvedLinks(hrefs, base, api.resolve)), api.origin(startUrl), api.origin);
    if |same| <= MaxLinks then same else same[..MaxLinks]
  }

  lemma {:induction false} ResolvedLinksIff(hrefs: seq<string>, base: string, resolve: (string, string) -> Option<string>, u: string)
    ensures u in ResolvedLinks(hrefs, base, resolve) <==>
      u != "" && exists h :: h in hrefs && resolve(h, base) == Some(u)
    decreases |hrefs|
  {
    if hrefs != [] {
      var init := hrefs[..|hrefs| - 1];
      ResolvedLinksIff(init, base, resolve, u);
      assert hrefs == init + [hrefs[|hrefs| - 1]];
    }
  }

  lemma {:induction false} SameOriginSpec(links: seq<string>, o: string, origin: string -> string)
    ensures IsSubseq(SameOrigin(links, o, origin), links)
    ensures forall h :: h in SameOrigin(links, o, origin) <==> h in links && origin(h) == o
    decreases |links|
  {
    if links != [] {
      var init, h := links[..|links| - 1], links[|links| - 1];
      var s := SameOrigin(init, o, origin);
      SameOriginSpec(init, o, origin);
      assert links == init + [h];
      if origin(h) == o {
        assert (s + [h])[..|s|] == s;
      } else {
        assert SameOrigin(links, o, origin) == s;
        SubseqAppend(s, init, h);
      }
    }
  }

  /** Filtering by origin keeps first-seen order. */
  lemma {:induction false} SameOriginKeepsOrder(links: seq<string>, o: string, origin: string -> string, xs: seq<string>)
    requires InFirstSeenOrder(links, xs)
    ensures InFirstSeenOrder(SameOrigin(links, o, origin), xs)
    decreases |links|
  {
    if links != [] {
      var init, h := links[..|links| - 1], links[|links| - 1];
      var s := SameOrigin(init, o, origin);
      assert InFirstSeenOrder(init, xs) by {
        forall i, j, ki, kj | 0 <= i < j < |init| && IsFirstIndex(xs, init[i], ki) && IsFirstIndex(xs, init[j], kj)
          ensures ki < kj
        {
          assert init[i] == links[i] && init[j] == links[j];
        }
      }
      SameOriginKeepsOrder(init, o, origin, xs);
      if origin(h) == o {
        var r := s + [h];
        SameOriginSpec(init, o, origin);
        forall i, j, ki, kj | 0 <= i < j < |r| && IsFirstIndex(xs, r[i], ki) && IsFirstIndex(xs, r[j], kj)
          ensures ki < kj
        {
          if j < |s| {
            assert r[i] == s[i] && r[j] == s[j];
          } else {
            assert r[i] == s[i] && s[i] in init;
            var p :| 0 <= p < |init| && init[p] == s[i];
            assert links[p] == r[i] && links[|links| - 1] == r[j];
          }
        }
      }
    }
  }

  /**
   * The link list follows the first-seen order of the resolved `href`s, and
   * the cut keeps the first links: a same-origin link first seen before a
   * kept one is kept too.
   */
  lemma FallbackLinksFirstSeen(hrefs: seq<string>, base: string, startUrl: string, api: UrlApi)
    ensures var resolved := ResolvedLinks(hrefs, base, api.resolve);
      var links := FallbackLinks(hrefs, base, startUrl, api);
      && InFirstSeenOrder(links, resolved)
      && (forall u, v, ku, kv ::
            u in links && IsFirstIndex(resolved, u, ku) && IsFirstIndex(resolved, v, kv) && kv < ku &&
            api.origin(v) == api.origin(startUrl)
            ==> v in links)
  {
    var resolved := ResolvedLinks(hrefs, base, api.resolve);
    var uniq := InsertAll([], resolved);
    var o := api.origin(startUrl);
    var same := SameOrigin(uniq, o, api.origin);
    var links := FallbackLinks(hrefs, base, startUrl, api);
    DedupInFirstSeenOrder(resolved);
    SameOriginKeepsOrder(uniq, o, api.origin, resolved);
    assert links == same[..|links|];
    assert InFirstSeenOrder(links, resolved) by {
      forall i, j, ki, kj | 0 <= i < j < |links| && IsFirstIndex(resolved, links[i], ki) && IsFirstIndex(resolved, links[j], kj)
        ensures ki < kj
      {
        assert links[i] == same[i] && links[j] == same[j];
      }
    }
    InsertAllMembers([], resolved);
    SameOriginSpec(uniq, o, api.origin);
    forall u, v, ku, kv | u in links && IsFirstIndex(resolved, u, ku) && IsFirstIndex(resolved, v, kv) && kv < ku && api.origin(v) == o
      ensures v in links
    {
      assert v in same;
      var m :| 0 <= m < |same| && same[m] == v;
      var p :| 0 <= p < |links| && links[p] == u;
      assert same[p] == u;
      FirstSeenPosition(same, resolved, p, m, ku, kv);
      assert links[m] == v;
    }
  }

  /**
   * The link list holds no URL twice, at most 25 URLs, each the resolution of
   * a start-page `href` on the start URL's origin, in the order their first
   * occurrences had; and when it was not cut, it misses none of them.
   */
  lemma FallbackLinksSpec(hrefs: seq<string>, base: string, startUrl: string, api: UrlApi)
    ensures var links := FallbackLinks(hrefs, base, startUrl, api);
      && |links| <= MaxLinks
      && NoDup(links)
      && IsSubseq(links, ResolvedLinks(hrefs, base, api.resolve))
      && (forall u :: u in links ==> api.origin(u) == api.origin(startUrl))
      && (forall u :: u in links ==> u != "" && exists h :: h in hrefs && api.resolve(h, base) == Some(u))
      && (|links| < MaxLinks ==>
            forall h :: h in hrefs && Truthy(api.resolve(h, base))
              && api.origin(api.resolve(h, base).value) == api.origin(startUrl)
              ==> api.resolve(h, base).value in links)
      && InFirstSeenOrder(links, ResolvedLinks(hrefs, base, api.resolve))
      && (forall u, v, ku, kv ::
            u in links && IsFirstIndex(ResolvedLinks(hrefs, base, api.resolve), u, ku) &&
            IsFirstIndex(ResolvedLinks(hrefs, base, api.resolve), v, kv) && kv < ku &&
            api.origin(v) == api.origin(startUrl)
            ==> v in links)
  {
    FallbackLinksFirstSeen(hrefs, base, startUrl, api);
    var resolved := ResolvedLinks(hrefs, base, api.resolve);
    var uniq := InsertAll([], resolved);
    var o := api.origin(startUrl);
    var same := SameOrigin(uniq, o, api.origin);
    var links := FallbackLinks(hrefs, base, startUrl, api);
    InsertAllNoDup([], resolved);
    InsertAllMembers([], resolved);
    DedupIsSubseq(resolved);
    SameOriginSpec(uniq, o, api.origin);
    SubseqTrans(same, uniq, resolved);
    PrefixIsSubseq(same, |links|);
    assert links == same[..|links|];
    SubseqTrans(links, same, resolved);
    SubseqTrans(links, same, uniq);
    SubseqNoDup(links, uniq);
    SubseqMembers(links, same);
    forall u | u in links
      ensures u != "" && exists h :: h in hrefs && api.resolve(h, base) == Some(u)
    {
      ResolvedLinksIff(hrefs, base, api.resolve, u);
    }
    if |links| < MaxLinks {
      assert links == same;
      forall h | h in hrefs && Truthy(api.resolve(h, base)) && api.origin(api.resolve(h, base).value) == o
        ensures api.resolve(h, base).value in links
      {
        ResolvedLinksIff(hrefs, base, api.resolve, api.resolve(h, base).value);
      }
    }
  }

  /** The outcome of `page.goto`: the loaded page, or a throw (timeout or navigation error). */
  datatype Nav = NavFailed | Loaded(page: Page)

  /**
   * `page.goto`, as the environment answers it: the first argument numbers
   * the call within the run, so the same URL may load once and fail later.
   */
  type Navigator = (nat, string) -> Nav

  /** The candidates a visited page yields: the scan of `pdfSet` that follows a successful `goto`. */
  type Scan = Page -> seq<string>

  /** What one crawl step finds: nothing when `goto` threw, the page's scan otherwise. */
  function Yield(nav: Navigator, call: nat, link: string, scan: Scan): seq<string> {
    match nav(call, link)
    case NavFailed => []
    case Loaded(p) => scan(p)
  }

  datatype CrawlResult = CrawlResult(found: seq<string>, examined: nat)

  /**
   * The crawl over `links` starting with the set `found`, the first `goto`
   * being call number `call`: how the set ends, and how many links were tried.
   */
  function Crawl(found: seq<string>, links: seq<string>, call: nat, nav: Navigator, scan: Scan): CrawlResult
    decreases |links|
  {
    if links == [] then CrawlResult(found, 0)
    else
      match nav(call, links[0])
      case NavFailed =>
        var rest := Crawl(found, links[1..], call + 1, nav, scan);
        CrawlResult(rest.found, rest.examined + 1)
      case Loaded(p) =>
        var now := InsertAll(found, scan(p));
        if |now| > 0 then CrawlResult(now, 1)
        else
          var rest := Crawl(now, links[1..], call + 1, nav, scan);
          CrawlResult(rest.found, rest.examined + 1)
  }

  /**
   * The index of the first link whose step yields a candidate, or the
   * number of links when none does.
   */
  function FirstHit(links: seq<string>, call: nat, nav: Navigator, scan: Scan): nat
    decreases |links|
  {
    if links == [] then 0
    else if Yield(nav, call, links[0], scan) != [] then 0
    else FirstHit(links[1..], call + 1, nav, scan) + 1
  }

  /** Every link before the first hit yields nothing, and the hit, when there is one, yields something. */
  lemma {:induction false} FirstHitSpec(links: seq<string>, call: nat, nav: Navigator, scan: Scan)
    ensures FirstHit(links, call, nav, scan) <= |links|
    ensures forall j :: 0 <= j < FirstHit(links, call, nav, scan) ==> Yield(nav, call + j, links[j], scan) == []
    ensures var k := FirstHit(links, call, nav, scan);
      k < |links| ==> Yield(nav, call + k, links[k], scan) != []
    decreases |links|
  {
    if links != [] && Yield(nav, call, links[0], scan) == [] {
      FirstHitSpec(links[1..], call + 1, nav, scan);
      forall j | 1 <= j < |links|
        ensures links[j] == links[1..][j - 1]
      {
      }
    }
  }

  /**
   * Started from an empty set, the crawl stops right after the first link
   * that yields a candidate, and the set then holds exactly that page's
   * candidates; when no link yields one, it tries them all and the set
   * stays empty.
   */
  lemma {:induction false} CrawlFirstHit(links: seq<string>, call: nat, nav: Navigator, scan: Scan)
    ensures var k := FirstHit(links, call, nav, scan);
      k < |links| ==>
        Crawl([], links, call, nav, scan) == CrawlResult(InsertAll([], Yield(nav, call + k, links[k], scan)), k + 1)
    ensures FirstHit(links, call, nav, scan) == |links| ==> Crawl([], links, call, nav, scan) == CrawlResult([], |links|)
    decreases |links|
  {
    if links != [] {
      var y := Yield(nav, call, links[0], scan);
      var k := FirstHit(links, call, nav, scan);
      InsertAllEmpty(y);
      var r := Crawl([], links, call, nav, scan);
      var rest := Crawl([], links[1..], call + 1, nav, scan);
      if y == [] {
        assert r == CrawlResult(rest.found, rest.examined + 1) by {
          match nav(call, links[0])
          case NavFailed =>
          case Loaded(p) =>
            assert InsertAll([], scan(p)) == [];
        }
        CrawlFirstHit(links[1..], call + 1, nav, scan);
        var k' := FirstHit(links[1..], call + 1, nav, scan);
        assert k == k' + 1;
        if k' < |links[1..]| {
          assert links[k] == links[1..][k'];
        }
      } else {
        assert k == 0;
        match nav(call, links[0])
        case Loaded(p) =>
          assert y == scan(p);
          assert r == CrawlResult(InsertAll([], y), 1);
      }
    }
  }

  /** However it ends, the crawl never tries more links than the list holds and never shrinks the set. */
  lemma {:induction false} CrawlBounds(found: seq<string>, links: seq<string>, call: nat, nav: Navigator, scan: Scan)
    ensures var r := Crawl(found, links, call, nav, scan);
      r.examined <= |links| && |found| <= |r.found| && r.found[..|found|] == found
    decreases |links|
  {
    if links != [] {
      match nav(call, links[0])
      case NavFailed =>
        CrawlBounds(found, links[1..], call + 1, nav, scan);
      case Loaded(p) =>
        var now := InsertAll(found, scan(p));
        InsertAllExtends(found, scan(p));
        CrawlBounds(now, links[1..], call + 1, nav, scan);
    }
  }

  /** What remains of the crawl after `i` links, measured against the whole crawl `goal`. */
  ghost predicate CrawlRemains(found: seq<string>, links: seq<string>, i: nat, call: nat, nav: Navigator, scan: Scan, goal: CrawlResult)
    requires i <= |links|
  {
    var rest := Crawl(found, links[i..], call + i, nav, scan);
    rest.found == goal.found && rest.examined + i == goal.examined
  }

  /** A link that is skipped, or scanned without a hit, leaves the rest of the crawl to the links after it. */
  lemma {:induction false} CrawlAdvance(found: seq<string>, now: seq<string>, links: seq<string>, i: nat, call: nat, nav: Navigator, scan: Scan, goal: CrawlResult)
    requires i < |links| && CrawlRemains(found, links, i, call, nav, scan, goal)
    requires match nav(call + i, links[i])
      case NavFailed => now == found
      case Loaded(p) => now == InsertAll(found, scan(p)) && |now| == 0
    ensures CrawlRemains(now, links, i + 1, call, nav, scan, goal)
  {
    assert links[i..][0] == links[i] && links[i..][1..] == links[i + 1..];
  }

  /** A scan that leaves the set non-empty ends the crawl: `i + 1` links were tried. */
  lemma {:induction false} CrawlStop(found: seq<string>, links: seq<string>, i: nat, call: nat, nav: Navigator, scan: Scan, goal: CrawlResult, p: Page)
    requires i < |links| && CrawlRemains(found, links, i, call, nav, scan, goal)
    requires nav(call + i, links[i]) == Loaded(p) && |InsertAll(found, scan(p))| > 0
    ensures goal == CrawlResult(InsertAll(found, scan(p)), i + 1)
  {
    assert links[i..][0] == links[i];
  }

  /**
   * The crawl loop: `goto` each link in order, skip it when `goto` throws,
   * scan it otherwise, and stop as soon as `pdfSet` is non-empty.  Returns
   * how many links were tried.
   */
  method FallbackCrawl(pdfSet: PdfSet, links: seq<string>, call: nat, nav: Navigator, resolve: (string, string) -> Option<string>)
    returns (examined: nat)
    requires pdfSet.Valid()
    modifies pdfSet
    ensures pdfSet.Valid()
    ensures CrawlResult(pdfSet.order, examined) == Crawl(old(pdfSet.order), links, call, nav, ScanWith(resolve))
  {
    ghost var scan := ScanWith(resolve);
    ghost var goal := Crawl(pdfSet.order, links, call, nav, scan);
    assert links[0..] == links;
    examined := 0;
    var i := 0;
    while i < |links|
      invariant 0 <= i <= |links| && examined == i
      invariant pdfSet.Valid()
      invariant CrawlRemains(pdfSet.order, links, i, call, nav, scan, goal)
      decreases |links| - i
    {
      ghost var found := pdfSet.order;
      var outcome := nav(call + i, links[i]);
      examined := examined + 1;
      if outcome.NavFailed? {
        CrawlAdvance(found, found, links, i, call, nav, scan, goal);
        i := i + 1;
        continue;
      }
      ScanPage(pdfSet, outcome.page, resolve);
      assert pdfSet.order == InsertAll(found, scan(outcome.page));
      if pdfSet.Size() > 0 {
        CrawlStop(found, links, i, call, nav, scan, goal, outcome.page);
        return;
      }
      CrawlAdvance(found, pdfSet.order, links, i, call, nav, scan, goal);
      i := i + 1;
    }
    assert links[i..] == [];
  }
}
