/**
 * The whole run: load the start page, scan it, fall back to the bounded
 * crawl when it gave nothing, return to the start page after a crawl,
 * download every candidate, and pass when at least one file was saved.
 */
module Harvest {
  import opened Sequences
  import opened Urls
  import opened DedupSet
  import opened Discovery
  import opened Fallback
  import opened Download

  /** Everything the run consults outside itself. */
  datatype Env = Env(
    startUrl: string,
    api: UrlApi,
    navigate: Navigator,
    get: string -> Attempt<Response>,
    write: string -> WriteResult)

  /**
   * How a run ends.  `gotos` lists the URLs passed to `page.goto`, in order.
   * A `goto` outside a `try` that throws ends the run (`Aborted`).
   */
  datatype Report =
    | Aborted(gotos: seq<string>)
    | Finished(gotos: seq<string>, pdfLinks: seq<string>, log: seq<Outcome>, downloaded: nat, passed: bool)

  /** The download phase over the final candidate list, and the closing `expect(downloaded).toBeGreaterThan(0)`. */
  function Finish(gotos: seq<string>, pdfLinks: seq<string>, env: Env): Report {
    var log := Outcomes(pdfLinks, env.api.pathname, env.get, env.write);
    var n := SavedCount(log);
    Finished(gotos, pdfLinks, log, n, n > 0)
  }

  /** The links the fallback would crawl from the loaded start page. */
  function LinksOf(start: Page, env: Env): seq<string> {
    FallbackLinks(AnchorHrefs(start.anchors), start.url, env.startUrl, env.api)
  }

  /** The run as a function of its environment. */
  function Pipeline(env: Env): Report {
    match env.navigate(0, env.startUrl)
    case NavFailed => Aborted([env.startUrl])
    case Loaded(start) =>
      var found := InsertAll([], PageCandidates(start, env.api.resolve));
      if found != [] then Finish([env.startUrl], found, env)
      else
        var links := LinksOf(start, env);
        var crawl := Crawl([], links, 1, env.navigate, ScanWith(env.api.resolve));
        CrawlBounds([], links, 1, env.navigate, ScanWith(env.api.resolve));
        var gotos := [env.startUrl] + links[..crawl.examined] + [env.startUrl];
        match env.navigate(1 + crawl.examined, env.startUrl)
        case NavFailed => Aborted(gotos)
        case Loaded(_) => Finish(gotos, crawl.found, env)
  }

  /** The test body, step by step, with `pdfSet` as the one mutable object. */
  method Run(env: Env) returns (report: Report)
    ensures report == Pipeline(env)
  {
    var gotos := [env.startUrl];
    var nav := env.navigate(0, env.startUrl);
    if nav.NavFailed? {
      return Aborted(gotos);
    }
    var start := nav.page;
    var pdfSet := new PdfSet();
    ScanPage(pdfSet, start, env.api.resolve);
    if pdfSet.Size() == 0 {
      var links := FallbackLinks(AnchorHrefs(start.anchors), start.url, env.startUrl, env.api);
      var examined := FallbackCrawl(pdfSet, links, 1, env.navigate, env.api.resolve);
      CrawlBounds([], links, 1, env.navigate, ScanWith(env.api.resolve));
      gotos := gotos + links[..examined] + [env.startUrl];
      var back := env.navigate(1 + examined, env.startUrl);
      if back.NavFailed? {
        return Aborted(gotos);
      }
    }
    var pdfLinks := pdfSet.ToArray();
    var downloaded, log := DownloadAll(pdfLinks, env.api.pathname, env.get, env.write);
    report := Finished(gotos, pdfLinks, log, downloaded, downloaded > 0);
  }

  /** The start page loaded and none of its strings became a candidate. */
  predicate StartPageEmpty(env: Env) {
    env.navigate(0, env.startUrl).Loaded? && PageCandidates(env.navigate(0, env.startUrl).page, env.api.resolve) == []
  }

  /**
   * Every run opens with the start URL and makes at most 27 navigations;
   * it makes more than one exactly when the start page loaded and yielded
   * no candidate, i.e. only the fallback navigates further.
   */
  lemma FallbackOnlyWhenStartEmpty(env: Env)
    ensures var r := Pipeline(env);
      && |r.gotos| >= 1 && r.gotos[0] == env.startUrl
      && |r.gotos| <= MaxLinks + 2
      && (|r.gotos| > 1 <==> StartPageEmpty(env))
  {
    match env.navigate(0, env.startUrl)
    case NavFailed =>
    case Loaded(start) =>
      InsertAllEmpty(PageCandidates(start, env.api.resolve));
      var links := LinksOf(start, env);
      FallbackLinksSpec(AnchorHrefs(start.anchors), start.url, env.startUrl, env.api);
      CrawlBounds([], links, 1, env.navigate, ScanWith(env.api.resolve));
  }

  /** When the fallback runs, the report is read off the crawl's result. */
  lemma FallbackReport(env: Env)
    requires StartPageEmpty(env)
    ensures var start := env.navigate(0, env.startUrl).page;
      var links := LinksOf(start, env);
      var crawl := Crawl([], links, 1, env.navigate, ScanWith(env.api.resolve));
      var r := Pipeline(env);
      && crawl.examined <= |links|
      && r.gotos == [env.startUrl] + links[..crawl.examined] + [env.startUrl]
      && (r.Finished? ==> r.pdfLinks == crawl.found)
  {
    var start := env.navigate(0, env.startUrl).page;
    InsertAllEmpty(PageCandidates(start, env.api.resolve));
    CrawlBounds([], LinksOf(start, env), 1, env.navigate, ScanWith(env.api.resolve));
  }

  /**
   * When the fallback runs, it navigates to the links in list order, up to
   * and including the first one whose page yields a candidate, then back to
   * the start URL; the candidates downloaded are exactly that page's.
   */
  lemma FallbackRun(env: Env)
    requires StartPageEmpty(env)
    ensures var start := env.navigate(0, env.startUrl).page;
      var links := LinksOf(start, env);
      var k := FirstHit(links, 1, env.navigate, ScanWith(env.api.resolve));
      var r := Pipeline(env);
      && (k < |links| ==>
            r.gotos == [env.startUrl] + links[..k + 1] + [env.startUrl]
            && (r.Finished? ==> r.pdfLinks == InsertAll([], Yield(env.navigate, 1 + k, links[k], ScanWith(env.api.resolve)))))
      && (k == |links| ==>
            r.gotos == [env.startUrl] + links + [env.startUrl]
            && (r.Finished? ==> r.pdfLinks == []))
  {
    var start := env.navigate(0, env.startUrl).page;
    var links := LinksOf(start, env);
    var scan := ScanWith(env.api.resolve);
    var k := FirstHit(links, 1, env.navigate, scan);
    var crawl := Crawl([], links, 1, env.navigate, scan);
    FallbackReport(env);
    assert k <= |links| by {
      FirstHitSpec(links, 1, env.navigate, scan);
    }
    if k < |links| {
      assert crawl == CrawlResult(InsertAll([], Yield(env.navigate, 1 + k, links[k], scan)), k + 1) by {
        CrawlFirstHit(links, 1, env.navigate, scan);
      }
    } else {
      assert crawl == CrawlResult([], |links|) by {
        CrawlFirstHit(links, 1, env.navigate, scan);
      }
      assert links[..|links|] == links;
    }
  }

  /**
   * `u` is a candidate of a page that one of the `goto`s in `gotos` loaded:
   * the `c`-th navigation, to `gotos[c]`.
   */
  ghost predicate Discovered(env: Env, gotos: seq<string>, u: string) {
    exists c :: 0 <= c < |gotos| && FoundOn(env, c, gotos[c], u)
  }

  /** Navigation number `call`, to `link`, loaded a page of which `u` is a candidate. */
  predicate FoundOn(env: Env, call: nat, link: string, u: string) {
    env.navigate(call, link).Loaded? && u in PageCandidates(env.navigate(call, link).page, env.api.resolve)
  }

  /** Where the final candidate list of a finished run comes from. */
  lemma FinishedLinks(env: Env)
    requires Pipeline(env).Finished?
    ensures env.navigate(0, env.startUrl).Loaded?
    ensures var start := env.navigate(0, env.startUrl).page;
      var found := InsertAll([], PageCandidates(start, env.api.resolve));
      && (found != [] ==> Pipeline(env).pdfLinks == found)
      && (found == [] ==> Pipeline(env).pdfLinks == Crawl([], LinksOf(start, env), 1, env.navigate, ScanWith(env.api.resolve)).found)
  {
  }

  /** A candidate of the start page comes from the first navigation. */
  lemma StartFoundDiscovered(env: Env, u: string)
    requires env.navigate(0, env.startUrl).Loaded?
    requires u in InsertAll([], PageCandidates(env.navigate(0, env.startUrl).page, env.api.resolve))
    ensures Discovered(env, [env.startUrl], u)
  {
    InsertAllMembers([], PageCandidates(env.navigate(0, env.startUrl).page, env.api.resolve));
    assert [env.startUrl][0] == env.startUrl;
  }

  /**
   * A candidate the crawl found comes from a link it examined, at that
   * link's navigation: the `j` returned.
   */
  lemma CrawlFoundDiscovered(env: Env, fl: seq<string>, u: string) returns (j: nat)
    requires u in Crawl([], fl, 1, env.navigate, ScanWith(env.api.resolve)).found
    ensures j < |fl| && j < Crawl([], fl, 1, env.navigate, ScanWith(env.api.resolve)).examined
    ensures FoundOn(env, 1 + j, fl[j], u)
  {
    var scan := ScanWith(env.api.resolve);
    j := FirstHit(fl, 1, env.navigate, scan);
    assert j < |fl| && Crawl([], fl, 1, env.navigate, scan) == CrawlResult(InsertAll([], Yield(env.navigate, 1 + j, fl[j], scan)), j + 1) by {
      CrawlFirstHit(fl, 1, env.navigate, scan);
      FirstHitSpec(fl, 1, env.navigate, scan);
    }
    var hit := Yield(env.navigate, 1 + j, fl[j], scan);
    assert u in hit by {
      InsertAllMembers([], hit);
    }
    var nav := env.navigate(1 + j, fl[j]);
    assert nav.Loaded? && hit == PageCandidates(nav.page, env.api.resolve);
  }

  lemma CrawlFoundNoDup(env: Env, fl: seq<string>)
    ensures NoDup(Crawl([], fl, 1, env.navigate, ScanWith(env.api.resolve)).found)
  {
    var k := FirstHit(fl, 1, env.navigate, ScanWith(env.api.resolve));
    CrawlFirstHit(fl, 1, env.navigate, ScanWith(env.api.resolve));
    FirstHitSpec(fl, 1, env.navigate, ScanWith(env.api.resolve));
    if k < |fl| {
      InsertAllNoDup([], Yield(env.navigate, 1 + k, fl[k], ScanWith(env.api.resolve)));
    }
  }

  /**
   * The candidate list holds each URL once, and each came from a string
   * with the `.pdf` marker, on a page that one of the run's own `goto`s
   * loaded, that resolved to it.
   */
  lemma PdfLinksSound(env: Env)
    requires Pipeline(env).Finished?
    ensures NoDup(Pipeline(env).pdfLinks)
    ensures forall u :: u in Pipeline(env).pdfLinks ==> Discovered(env, Pipeline(env).gotos, u)
  {
    var r := Pipeline(env);
    FinishedLinks(env);
    var start := env.navigate(0, env.startUrl).page;
    var y := PageCandidates(start, env.api.resolve);
    if InsertAll([], y) != [] {
      InsertAllNoDup([], y);
      forall u | u in r.pdfLinks ensures Discovered(env, r.gotos, u) {
        StartFoundDiscovered(env, u);
      }
    } else {
      var fl := LinksOf(start, env);
      var crawl := Crawl([], fl, 1, env.navigate, ScanWith(env.api.resolve));
      InsertAllEmpty(y);
      FallbackReport(env);
      CrawlFoundNoDup(env, fl);
      forall u | u in r.pdfLinks ensures Discovered(env, r.gotos, u) {
        var j := CrawlFoundDiscovered(env, fl, u);
        assert r.gotos[1 + j] == fl[j];
      }
    }
  }

  /**
   * A start page whose anchors carry a `.pdf` string that resolves puts
   * that URL in the candidate list, exactly once, without any crawl.
   */
  lemma StartPageComplete(env: Env, raw: string)
    requires env.navigate(0, env.startUrl).Loaded?
    requires var start := env.navigate(0, env.startUrl).page;
      raw in RawCandidates(start.anchors) && HasPdfMarker(raw) && Truthy(env.api.resolve(raw, start.url))
    ensures var start := env.navigate(0, env.startUrl).page;
      var u := env.api.resolve(raw, start.url).value;
      var r := Pipeline(env);
      && r.Finished? && r.gotos == [env.startUrl]
      && u in r.pdfLinks
      && forall i, j :: 0 <= i < j < |r.pdfLinks| ==> r.pdfLinks[i] != r.pdfLinks[j]
  {
    var start := env.navigate(0, env.startUrl).page;
    var u := env.api.resolve(raw, start.url).value;
    var y := PageCandidates(start, env.api.resolve);
    CandidatesIff(RawCandidates(start.anchors), start.url, env.api.resolve, u);
    InsertAllMembers([], y);
    InsertAllNoDup([], y);
  }

  /**
   * The run saves files under distinct names, counts exactly the saves, and
   * passes exactly when some item was saved; an item that is skipped or
   * fails does not stop the items after it, each of which gets an outcome.
   */
  lemma RunCounts(env: Env)
    ensures var r := Pipeline(env);
      r.Finished? ==>
        && |r.log| == |r.pdfLinks|
        && r.downloaded <= |r.pdfLinks|
        && (r.passed <==> r.downloaded > 0)
        && (r.passed <==> exists i :: 0 <= i < |r.log| && r.log[i].Saved?)
        && (forall i, j :: 0 <= i < j < |r.log| && r.log[i].Saved? && r.log[j].Saved? ==>
              r.log[i].fileName != r.log[j].fileName)
  {
    var r := Pipeline(env);
    if r.Finished? {
      SavedCountSpec(r.log);
      SavedNamesDistinct(r.pdfLinks, env.api.pathname, env.get, env.write);
    }
  }
}
