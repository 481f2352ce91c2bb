/** Two whole runs worked through on the model: a direct hit, and a hit found by the fallback. */
module Scenarios {
  import opened Wrappers
  import opened Text
  import opened PosixPath
  import opened DedupSet
  import opened Discovery
  import opened Fallback
  import opened Download
  import opened Harvest

  /** The marker test ignores case: an upper-case extension still marks a candidate. */
  lemma MarkerIgnoresCase()
    ensures HasPdfMarker("files/x.PDF")
  {
    assert "files/x.PDF" == "files/x" + ".PDF";
    MarkerSuffix("files/x", ".PDF");
  }

  /** A link without the marker is no candidate. */
  lemma NoticesHasNoMarker()
    ensures !HasPdfMarker("/notices")
  {
    assert Lower("/notices") == "/notices";
    if Contains("/notices", ".pdf") {
      ContainsHead("/notices", ".pdf");
    }
  }

  lemma ContentTypeIsPdf()
    ensures Contains(Lower("application/pdf"), "pdf")
  {
    assert Lower("application/pdf") == "application/" + "pdf" + "";
    ContainsInfix("application/", "pdf", "");
  }

  /** A page whose only anchor carries `href` and nothing else yields the resolution of that `href`, if it has the marker. */
  lemma SingleHrefPage(page: Page, href: string, resolve: (string, string) -> Option<string>)
    requires page.anchors == [Anchor(href, "", "")] && href != ""
    ensures RawCandidates(page.anchors) == [href]
    ensures AnchorHrefs(page.anchors) == [href]
    ensures PageCandidates(page, resolve) == Accept(href, page.url, resolve)
  {
    assert page.anchors[..0] == [];
    assert [href][..0] == [];
    assert RawCandidates(page.anchors) == [href];
    assert Candidates([href], page.url, resolve) == [] + Accept(href, page.url, resolve);
  }

  lemma InsertOne(u: string)
    ensures InsertAll([], [u]) == [u]
  {
    assert [u][..0] == [];
  }

  /** A single item served as a non-empty PDF and written successfully is saved and counted. */
  lemma SingleSave(u: string, env: Env, size: nat)
    requires env.get(u) == Done(Response(true, 200, "application/pdf", Done(size))) && size > 0
    requires env.write(FileName(0, env.api.pathname(u))) == WriteOk
    ensures Outcomes([u], env.api.pathname, env.get, env.write) == [Saved(FileName(0, env.api.pathname(u)), size)]
    ensures SavedCount(Outcomes([u], env.api.pathname, env.get, env.write)) == 1
  {
    ContentTypeIsPdf();
    assert Outcomes([u], env.api.pathname, env.get, env.write)[..0] == [];
  }

  lemma ReportBaseName()
    ensures BaseName("/docs/report.pdf") == "report.pdf"
  {
    assert "/docs/report.pdf" == "/docs" + "/" + "report.pdf" + "";
    BaseNameOfJoin("/docs", "report.pdf", "");
  }

  lemma ReportFileName()
    ensures FileName(0, "/docs/report.pdf") == "1-report.pdf"
  {
    ReportBaseName();
    assert Decimal(1) == "1";
    assert "1" + "-" + "report.pdf" == "1-report.pdf";
  }

  /** A run whose start page yields candidates downloads them without a crawl. */
  lemma RunWithoutCrawl(env: Env, found: seq<string>)
    requires env.navigate(0, env.startUrl).Loaded?
    requires found == InsertAll([], PageCandidates(env.navigate(0, env.startUrl).page, env.api.resolve)) && found != []
    ensures Pipeline(env) == Finish([env.startUrl], found, env)
  {
  }

  /** A run whose start page yields nothing downloads what the crawl found, after returning to the start URL. */
  lemma RunWithCrawl(env: Env, links: seq<string>, crawl: CrawlResult)
    requires StartPageEmpty(env)
    requires links == LinksOf(env.navigate(0, env.startUrl).page, env)
    requires crawl == Crawl([], links, 1, env.navigate, ScanWith(env.api.resolve)) && crawl.examined <= |links|
    requires env.navigate(1 + crawl.examined, env.startUrl).Loaded?
    ensures Pipeline(env) == Finish([env.startUrl] + links[..crawl.examined] + [env.startUrl], crawl.found, env)
  {
    InsertAllEmpty(PageCandidates(env.navigate(0, env.startUrl).page, env.api.resolve));
  }

  /**
   * A start page with one anchor `href="/docs/report.pdf"`, served as a
   * non-empty PDF: one navigation, one candidate, saved as `1-report.pdf`,
   * and the run passes.
   */
  lemma DirectHit(env: Env, pageUrl: string, u: string, size: nat)
    requires env.navigate(0, env.startUrl) == Loaded(Page(pageUrl, [Anchor("/docs/report.pdf", "", "")]))
    requires env.api.resolve("/docs/report.pdf", pageUrl) == Some(u) && u != ""
    requires env.api.pathname(u) == "/docs/report.pdf"
    requires env.get(u) == Done(Response(true, 200, "application/pdf", Done(size))) && size > 0
    requires env.write("1-report.pdf") == WriteOk
    ensures Pipeline(env) == Finished([env.startUrl], [u], [Saved("1-report.pdf", size)], 1, true)
  {
    var start := Page(pageUrl, [Anchor("/docs/report.pdf", "", "")]);
    assert PageCandidates(start, env.api.resolve) == [u] by {
      assert "/docs/report.pdf" == "/docs/report" + ".pdf";
      MarkerSuffix("/docs/report", ".pdf");
      SingleHrefPage(start, "/docs/report.pdf", env.api.resolve);
    }
    assert Pipeline(env) == Finish([env.startUrl], [u], env) by {
      InsertOne(u);
      RunWithoutCrawl(env, [u]);
    }
    assert Finish([env.startUrl], [u], env) == Finished([env.startUrl], [u], [Saved("1-report.pdf", size)], 1, true) by {
      ReportFileName();
      SingleSave(u, env, size);
    }
  }

  /** The start page of the fallback scenario gives no candidate and the single link `n`. */
  lemma NoticesLink(env: Env, start: Page, n: string)
    requires start.anchors == [Anchor("/notices", "", "")]
    requires env.api.resolve("/notices", start.url) == Some(n) && n != ""
    requires env.api.origin(n) == env.api.origin(env.startUrl)
    ensures PageCandidates(start, env.api.resolve) == []
    ensures LinksOf(start, env) == [n]
  {
    NoticesHasNoMarker();
    SingleHrefPage(start, "/notices", env.api.resolve);
    assert ["/notices"][..0] == [] && [n][..0] == [];
    assert ResolvedLinks(["/notices"], start.url, env.api.resolve) == [n];
    InsertOne(n);
    assert SameOrigin([n], env.api.origin(env.startUrl), env.api.origin) == [n];
  }

  /** Crawling the single link `n`, whose page yields `x`, stops after it with `x` found. */
  lemma NoticesCrawl(env: Env, n: string, x: string)
    requires env.navigate(1, n) == Loaded(Page(n, [Anchor("files/x.PDF", "", "")]))
    requires env.api.resolve("files/x.PDF", n) == Some(x) && x != ""
    ensures Crawl([], [n], 1, env.navigate, ScanWith(env.api.resolve)) == CrawlResult([x], 1)
  {
    var notices := Page(n, [Anchor("files/x.PDF", "", "")]);
    MarkerIgnoresCase();
    SingleHrefPage(notices, "files/x.PDF", env.api.resolve);
    assert PageCandidates(notices, env.api.resolve) == [x];
    InsertOne(x);
  }

  /** The navigations of a crawl that stopped at its one link `n`: there and back. */
  lemma ThereAndBack(s: string, n: string)
    ensures [s] + [n][..1] + [s] == [s, n, s]
  {
    assert [n][..1] == [n];
  }

  lemma FallbackHitRun(env: Env, startPageUrl: string, n: string, x: string)
    requires env.navigate(0, env.startUrl) == Loaded(Page(startPageUrl, [Anchor("/notices", "", "")]))
    requires env.api.resolve("/notices", startPageUrl) == Some(n) && n != ""
    requires env.api.origin(n) == env.api.origin(env.startUrl)
    requires env.navigate(1, n) == Loaded(Page(n, [Anchor("files/x.PDF", "", "")]))
    requires env.api.resolve("files/x.PDF", n) == Some(x) && x != ""
    requires env.navigate(2, env.startUrl).Loaded?
    ensures Pipeline(env) == Finish([env.startUrl, n, env.startUrl], [x], env)
  {
    var start := Page(startPageUrl, [Anchor("/notices", "", "")]);
    assert StartPageEmpty(env) && LinksOf(start, env) == [n] by {
      NoticesLink(env, start, n);
    }
    assert Crawl([], [n], 1, env.navigate, ScanWith(env.api.resolve)) == CrawlResult([x], 1) by {
      NoticesCrawl(env, n, x);
    }
    ThereAndBack(env.startUrl, n);
    RunWithCrawl(env, [n], CrawlResult([x], 1));
  }

  /**
   * A start page with no candidate but a same-origin link `/notices`, whose
   * page carries `href="files/x.PDF"`: the fallback visits `/notices`, finds
   * the upper-case marker, stops, returns to the start URL, and the file
   * is saved.
   */
  lemma FallbackHit(env: Env, startPageUrl: string, n: string, x: string, size: nat)
    requires env.navigate(0, env.startUrl) == Loaded(Page(startPageUrl, [Anchor("/notices", "", "")]))
    requires env.api.resolve("/notices", startPageUrl) == Some(n) && n != ""
    requires env.api.origin(n) == env.api.origin(env.startUrl)
    requires env.navigate(1, n) == Loaded(Page(n, [Anchor("files/x.PDF", "", "")]))
    requires env.api.resolve("files/x.PDF", n) == Some(x) && x != ""
    requires env.navigate(2, env.startUrl).Loaded?
    requires env.get(x) == Done(Response(true, 200, "application/pdf", Done(size))) && size > 0
    requires env.write(FileName(0, env.api.pathname(x))) == WriteOk
    ensures var r := Pipeline(env);
      && r.Finished? && r.gotos == [env.startUrl, n, env.startUrl]
      && r.pdfLinks == [x] && r.log == [Saved(FileName(0, env.api.pathname(x)), size)]
      && r.downloaded == 1 && r.passed
  {
    FallbackHitRun(env, startPageUrl, n, x);
    SingleSave(x, env, size);
  }
}
