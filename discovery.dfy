/**
 * Candidate discovery on one rendered page: the raw strings the anchors
 * carry, the `.pdf` marker filter, resolution against the page URL, and the
 * scan that adds the survivors to `pdfSet`.
 */
module Discovery {
  import opened Wrappers
  import opened Text
  import opened Urls
  import opened DedupSet

  /** An `<a>` element; an absent attribute reads as `""` (`getAttribute(..) || ''`). */
  datatype Anchor = Anchor(href: string, dataHref: string, onclick: string)

  /** A loaded page: `page.url()` after navigation, and its anchors in document order. */
  datatype Page = Page(url: string, anchors: seq<Anchor>)

  /** `[href, dataHref, onclick].filter(Boolean)` for one anchor. */
  function AnchorStrings(a: Anchor): seq<string> {
    (if a.href != "" then [a.href] else [])
    + (if a.dataHref != "" then [a.dataHref] else [])
    + (if a.onclick != "" then [a.onclick] else [])
  }

  /** `collectCandidates()`: the non-empty attribute strings of all anchors, anchor by anchor. */
  function RawCandidates(anchors: seq<Anchor>): (raws: seq<string>)
    ensures forall s :: s in raws ==> s != ""
    decreases |anchors|
  {
    if anchors == [] then []
    else RawCandidates(anchors[..|anchors| - 1]) + AnchorStrings(anchors[|anchors| - 1])
  }

  /** A string is collected exactly when it is a non-empty attribute of some anchor. */
  lemma {:induction false} RawCandidatesIff(anchors: seq<Anchor>, s: string)
    ensures s in RawCandidates(anchors) <==>
      s != "" && exists a :: a in anchors && (s == a.href || s == a.dataHref || s == a.onclick)
    decreases |anchors|
  {
    if anchors != [] {
      var init := anchors[..|anchors| - 1];
      RawCandidatesIff(init, s);
      assert anchors == init + [anchors[|anchors| - 1]];
    }
  }

  /** `raw.toLowerCase().includes('.pdf')`. */
  predicate HasPdfMarker(raw: string) {
    Contains(Lower(raw), ".pdf")
  }

  /** A string carrying the marker is never empty, so `filter(Boolean)` loses no candidate. */
  lemma MarkerNonEmpty(raw: string)
    requires HasPdfMarker(raw)
    ensures |raw| >= 4
  {
    ContainsLength(Lower(raw), ".pdf");
  }

  /** A string ending in `.pdf` in any mix of cases carries the marker. */
  lemma MarkerSuffix(stem: string, ext: string)
    requires Lower(ext) == ".pdf"
    ensures HasPdfMarker(stem + ext)
  {
    assert Lower(stem + ext) == Lower(stem) + ".pdf" + "";
    ContainsInfix(Lower(stem), ".pdf", "");
  }

  /** What one raw string contributes to `pdfSet`: its resolution, if it has the marker and resolves. */
  function Accept(raw: string, base: string, resolve: (string, string) -> Option<string>): seq<string> {
    if HasPdfMarker(raw) && Truthy(resolve(raw, base)) then [resolve(raw, base).value] else []
  }

  /** The URLs a scan adds, in scan order (duplicates included). */
  function Candidates(raws: seq<string>, base: string, resolve: (string, string) -> Option<string>): seq<string>
    decreases |raws|
  {
    if raws == [] then []
    else Candidates(raws[..|raws| - 1], base, resolve) + Accept(raws[|raws| - 1], base, resolve)
  }

  function PageCandidates(page: Page, resolve: (string, string) -> Option<string>): seq<string> {
    Candidates(RawCandidates(page.anchors), page.url, resolve)
  }

  /** The scan of one loaded page, as a value the crawl can be given. */
  function ScanWith(resolve: (string, string) -> Option<string>): Page -> seq<string> {
    page => PageCandidates(page, resolve)
  }

  /** A URL is a candidate exactly when some raw string with the marker resolves to it. */
  lemma {:induction false} CandidatesIff(raws: seq<string>, base: string, resolve: (string, string) -> Option<string>, u: string)
    ensures u in Candidates(raws, base, resolve) <==>
      u != "" && exists raw :: raw in raws && HasPdfMarker(raw) && resolve(raw, base) == Some(u)
    decreases |raws|
  {
    if raws != [] {
      var init := raws[..|raws| - 1];
      CandidatesIff(init, base, resolve, u);
      assert raws == init + [raws[|raws| - 1]];
    }
  }

  /** The scan is per string: a string that fails to resolve does not affect the strings after it. */
  lemma {:induction false} CandidatesAppend(xs: seq<string>, ys: seq<string>, base: string, resolve: (string, string) -> Option<string>)
    ensures Candidates(xs + ys, base, resolve) == Candidates(xs, base, resolve) + Candidates(ys, base, resolve)
    decreases |ys|
  {
    if ys == [] {
      assert xs + ys == xs;
    } else {
      var init, last := ys[..|ys| - 1], ys[|ys| - 1];
      var zs := xs + ys;
      assert Candidates(zs, base, resolve) == Candidates(xs + init, base, resolve) + Accept(last, base, resolve) by {
        assert zs[..|zs| - 1] == xs + init && zs[|zs| - 1] == last;
      }
      CandidatesAppend(xs, init, base, resolve);
    }
  }

  /** Scanning one more raw string adds its resolution, if it is accepted, and nothing otherwise. */
  lemma {:induction false} ScanStep(s: seq<string>, raws: seq<string>, i: nat, base: string, resolve: (string, string) -> Option<string>)
    requires i < |raws|
    ensures var before := InsertAll(s, Candidates(raws[..i], base, resolve));
      var r := resolve(raws[i], base);
      InsertAll(s, Candidates(raws[..i + 1], base, resolve)) ==
        if HasPdfMarker(raws[i]) && Truthy(r) then Insert(before, r.value) else before
  {
    var before := Candidates(raws[..i], base, resolve);
    assert raws[..i + 1][..i] == raws[..i];
    var now := before + Accept(raws[i], base, resolve);
    assert Candidates(raws[..i + 1], base, resolve) == now;
    if Accept(raws[i], base, resolve) == [] {
      assert now == before;
    } else {
      assert now[..|now| - 1] == before;
    }
  }

  /** The scan loop (one per page visited): every collected string is checked for the marker and, if kept, added. */
  method ScanPage(pdfSet: PdfSet, page: Page, resolve: (string, string) -> Option<string>)
    requires pdfSet.Valid()
    modifies pdfSet
    ensures pdfSet.Valid()
    ensures pdfSet.order == InsertAll(old(pdfSet.order), PageCandidates(page, resolve))
  {
    var raws := RawCandidates(page.anchors);
    for i := 0 to |raws|
      invariant pdfSet.Valid()
      invariant pdfSet.order == InsertAll(old(pdfSet.order), Candidates(raws[..i], page.url, resolve))
    {
      var raw := raws[i];
      ScanStep(old(pdfSet.order), raws, i, page.url, resolve);
      if HasPdfMarker(raw) {
        var r := resolve(raw, page.url);
        if r.Some? && r.value != "" {
          pdfSet.Add(r.value);
        }
      }
    }
    assert raws[..|raws|] == raws;
  }
}
