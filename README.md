# PDF harvester model

A Dafny model of the discovery and download pipeline in `sm.spec.js`. That file is a Playwright test. It loads a start page and collects every anchor string that mentions `.pdf`. It resolves those strings against the page URL and keeps each URL once, in first-seen order, in `pdfSet`. When the start page yields nothing, it crawls up to 25 same-origin links and stops after the first page that yields something. Then it downloads each candidate, skipping bad statuses, non-PDF responses and empty bodies, and saves each file as `<i+1>-<basename>`. The test passes when at least one file was saved.

The model keeps the source's shape:

- `pdfSet` is a class, `DedupSet.PdfSet`. It holds the iteration order (`seq<string>`) and the membership set. Its invariant says that they agree and that the order has no duplicates.
- The two scan loops, the crawl loop and the download loop are methods with loops. They are `Discovery.ScanPage`, `Fallback.FallbackCrawl` and `Download.DownloadAll`.
  - Each is proved against a specification function: `InsertAll`, `Crawl` and `Outcomes`/`SavedCount`.
  - The properties the source promises are proved about those functions as lemmas.
- The pure parts are functions with lemmas. These are the attribute filter, the link-selection chain, the skip chain and the file name.
- The whole test body is the method `Harvest.Run`. It is proved equal to the function `Harvest.Pipeline`, and the run-level properties are lemmas about `Pipeline`.

Everything outside the script is a parameter (`Harvest.Env`):

- **URL operations:** `new URL(u, base).href`, `.origin` and `.pathname` are uninterpreted functions (`Urls.UrlApi`). Resolution returns `None` where the constructor throws.
- **Navigation:** `page.goto` is a function of the call's ordinal and the URL. It returns the loaded page (its `page.url()` and its anchors) or a failure.
- **GET:** `page.request.get` returns a response record (ok, status, content type, body length) or a thrown error. Reading the body can throw too.
- **Write:** `fs.writeFile` is a function from file name to success or a thrown error.

Three behaviours of the code are easy to misread. The model follows the code:

- **Resolution base.** Link resolution uses `page.url()`, which is the URL actually loaded after any redirect, and not the start URL (sm.spec.js:29, 37, 49). The origin filter does compare against the start URL (sm.spec.js:38).
- **Pause after a download.** The pause follows only a successful save (sm.spec.js:89), not every item. Pauses are left out in any case.
- **Return to the start URL.** This navigation is outside any `try` (sm.spec.js:58). When it throws, the run ends, just as when the first navigation throws (sm.spec.js:10). Both cases give the report `Aborted`.

JavaScript truthiness is modelled exactly. `if (r)` at lines 30 and 50 and `.filter(Boolean)` at line 37 also drop a resolution to the empty string (`Urls.Truthy`).

## Model

| member | source | states |
|---|---|---|
| Text.ContainsIffOccurs | sm.spec.js:28 | `includes` holds exactly when the pattern occurs at some index. The recursive test is proved against a direct positional definition. |
| Text.ContainsInfix | sm.spec.js:28 | A string that has the pattern between a prefix and a suffix includes it. |
| Text.ContainsLength | sm.spec.js:28 | A string that includes a pattern is at least as long as the pattern. |
| Text.ContainsHead | sm.spec.js:28 | A string that includes a non-empty pattern contains the pattern's first character. This is how a string is shown to lack `.pdf`. |
| Text.Decimal | sm.spec.js:85 | The decimal rendering of a number is non-empty and all digits, with no leading zero for a positive number. |
| Text.DecimalRoundTrip | sm.spec.js:85 | Reading the decimal rendering back gives the number. |
| Text.DecimalInjective | sm.spec.js:85 | Distinct numbers render differently. |
| PosixPath.TrimTrailingSlashes | sm.spec.js:84 | The result is a prefix of the path that does not end in `/`. Only `/` characters were removed. |
| PosixPath.LastSegment | sm.spec.js:84 | The result is the longest suffix of the path without a `/`. |
| PosixPath.BaseNameShape | sm.spec.js:84 | `path.basename` never contains `/`. It is empty exactly when the path is all `/`, so the synthetic name is used exactly then. |
| PosixPath.BaseNameOfJoin | sm.spec.js:84 | The basename of `dir/name` followed by any number of `/` is `name`: trailing separators are ignored. |
| DedupSet.InsertAllExtends | sm.spec.js:24-30 | Adding a sequence of URLs never shrinks or reorders the set. The old order is a prefix of the new one, and the new order is at most that many entries longer. |
| DedupSet.InsertAllMembers | sm.spec.js:27-31 | After the additions, a URL is a member exactly when it was a member before or was added. |
| DedupSet.InsertAllNoDup | sm.spec.js:24-30 | Additions never create a duplicate. |
| DedupSet.InsertAllAbsorbs | sm.spec.js:30 | Adding only URLs that are already held changes nothing. |
| DedupSet.InsertAllEmpty | sm.spec.js:35 | Starting from an empty set, the result is empty exactly when nothing was added. |
| DedupSet.DedupIsSubseq | sm.spec.js:37 | `[...new Set(xs)]` is a subsequence of `xs`. |
| DedupSet.DedupFirstSeenOrder | sm.spec.js:37 | Iteration order is first-insertion order. A value listed earlier was first seen at an earlier index of the input. |
| DedupSet.DedupInFirstSeenOrder | sm.spec.js:37 | `[...new Set(xs)]` lists its values in the order of their first occurrences in `xs`. |
| DedupSet.FirstSeenPosition | sm.spec.js:37 | In a list in first-seen order, a value first seen earlier than another sits at an earlier position. |
| DedupSet.PdfSet.constructor | sm.spec.js:24 | `new Set()` is empty and satisfies the invariant. |
| DedupSet.PdfSet.Size | sm.spec.js:35 | `size` equals the number of URLs in iteration order. It is 0 exactly when the set is empty. The same test decides the crawl's stop at line 53. |
| DedupSet.PdfSet.Add | sm.spec.js:30 | `add`, here and at line 50, appends a new URL and leaves the order unchanged for one already held. Membership grows by exactly that URL, and the invariant is kept. |
| DedupSet.PdfSet.ToArray | sm.spec.js:61 | `Array.from` lists each member exactly once and nothing else. |
| Discovery.RawCandidates | sm.spec.js:15-22 | Every collected string is non-empty. |
| Discovery.RawCandidatesIff | sm.spec.js:15-22 | A string is collected exactly when it is a non-empty `href`, `data-href` or `onclick` of some anchor. |
| Discovery.MarkerNonEmpty | sm.spec.js:22-28 | A string with the `.pdf` marker has at least 4 characters, so the emptiness filter loses no candidate. |
| Discovery.MarkerSuffix | sm.spec.js:28 | A string ending in `.pdf`, in any mix of upper and lower case, carries the marker. |
| Discovery.CandidatesIff | sm.spec.js:27-31 | A URL is added by a scan exactly when it is non-empty and some collected string with the marker (in any case) resolves to it against the page URL, through `resolveUrl` at line 12. |
| Discovery.CandidatesAppend | sm.spec.js:27-31 | The scan works string by string. The scan of a concatenation is the concatenation of the scans, so a string that fails to resolve does not affect the strings after it. |
| Discovery.ScanStep | sm.spec.js:28-30 | One more scanned string adds its resolution when it has the marker and resolves to a truthy value. Otherwise it changes nothing. |
| Discovery.ScanPage | sm.spec.js:27-32 | The scan loop, here and at lines 47-52, leaves `pdfSet` equal to the old order with the page's candidates inserted in scan order. The invariant is kept. |
| Fallback.AnchorHrefs | sm.spec.js:36 | There is at most one seed per anchor. |
| Fallback.AnchorHrefsIff | sm.spec.js:36 | A string is a crawl seed exactly when it is the non-empty `href` of some anchor. Only `href` is read, not `data-href` or `onclick`. |
| Fallback.ResolvedLinksIff | sm.spec.js:37 | A URL is among the resolved links exactly when it is non-empty and some `href` resolves to it. |
| Fallback.SameOriginSpec | sm.spec.js:38 | The origin filter keeps, in order, exactly the links whose origin equals the given one. |
| Fallback.SameOriginKeepsOrder | sm.spec.js:38 | The origin filter keeps first-seen order. |
| Fallback.FallbackLinksSpec | sm.spec.js:36-39 | The list has these properties: at most 25 links; no duplicates; a subsequence of the resolved `href`s; every link on the start URL's origin and resolved from a start-page `href`. The links follow the order of their first occurrences among the resolved `href`s. The cut keeps the first ones: a same-origin resolution first seen before a kept link is kept too. When the list holds fewer than 25 links, every same-origin resolution is in it. |
| Fallback.FirstHitSpec | sm.spec.js:41-55 | Every link before the first hit yields nothing, either because navigation threw or because the page had no candidate. The hit, when there is one, yields something. |
| Fallback.CrawlFirstHit | sm.spec.js:41-55 | From an empty set, the crawl stops right after the first link that yields a candidate. The set then holds exactly that page's candidates, deduplicated. When there is no hit, all links are tried and the set stays empty. |
| Fallback.CrawlBounds | sm.spec.js:41-55 | The crawl tries at most the listed links, and the set it starts with is a prefix of the one it ends with. |
| Fallback.CrawlAdvance | sm.spec.js:42-54 | A link whose navigation throws, or whose scan leaves the set empty, hands the rest of the crawl to the following links. |
| Fallback.CrawlStop | sm.spec.js:53 | A scan that makes the set non-empty ends the crawl, with that link as the last one tried. |
| Fallback.FallbackCrawl | sm.spec.js:41-55 | The loop (`continue` on a failed `goto`, `break` once `size > 0`) leaves `pdfSet` and the number of links tried equal to the crawl specification. The invariant is kept. |
| Download.NumberedNamePrefix | sm.spec.js:85 | A saved name starts with the decimal of `i + 1` followed by `-`. |
| Download.NumberedNamesDistinct | sm.spec.js:85 | Names for distinct indices differ, whatever the base names. |
| Download.FileNameShape | sm.spec.js:84-85 | The name is the number, `-`, and a non-empty rest without `/`. The rest is `file-<i+1>.pdf` when the pathname is all `/`, and the pathname's basename otherwise. |
| Download.FileNamesDistinct | sm.spec.js:84-85 | Items at distinct indices never get the same file name, even when their URLs share a basename. |
| Download.DecideSpec | sm.spec.js:66-92 | Gives each outcome of one download, following the source's order of checks. |
| Download.Outcomes | sm.spec.js:65 | Every candidate gets exactly one outcome. |
| Download.SavedCountSnoc | sm.spec.js:88 | One more outcome raises the count by one exactly when it is a save. |
| Download.SavedCountAppend | sm.spec.js:88 | The count over two runs of items is the sum of their counts. |
| Download.BadStatusSkipped | sm.spec.js:68-72 | A response whose status lies outside 200-299, such as 404, is skipped with that status. It does not raise the counter, and every other item, before or after it, gets its own outcome. |
| Download.SavedCountSpec | sm.spec.js:88-99 | The counter never exceeds the number of items. It is positive exactly when some item was saved. |
| Download.SavedNamesDistinct | sm.spec.js:84-86 | No two saved files of a run share a name. |
| Download.DownloadAll | sm.spec.js:64-93 | The loop produces the outcomes of every item in order, whatever happened before. `downloaded` counts exactly the saves, never exceeds the number of items, and is positive exactly when some item was saved. |
| Harvest.Run | sm.spec.js:5-99 | The test body produces exactly the report of the run specification. That report covers the navigations made, the candidate list, every item's outcome, the counter and the verdict. |
| Harvest.FallbackOnlyWhenStartEmpty | sm.spec.js:35-58 | Every run opens with the start URL and navigates at most 27 times. It navigates more than once exactly when the start page loaded and yielded no candidate. |
| Harvest.FallbackReport | sm.spec.js:35-59 | When the fallback runs, the navigations are the start URL, the links tried in list order, and the start URL again. The candidate list is what the crawl found. |
| Harvest.FallbackRun | sm.spec.js:41-58 | When the fallback runs, it navigates to the links in order up to and including the first hit, then back to the start URL. The candidates are exactly the hit page's. With no hit it tries every link and downloads nothing. |
| Harvest.FinishedLinks | sm.spec.js:35-61 | A finished run's candidate list is the start page's when that is non-empty, and the crawl's otherwise. |
| Harvest.StartFoundDiscovered | sm.spec.js:27-31 | A candidate from the start page is a candidate of the page that the first navigation, to the start URL, loaded. |
| Harvest.CrawlFoundDiscovered | sm.spec.js:41-52 | A candidate from the crawl is a candidate of the page loaded by the navigation to one of the links the crawl tried (link `j`, navigation `1 + j`). |
| Harvest.CrawlFoundNoDup | sm.spec.js:41-52 | The crawl's candidates hold no URL twice. |
| Harvest.PdfLinksSound | sm.spec.js:24-61 | Each URL in the final candidate list appears once. Each is a candidate of a page that one of the run's own navigations loaded: the `c`-th navigation, to the `c`-th URL the run passed to `page.goto`. |
| Harvest.StartPageComplete | sm.spec.js:27-35 | A start-page string with the marker that resolves puts its URL in the candidate list. The list has no duplicates and the run makes no other navigation. |
| Harvest.RunCounts | sm.spec.js:64-99 | In a finished run: every candidate gets an outcome; `downloaded` is at most the candidate count; the run passes exactly when `downloaded > 0`, exactly when some item was saved; and saved names are distinct. |
| Scenarios.MarkerIgnoresCase | sm.spec.js:28 | `files/x.PDF` carries the marker. |
| Scenarios.NoticesHasNoMarker | sm.spec.js:28 | `/notices` does not carry the marker. |
| Scenarios.ContentTypeIsPdf | sm.spec.js:73-74 | `application/pdf` passes the content-type check. |
| Scenarios.SingleSave | sm.spec.js:64-93 | A single item with status 200, a PDF type and a non-empty body, whose write succeeds, is saved and counted once. |
| Scenarios.ReportFileName | sm.spec.js:84-85 | The first item at `/docs/report.pdf` is saved as `1-report.pdf`. |
| Scenarios.DirectHit | sm.spec.js:5-99 | A start page with one anchor `href="/docs/report.pdf"` that loads as a non-empty PDF gives this run: one navigation, one candidate, saved as `1-report.pdf`, counter 1, and the run passes. |
| Scenarios.FallbackHitRun | sm.spec.js:35-61 | A start page with no candidate and a same-origin link `/notices`, whose page carries `files/x.PDF`: the run navigates to the start URL, to `/notices` and back, and the candidate list is that one URL. |
| Scenarios.FallbackHit | sm.spec.js:5-99 | In that fallback scenario, the file is downloaded: counter 1, and the run passes. |

`Download.DecideSpec` gives these outcomes:

- A thrown GET fails the item with the error message.
- The item is skipped for its status exactly when the response is not ok. It is skipped with that status. `ok` is a field of the response; `Download.OkMatchesStatus` ties it to a status in 200-299, as Playwright defines it.
- The item is skipped as not a PDF exactly when neither the lower-cased content type contains `pdf` nor the lower-cased URL contains `.pdf`. A mislabelled response with a `.pdf` URL goes on.
- The item is skipped as empty exactly when it got that far and the body has length 0.
- A thrown body read fails the item with its message, and so does a thrown write.
- A "not a PDF" skip records the lower-cased content type.
- The item is saved exactly when it passes every check and the write succeeds. It is saved under `FileName(i, pathname)`, with the body's length.

## Left out

- The DOM extraction (`page.$$eval`) is a page value: its URL and its anchors in document order. The anchor list read at line 36 is taken to be the one scanned at line 27. Nothing navigates in between.
- Navigation options (`waitUntil: 'networkidle'`, the 30000 ms timeout) are left out. Navigation simply loads or fails.
- URL parsing, `.origin` and `.pathname` follow the WHATWG URL Standard and are uninterpreted functions. Nothing is proved that depends on their internals.
- `toLowerCase` folds ASCII letters only. Full Unicode case mapping is not modelled.
- `path.basename` follows POSIX semantics: `/` separator, trailing separators ignored. The Windows variant is not modelled.
- Response bodies are reduced to their length. The bytes written are not modelled.
- `fs.mkdir` (line 8) and the directory part of `path.join` (line 85) are left out. A write is reduced to an outcome for the file name, so a failing `mkdir` is not modelled.
- The throttling pauses (`waitForTimeout`, lines 54 and 89) are timing only and are left out.
- Console logging (lines 62, 67, 70, 75, 81, 87, 91, 95-98) is left out. The log message of a skip or error is kept in the outcome only where the source prints it.
- The Playwright `test` and `expect` runner is reduced to the `passed` field: `downloaded > 0`, line 99.
