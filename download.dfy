/**
 * The download loop: for each candidate, in order, fetch it, decide whether
 * to keep it, derive its file name and count the files written.
 */
module Download {
  import opened Text
  import opened PosixPath

  /** An environment call that either completes or throws. */
  datatype Attempt<+T> = Done(value: T) | Threw(message: string)

  /**
   * What `page.request.get(url)` returns: `ok()`, `status()`, the
   * `content-type` header (`""` when absent) and `body()`, which yields the
   * buffer's length or throws.
   */
  datatype Response = Response(ok: bool, status: int, contentType: string, body: Attempt<nat>)

  /** Playwright's `ok()`: true exactly for a status in the range 200-299. */
  predicate OkMatchesStatus(r: Response) {
    r.ok <==> 200 <= r.status <= 299
  }

  /** `fs.writeFile` of one file. */
  datatype WriteResult = WriteOk | WriteThrew(message: string)

  /** The result of one iteration: a logged skip, a save, or the error caught by the per-item `catch`. */
  datatype Outcome =
    | SkippedStatus(status: int)
    | SkippedNotPdf(contentType: string)
    | SkippedEmpty
    | Saved(fileName: string, bytes: nat)
    | Failed(message: string)

  /** `${i + 1}-${base || `file-${i + 1}.pdf`}`. */
  function NumberedName(i: nat, base: string): string {
    var n := Decimal(i + 1);
    n + "-" + (if base == "" then "file-" + n + ".pdf" else base)
  }

  /** The name item `i` is saved under, from its URL's pathname. */
  function FileName(i: nat, pathname: string): string {
    NumberedName(i, BaseName(pathname))
  }

  /**
   * The name is the item's number, a dash and a non-empty rest without a
   * separator, so it lands directly in the download directory; the rest is
   * the synthetic name exactly when the pathname is all separators.
   */
  lemma FileNameShape(i: nat, pathname: string)
    ensures var name, n := FileName(i, pathname), Decimal(i + 1);
      && |n| + 1 < |name| && name[..|n|] == n && name[|n|] == '-'
      && '/' !in name
      && (AllSlashes(pathname) ==> name[|n| + 1..] == "file-" + n + ".pdf")
      && (!AllSlashes(pathname) ==> name[|n| + 1..] == BaseName(pathname))
  {
    var n := Decimal(i + 1);
    var base := BaseName(pathname);
    BaseNameShape(pathname);
    assert '/' !in n by {
      forall k | 0 <= k < |n| ensures n[k] != '/' {
        assert IsDigit(n[k]);
      }
    }
    var rest := if base == "" then "file-" + n + ".pdf" else base;
    assert '/' !in rest;
    assert FileName(i, pathname) == NumberedName(i, base) == n + "-" + rest;
  }

  /** A run of digits ended by a dash is a prefix that can be read back in only one way. */
  lemma DigitPrefixUnique(a: string, b: string, x: string)
    requires forall k :: 0 <= k < |a| ==> IsDigit(a[k])
    requires forall k :: 0 <= k < |b| ==> IsDigit(b[k])
    requires |a| < |x| && x[..|a|] == a && x[|a|] == '-'
    requires |b| < |x| && x[..|b|] == b && x[|b|] == '-'
    ensures a == b
  {
  }

  lemma NumberedNamePrefix(i: nat, base: string)
    ensures var n, name := Decimal(i + 1), NumberedName(i, base);
      |n| < |name| && name[..|n|] == n && name[|n|] == '-'
  {
  }

  /** Distinct numbers give distinct names, whatever the base names. */
  lemma NumberedNamesDistinct(i: nat, j: nat, a: string, b: string)
    requires i != j
    ensures NumberedName(i, a) != NumberedName(j, b)
  {
    var x := NumberedName(i, a);
    if x == NumberedName(j, b) {
      NumberedNamePrefix(i, a);
      NumberedNamePrefix(j, b);
      DigitPrefixUnique(Decimal(i + 1), Decimal(j + 1), x);
      DecimalInjective(i + 1, j + 1);
    }
  }

  /** Distinct items never share a file name, even when their URLs share a base name. */
  lemma FileNamesDistinct(i: nat, j: nat, p: string, q: string)
    requires i != j
    ensures FileName(i, p) != FileName(j, q)
  {
    NumberedNamesDistinct(i, j, BaseName(p), BaseName(q));
  }

  /**
   * One iteration of the download loop.  The checks run in the source's
   * order: a thrown `get`, a non-ok status, a type that is neither labelled
   * nor named PDF, a thrown `body()`, an empty body, a thrown `writeFile`;
   * only an item that passes them all is saved.
   */
  function Decide(i: nat, url: string, fetched: Attempt<Response>, pathname: string, write: string -> WriteResult): Outcome
  {
    match fetched
    case Threw(m) => Failed(m)
    case Done(resp) =>
      if !resp.ok then SkippedStatus(resp.status)
      else
        var ct := Lower(resp.contentType);
        if !Contains(ct, "pdf") && !Contains(Lower(url), ".pdf") then SkippedNotPdf(ct)
        else
          match resp.body
          case Threw(m) => Failed(m)
          case Done(size) =>
            if size == 0 then SkippedEmpty
            else
              var name := FileName(i, pathname);
              match write(name)
              case WriteThrew(m) => Failed(m)
              case WriteOk => Saved(name, size)
  }

  /**
   * What each outcome means: a non-ok status is skipped with that status;
   * a response is skipped as not a PDF exactly when neither its type nor
   * its URL mentions PDF, and as empty exactly when it is a PDF with an
   * empty body; an item is saved exactly when it passes every check and
   * the write succeeds, under its numbered name and with its body's size.
   */
  lemma DecideSpec(i: nat, url: string, fetched: Attempt<Response>, pathname: string, write: string -> WriteResult)
    ensures var o := Decide(i, url, fetched, pathname, write);
      && (fetched.Threw? ==> o == Failed(fetched.message))
      && (o.SkippedStatus? <==> fetched.Done? && !fetched.value.ok)
      && (fetched.Done? && !fetched.value.ok ==> o == SkippedStatus(fetched.value.status))
      && (o.SkippedNotPdf? <==>
            fetched.Done? && fetched.value.ok
            && !Contains(Lower(fetched.value.contentType), "pdf") && !Contains(Lower(url), ".pdf"))
      && (o.SkippedEmpty? <==>
            fetched.Done? && fetched.value.ok && fetched.value.body == Done(0)
            && (Contains(Lower(fetched.value.contentType), "pdf") || Contains(Lower(url), ".pdf")))
      && (o.Saved? <==>
            && fetched.Done? && fetched.value.ok
            && (Contains(Lower(fetched.value.contentType), "pdf") || Contains(Lower(url), ".pdf"))
            && fetched.value.body.Done? && fetched.value.body.value > 0
            && write(FileName(i, pathname)) == WriteOk)
      && (o.Saved? ==> o.fileName == FileName(i, pathname) && o.bytes == fetched.value.body.value)
      && (o.SkippedNotPdf? ==> o.contentType == Lower(fetched.value.contentType))
      && (fetched.Done? && fetched.value.ok && !o.SkippedNotPdf? && fetched.value.body.Threw? ==>
            o == Failed(fetched.value.body.message))
      && (fetched.Done? && fetched.value.ok && !o.SkippedNotPdf? && fetched.value.body.Done?
          && fetched.value.body.value > 0 && write(FileName(i, pathname)).WriteThrew? ==>
            o == Failed(write(FileName(i, pathname)).message))
  {
  }

  /** The outcome of every item, item `i` having been fetched from `links[i]`. */
  function Outcomes(links: seq<string>, pathname: string -> string, get: string -> Attempt<Response>, write: string -> WriteResult): (os: seq<Outcome>)
    ensures |os| == |links|
  {
    seq(|links|, i requires 0 <= i < |links| => Decide(i, links[i], get(links[i]), pathname(links[i]), write))
  }

  /** How many outcomes are saves. */
  function SavedCount(os: seq<Outcome>): nat
    decreases |os|
  {
    if os == [] then 0 else SavedCount(os[..|os| - 1]) + (if os[|os| - 1].Saved? then 1 else 0)
  }

  /** Appending one outcome adds one to the count exactly when it is a save. */
  lemma SavedCountSnoc(os: seq<Outcome>, o: Outcome)
    ensures SavedCount(os + [o]) == SavedCount(os) + if o.Saved? then 1 else 0
  {
    assert (os + [o])[..|os|] == os;
  }

  /** The counter never exceeds the number of items, and is positive exactly when some item was saved. */
  lemma {:induction false} SavedCountSpec(os: seq<Outcome>)
    ensures SavedCount(os) <= |os|
    ensures SavedCount(os) > 0 <==> exists i :: 0 <= i < |os| && os[i].Saved?
    decreases |os|
  {
    if os != [] {
      var init := os[..|os| - 1];
      SavedCountSpec(init);
      assert forall i :: 0 <= i < |init| ==> init[i] == os[i];
    }
  }

  /** The count over two runs of items is the sum of their counts. */
  lemma {:induction false} SavedCountAppend(a: seq<Outcome>, b: seq<Outcome>)
    ensures SavedCount(a + b) == SavedCount(a) + SavedCount(b)
    decreases |b|
  {
    if b == [] {
      assert a + b == a;
    } else {
      var init, last := b[..|b| - 1], b[|b| - 1];
      assert b == init + [last];
      assert a + b == (a + init) + [last];
      SavedCountAppend(a, init);
      SavedCountSnoc(a + init, last);
      SavedCountSnoc(init, last);
    }
  }

  /**
   * A fetch answered with a status outside 200-299, such as 404, is
   * skipped with that status, adds nothing to the counter, and leaves
   * every other item's outcome as it would be on its own.
   */
  lemma BadStatusSkipped(links: seq<string>, pathname: string -> string, get: string -> Attempt<Response>, write: string -> WriteResult, i: nat)
    requires i < |links| && get(links[i]).Done? && OkMatchesStatus(get(links[i]).value)
    requires !(200 <= get(links[i]).value.status <= 299)
    ensures var os := Outcomes(links, pathname, get, write);
      && os[i] == SkippedStatus(get(links[i]).value.status)
      && SavedCount(os[..i + 1]) == SavedCount(os[..i])
      && SavedCount(os) == SavedCount(os[..i]) + SavedCount(os[i + 1..])
      && forall j :: 0 <= j < |links| && j != i ==> os[j] == Decide(j, links[j], get(links[j]), pathname(links[j]), write)
  {
    var os := Outcomes(links, pathname, get, write);
    DecideSpec(i, links[i], get(links[i]), pathname(links[i]), write);
    assert os[..i + 1] == os[..i] + [os[i]];
    SavedCountSnoc(os[..i], os[i]);
    assert os == os[..i + 1] + os[i + 1..];
    SavedCountAppend(os[..i + 1], os[i + 1..]);
  }

  /** No two saved files of a run share a name. */
  lemma SavedNamesDistinct(links: seq<string>, pathname: string -> string, get: string -> Attempt<Response>, write: string -> WriteResult)
    ensures var os := Outcomes(links, pathname, get, write);
      forall i, j :: 0 <= i < j < |os| && os[i].Saved? && os[j].Saved? ==> os[i].fileName != os[j].fileName
  {
    var os := Outcomes(links, pathname, get, write);
    forall i, j | 0 <= i < j < |os| && os[i].Saved? && os[j].Saved?
      ensures os[i].fileName != os[j].fileName
    {
      DecideSpec(i, links[i], get(links[i]), pathname(links[i]), write);
      DecideSpec(j, links[j], get(links[j]), pathname(links[j]), write);
      FileNamesDistinct(i, j, pathname(links[i]), pathname(links[j]));
    }
  }

  /**
   * The download loop: every item is tried whatever happened to the ones
   * before it, and `downloaded` goes up once per saved file.
   */
  method DownloadAll(pdfLinks: seq<string>, pathname: string -> string, get: string -> Attempt<Response>, write: string -> WriteResult)
    returns (downloaded: nat, log: seq<Outcome>)
    ensures log == Outcomes(pdfLinks, pathname, get, write)
    ensures downloaded == SavedCount(log)
    ensures downloaded <= |pdfLinks|
    ensures downloaded > 0 <==> exists i :: 0 <= i < |log| && log[i].Saved?
  {
    ghost var os := Outcomes(pdfLinks, pathname, get, write);
    downloaded := 0;
    log := [];
    for i := 0 to |pdfLinks|
      invariant log == os[..i]
      invariant downloaded == SavedCount(log)
    {
      var url := pdfLinks[i];
      var outcome := Decide(i, url, get(url), pathname(url), write);
      assert os[..i + 1] == log + [outcome];
      SavedCountSnoc(log, outcome);
      log := log + [outcome];
      if outcome.Saved? {
        downloaded := downloaded + 1;
      }
    }
    assert os[..|pdfLinks|] == os;
    SavedCountSpec(log);
  }
}
