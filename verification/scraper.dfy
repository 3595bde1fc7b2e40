/** The body of `main` (main.go:30-44): extract the PDF URLs from the rendered
    page, drop duplicates, and hand every URL that passes `isUrlValid` and
    `hasDomain` to `downloadPDF`, one after the other, threading the output
    directory through. The two URL checks wrap Go's `net/url` parser and are
    parameters here; so is the outside world each download meets. */
module Scraper {
  import opened Text
  import opened Extractor
  import opened Duplicates
  import opened Download

  /** One call of `downloadPDF`: the URL, the file name it saves under, and
      how the call ended. */
  datatype Attempt = Attempt(url: string, name: string, outcome: Outcome)

  datatype Run = Run(attempts: seq<Attempt>, dir: Dir)

  /** The URL checks of main.go:35-42, as uninterpreted predicates. */
  datatype Checks = Checks(isUrlValid: string -> bool, hasDomain: string -> bool)

  predicate Eligible(checks: Checks, u: string)
  {
    checks.isUrlValid(u) && checks.hasDomain(u)
  }

  /** The URLs handed to `downloadPDF`, as a plain filter. */
  function EligibleUrls(urls: seq<string>, checks: Checks): seq<string>
  {
    if |urls| == 0 then []
    else if Eligible(checks, urls[0]) then [urls[0]] + EligibleUrls(urls[1..], checks)
    else EligibleUrls(urls[1..], checks)
  }

  function UrlsOf(attempts: seq<Attempt>): seq<string>
  {
    seq(|attempts|, k requires 0 <= k < |attempts| => attempts[k].url)
  }

  /** The `for` loop of main.go:34-44 over `urls`, starting from `dir`, with
      the file name of each URL given by `nameOf`; `net(u)` is what the
      download of `u` meets. The facts about the loop hold for any naming. */
  function Loop(urls: seq<string>, dir: Dir, checks: Checks, net: string -> Env, nameOf: string -> string): Run
  {
    if |urls| == 0 then Run([], dir)
    else
      var u := urls[0];
      if !Eligible(checks, u) then Loop(urls[1..], dir, checks, net, nameOf)
      else
        var step := SaveAs(nameOf(u), dir, net(u));
        var rest := Loop(urls[1..], step.dir, checks, net, nameOf);
        Run([Attempt(u, nameOf(u), step.outcome)] + rest.attempts, rest.dir)
  }

  /** The loop as `main` runs it: each URL goes through `downloadPDF`, which
      saves under `TargetName`. */
  function Process(urls: seq<string>, dir: Dir, checks: Checks, net: string -> Env): Run
  {
    Loop(urls, dir, checks, net, TargetName)
  }

  /** The URLs `main` works through, given the rendered page (empty when
      scraping failed). */
  function PdfUrls(page: string): seq<string>
  {
    Dedup(ExtractPdfUrls(page))
  }

  /** `main` after scraping. */
  function ScrapeAndDownload(page: string, dir: Dir, checks: Checks, net: string -> Env): Run
  {
    Process(PdfUrls(page), dir, checks, net)
  }

  /** `main` with the corrected file naming of `TargetNameIntended`. */
  function ScrapeAndDownloadIntended(page: string, dir: Dir, checks: Checks, net: string -> Env): Run
  {
    Loop(PdfUrls(page), dir, checks, net, TargetNameIntended)
  }

  // ---------------------------------------------------------------------------
  // Which URLs are attempted.

  /** The loop calls `downloadPDF` for exactly the URLs passing both checks,
      in list order. */
  lemma {:induction false} ProcessAttemptsEligible(urls: seq<string>, dir: Dir, checks: Checks, net: string -> Env, nameOf: string -> string)
    ensures UrlsOf(Loop(urls, dir, checks, net, nameOf).attempts) == EligibleUrls(urls, checks)
    decreases |urls|
  {
    if |urls| > 0 {
      var u := urls[0];
      if Eligible(checks, u) {
        var name := nameOf(u);
        var step := SaveAs(name, dir, net(u));
        var rest := Loop(urls[1..], step.dir, checks, net, nameOf);
        assert Loop(urls, dir, checks, net, nameOf).attempts == [Attempt(u, name, step.outcome)] + rest.attempts;
        ProcessAttemptsEligible(urls[1..], step.dir, checks, net, nameOf);
        UrlsOfCons(Attempt(u, name, step.outcome), rest.attempts);
      } else {
        ProcessAttemptsEligible(urls[1..], dir, checks, net, nameOf);
      }
    }
  }

  lemma UrlsOfCons(a: Attempt, rest: seq<Attempt>)
    ensures UrlsOf([a] + rest) == [a.url] + UrlsOf(rest)
  {
  }

  /** Filtering keeps exactly the eligible elements and never creates a duplicate. */
  lemma {:induction false} EligibleUrlsSpec(urls: seq<string>, checks: Checks)
    ensures forall u :: u in EligibleUrls(urls, checks) <==> u in urls && Eligible(checks, u)
    ensures NoDuplicates(urls) ==> NoDuplicates(EligibleUrls(urls, checks))
    decreases |urls|
  {
    if |urls| > 0 {
      EligibleUrlsSpec(urls[1..], checks);
      assert urls == [urls[0]] + urls[1..];
      if NoDuplicates(urls) {
        assert NoDuplicates(urls[1..]);
        assert urls[0] !in urls[1..];
      }
    }
  }

  /** `main` downloads each distinct, eligible URL of the page exactly once, and
      nothing else. */
  lemma MainAttemptsEachUrlOnce(page: string, dir: Dir, checks: Checks, net: string -> Env)
    ensures var urls := UrlsOf(ScrapeAndDownload(page, dir, checks, net).attempts);
            && urls == EligibleUrls(PdfUrls(page), checks)
            && NoDuplicates(urls)
            && forall u :: u in urls <==> u in ExtractPdfUrls(page) && Eligible(checks, u)
  {
    ProcessAttemptsEligible(PdfUrls(page), dir, checks, net, TargetName);
    DedupNoDuplicates(ExtractPdfUrls(page));
    DedupElements(ExtractPdfUrls(page));
    EligibleUrlsSpec(PdfUrls(page), checks);
  }

  // ---------------------------------------------------------------------------
  // What the loop does to the output directory.

  /** Some attempt saves under the name `n`. */
  predicate Targets(attempts: seq<Attempt>, n: string)
  {
    exists k :: 0 <= k < |attempts| && attempts[k].name == n
  }

  /** Entries no attempt targets are left as they were. */
  lemma {:induction false} ProcessKeepsUntargeted(urls: seq<string>, dir: Dir, checks: Checks, net: string -> Env, nameOf: string -> string)
    ensures var r := Loop(urls, dir, checks, net, nameOf);
            forall n :: !Targets(r.attempts, n) ==> Lookup(r.dir, n) == Lookup(dir, n)
    decreases |urls|
  {
    if |urls| > 0 {
      var u := urls[0];
      if Eligible(checks, u) {
        var name := nameOf(u);
        var step := SaveAs(name, dir, net(u));
        var rest := Loop(urls[1..], step.dir, checks, net, nameOf);
        var r := Loop(urls, dir, checks, net, nameOf);
        assert r.attempts == [Attempt(u, name, step.outcome)] + rest.attempts && r.dir == rest.dir;
        ProcessKeepsUntargeted(urls[1..], step.dir, checks, net, nameOf);
        OnlyTargetTouched(name, dir, net(u));
        forall n | !Targets(r.attempts, n) ensures Lookup(r.dir, n) == Lookup(dir, n) {
          assert r.attempts[0].url == u;
          assert !Targets(rest.attempts, n) by {
            forall k | 0 <= k < |rest.attempts| ensures rest.attempts[k].name != n {
              assert rest.attempts[k] == r.attempts[k + 1];
            }
          }
        }
      } else {
        ProcessKeepsUntargeted(urls[1..], dir, checks, net, nameOf);
      }
    }
  }

  /** Files that exist before the loop are never changed by it. */
  lemma {:induction false} ProcessKeepsFiles(urls: seq<string>, dir: Dir, checks: Checks, net: string -> Env, nameOf: string -> string)
    ensures var r := Loop(urls, dir, checks, net, nameOf);
            forall n :: FileExists(dir, n) ==> Lookup(r.dir, n) == Lookup(dir, n)
    decreases |urls|
  {
    if |urls| > 0 {
      var u := urls[0];
      if Eligible(checks, u) {
        var name := nameOf(u);
        var step := SaveAs(name, dir, net(u));
        ProcessKeepsFiles(urls[1..], step.dir, checks, net, nameOf);
        OnlyTargetTouched(name, dir, net(u));
      } else {
        ProcessKeepsFiles(urls[1..], dir, checks, net, nameOf);
      }
    }
  }

  /** A URL whose file exists before the loop is skipped. */
  lemma ProcessSkipsExisting(urls: seq<string>, dir: Dir, checks: Checks, net: string -> Env, nameOf: string -> string)
    ensures var r := Loop(urls, dir, checks, net, nameOf);
            forall k :: 0 <= k < |r.attempts| && FileExists(dir, r.attempts[k].name) ==>
              r.attempts[k].outcome == Skipped
  {
    var r := Loop(urls, dir, checks, net, nameOf);
    forall k | 0 <= k < |r.attempts| && FileExists(dir, r.attempts[k].name)
      ensures r.attempts[k].outcome == Skipped
    {
      SkipsExistingAt(urls, dir, checks, net, nameOf, k);
    }
  }

  lemma {:induction false} SkipsExistingAt(urls: seq<string>, dir: Dir, checks: Checks, net: string -> Env,
                                          nameOf: string -> string, k: nat)
    requires k < |Loop(urls, dir, checks, net, nameOf).attempts|
    requires FileExists(dir, Loop(urls, dir, checks, net, nameOf).attempts[k].name)
    ensures Loop(urls, dir, checks, net, nameOf).attempts[k].outcome == Skipped
    decreases |urls|
  {
    var u := urls[0];
    var r := Loop(urls, dir, checks, net, nameOf);
    if Eligible(checks, u) {
      var name := nameOf(u);
      var step := SaveAs(name, dir, net(u));
      var rest := Loop(urls[1..], step.dir, checks, net, nameOf);
      assert r.attempts == [Attempt(u, name, step.outcome)] + rest.attempts;
      if k == 0 {
        SkipIffFileExists(name, dir, net(u), net(u));
      } else {
        var n := rest.attempts[k - 1].name;
        assert r.attempts[k] == rest.attempts[k - 1];
        OnlyTargetTouched(name, dir, net(u));
        assert Lookup(step.dir, n) == Lookup(dir, n);
        SkipsExistingAt(urls[1..], step.dir, checks, net, nameOf, k - 1);
      }
    } else {
      assert r == Loop(urls[1..], dir, checks, net, nameOf);
      SkipsExistingAt(urls[1..], dir, checks, net, nameOf, k);
    }
  }

  /** Every successful download's file is still there at the end, holding the
      body that was downloaded. `LaterSameNameSkipped` gives the reason: a
      later URL with the same file name is skipped rather than overwriting it. */
  lemma ProcessKeepsDownloads(urls: seq<string>, dir: Dir, checks: Checks, net: string -> Env, nameOf: string -> string)
    ensures var r := Loop(urls, dir, checks, net, nameOf);
            forall k :: 0 <= k < |r.attempts| && r.attempts[k].outcome.Done? ==>
              Lookup(r.dir, r.attempts[k].name) == Some(File(net(r.attempts[k].url).body))
  {
    var r := Loop(urls, dir, checks, net, nameOf);
    forall k | 0 <= k < |r.attempts| && r.attempts[k].outcome.Done?
      ensures Lookup(r.dir, r.attempts[k].name) == Some(File(net(r.attempts[k].url).body))
    {
      KeepsDownloadAt(urls, dir, checks, net, nameOf, k);
    }
  }

  lemma {:induction false} KeepsDownloadAt(urls: seq<string>, dir: Dir, checks: Checks, net: string -> Env,
                                          nameOf: string -> string, k: nat)
    requires k < |Loop(urls, dir, checks, net, nameOf).attempts|
    requires Loop(urls, dir, checks, net, nameOf).attempts[k].outcome.Done?
    ensures var r := Loop(urls, dir, checks, net, nameOf);
            Lookup(r.dir, r.attempts[k].name) == Some(File(net(r.attempts[k].url).body))
    decreases |urls|
  {
    var u := urls[0];
    var r := Loop(urls, dir, checks, net, nameOf);
    if Eligible(checks, u) {
      var name := nameOf(u);
      var step := SaveAs(name, dir, net(u));
      var rest := Loop(urls[1..], step.dir, checks, net, nameOf);
      assert r.attempts == [Attempt(u, name, step.outcome)] + rest.attempts && r.dir == rest.dir;
      if k == 0 {
        DoneSavesBody(name, dir, net(u));
        assert FileExists(step.dir, name);
        ProcessKeepsFiles(urls[1..], step.dir, checks, net, nameOf);
        assert Lookup(rest.dir, name) == Lookup(step.dir, name);
      } else {
        assert r.attempts[k] == rest.attempts[k - 1];
        KeepsDownloadAt(urls[1..], step.dir, checks, net, nameOf, k - 1);
      }
    } else {
      assert r == Loop(urls[1..], dir, checks, net, nameOf);
      KeepsDownloadAt(urls[1..], dir, checks, net, nameOf, k);
    }
  }

  /** Once an attempt has saved a file, every later attempt with the same
      file name is skipped: a download is never overwritten within a run. */
  lemma {:induction false} LaterSameNameSkipped(urls: seq<string>, dir: Dir, checks: Checks, net: string -> Env,
                                                nameOf: string -> string, j: nat, k: nat)
    requires j < k < |Loop(urls, dir, checks, net, nameOf).attempts|
    requires Loop(urls, dir, checks, net, nameOf).attempts[j].outcome.Done?
    requires Loop(urls, dir, checks, net, nameOf).attempts[j].name == Loop(urls, dir, checks, net, nameOf).attempts[k].name
    ensures Loop(urls, dir, checks, net, nameOf).attempts[k].outcome == Skipped
    decreases |urls|
  {
    var u := urls[0];
    var r := Loop(urls, dir, checks, net, nameOf);
    if Eligible(checks, u) {
      var name := nameOf(u);
      var step := SaveAs(name, dir, net(u));
      var rest := Loop(urls[1..], step.dir, checks, net, nameOf);
      assert r.attempts == [Attempt(u, name, step.outcome)] + rest.attempts;
      assert r.attempts[k] == rest.attempts[k - 1];
      if j == 0 {
        DoneSavesBody(name, dir, net(u));
        assert FileExists(step.dir, rest.attempts[k - 1].name);
        SkipsExistingAt(urls[1..], step.dir, checks, net, nameOf, k - 1);
      } else {
        assert r.attempts[j] == rest.attempts[j - 1];
        LaterSameNameSkipped(urls[1..], step.dir, checks, net, nameOf, j - 1, k - 1);
      }
    } else {
      assert r == Loop(urls[1..], dir, checks, net, nameOf);
      LaterSameNameSkipped(urls[1..], dir, checks, net, nameOf, j, k);
    }
  }

  /** Each attempt saves under the name its URL is given. */
  lemma {:induction false} AttemptNameAt(urls: seq<string>, dir: Dir, checks: Checks, net: string -> Env,
                                        nameOf: string -> string, k: nat)
    requires k < |Loop(urls, dir, checks, net, nameOf).attempts|
    ensures var a := Loop(urls, dir, checks, net, nameOf).attempts[k];
            a.name == nameOf(a.url)
    decreases |urls|
  {
    var u := urls[0];
    var r := Loop(urls, dir, checks, net, nameOf);
    if Eligible(checks, u) {
      var step := SaveAs(nameOf(u), dir, net(u));
      var rest := Loop(urls[1..], step.dir, checks, net, nameOf);
      assert r.attempts == [Attempt(u, nameOf(u), step.outcome)] + rest.attempts;
      if k > 0 {
        assert r.attempts[k] == rest.attempts[k - 1];
        AttemptNameAt(urls[1..], step.dir, checks, net, nameOf, k - 1);
      }
    } else {
      assert r == Loop(urls[1..], dir, checks, net, nameOf);
      AttemptNameAt(urls[1..], dir, checks, net, nameOf, k);
    }
  }

  // ---------------------------------------------------------------------------
  // `main` as a whole.

  /** Every file `main` tries to save is named `<stem>.pdf` for a sanitized
      stem: a real entry of the output directory, never the directory itself. */
  lemma MainSavesPdfNames(page: string, dir: Dir, checks: Checks, net: string -> Env, k: nat)
    requires k < |ScrapeAndDownload(page, dir, checks, net).attempts|
    ensures var a := ScrapeAndDownload(page, dir, checks, net).attempts[k];
            && a.name == TargetName(a.url)
            && HasSuffix(a.name, ".pdf")
            && '/' !in a.name
            && !NamesOutputDir(a.name)
  {
    var a := ScrapeAndDownload(page, dir, checks, net).attempts[k];
    AttemptNameAt(PdfUrls(page), dir, checks, net, TargetName, k);
    AttemptUrlIsPdf(page, dir, checks, net, TargetName, k);
    PdfNameIsEntry(a.url);
  }

  /** The same holds with the corrected naming. */
  lemma IntendedMainSavesPdfNames(page: string, dir: Dir, checks: Checks, net: string -> Env, k: nat)
    requires k < |ScrapeAndDownloadIntended(page, dir, checks, net).attempts|
    ensures var a := ScrapeAndDownloadIntended(page, dir, checks, net).attempts[k];
            && a.name == TargetNameIntended(a.url)
            && HasSuffix(a.name, ".pdf")
            && '/' !in a.name
            && !NamesOutputDir(a.name)
  {
    var a := ScrapeAndDownloadIntended(page, dir, checks, net).attempts[k];
    AttemptNameAt(PdfUrls(page), dir, checks, net, TargetNameIntended, k);
    AttemptUrlIsPdf(page, dir, checks, net, TargetNameIntended, k);
    IntendedPdfNameIsEntry(a.url);
  }

  /** Every URL the loop over the page's URLs attempts is one the extractor
      found, so it ends in ".pdf", whatever the naming. */
  lemma AttemptUrlIsPdf(page: string, dir: Dir, checks: Checks, net: string -> Env, nameOf: string -> string, k: nat)
    requires k < |Loop(PdfUrls(page), dir, checks, net, nameOf).attempts|
    ensures HasSuffix(Loop(PdfUrls(page), dir, checks, net, nameOf).attempts[k].url, ".pdf")
  {
    var r := Loop(PdfUrls(page), dir, checks, net, nameOf);
    var a := r.attempts[k];
    assert a.url in ExtractPdfUrls(page) by {
      ProcessAttemptsEligible(PdfUrls(page), dir, checks, net, nameOf);
      EligibleUrlsSpec(PdfUrls(page), checks);
      DedupElements(ExtractPdfUrls(page));
      assert UrlsOf(r.attempts)[k] == a.url;
    }
    var i :| 0 <= i < |ExtractPdfUrls(page)| && ExtractPdfUrls(page)[i] == a.url;
    ExtractedUrlShape(page, i);
  }

  /** Running `main` again on the same page skips every URL the first run
      downloaded, whatever the network does the second time. */
  lemma SecondRunSkipsDownloaded(page: string, dir: Dir, checks: Checks, net: string -> Env, again: string -> Env)
    ensures var first := ScrapeAndDownload(page, dir, checks, net);
            var second := ScrapeAndDownload(page, first.dir, checks, again);
            && UrlsOf(second.attempts) == UrlsOf(first.attempts)
            && forall k :: 0 <= k < |first.attempts| && first.attempts[k].outcome.Done? ==>
                 second.attempts[k].outcome == Skipped
  {
    var urls := PdfUrls(page);
    var first := ScrapeAndDownload(page, dir, checks, net);
    var second := ScrapeAndDownload(page, first.dir, checks, again);
    ProcessAttemptsEligible(urls, dir, checks, net, TargetName);
    ProcessAttemptsEligible(urls, first.dir, checks, again, TargetName);
    forall k | 0 <= k < |first.attempts| && first.attempts[k].outcome.Done?
      ensures second.attempts[k].outcome == Skipped
    {
      assert |UrlsOf(second.attempts)| == |UrlsOf(first.attempts)|;
      assert second.attempts[k].url == first.attempts[k].url by {
        assert UrlsOf(second.attempts)[k] == UrlsOf(first.attempts)[k];
      }
      AttemptNameAt(urls, dir, checks, net, TargetName, k);
      AttemptNameAt(urls, first.dir, checks, again, TargetName, k);
      KeepsDownloadAt(urls, dir, checks, net, TargetName, k);
      assert FileExists(first.dir, second.attempts[k].name);
      SkipsExistingAt(urls, first.dir, checks, again, TargetName, k);
    }
  }
}
