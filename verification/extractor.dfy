/** `extractPDFUrls`: every non-overlapping match of the regular expression
    `https?://[^\s'"]+\.pdf` in the rendered page, in order of position, under
    the leftmost-first rule of Go's `regexp` package. The expression is run as
    an explicit left-to-right scanner rather than a general regex engine. */
module Extractor {
  import opened Text

  /** A match occupying `t[start..end]`. */
  datatype Span = Span(start: nat, end: nat)

  /** The class `[^\s'"]`; in Go's syntax `\s` is `[\t\n\f\r ]`. */
  predicate IsUrlChar(c: char)
  {
    !(c == '\t' || c == '\n' || c == '\U{000C}' || c == '\r' || c == ' ' || c == '\'' || c == '"')
  }

  predicate AllUrlChars(w: string) { forall k :: 0 <= k < |w| ==> IsUrlChar(w[k]) }

  /** The language of the expression, stated without any scanning: a scheme
      `http://` or `https://`, at least one character of `[^\s'"]`, then
      `.pdf`. The scheme and `.pdf` characters are themselves in the class, so
      the whole word is. */
  predicate IsPdfUrl(w: string)
  {
    AllUrlChars(w) && HasSuffix(w, ".pdf") &&
    ((HasPrefix(w, "https://") && |w| >= 13) || (HasPrefix(w, "http://") && |w| >= 12))
  }

  /** A match of the expression lies at `t[i..e]`. */
  predicate MatchesAt(t: string, i: int, e: int)
  {
    0 <= i <= e <= |t| && IsPdfUrl(t[i..e])
  }

  /** `t[e-4..e]` is ".pdf". */
  predicate PdfEndsAt(t: string, e: int)
  {
    4 <= e <= |t| && t[e - 4..e] == ".pdf"
  }

  /** Length of the scheme `https?://` at `i`, or 0. The optional 's' is tried
      first, so "https://" is chosen whenever it is present. */
  function SchemeLength(t: string, i: nat): (n: nat)
    requires i <= |t|
    ensures n == 0 || n == 7 || n == 8
    ensures i + n <= |t|
  {
    if HasPrefix(t[i..], "https://") then 8
    else if HasPrefix(t[i..], "http://") then 7
    else 0
  }

  /** The end of the longest run of `[^\s'"]` characters starting at `p`. */
  function RunEnd(t: string, p: nat): (q: nat)
    requires p <= |t|
    ensures p <= q <= |t|
    ensures forall k :: p <= k < q ==> IsUrlChar(t[k])
    ensures q == |t| || !IsUrlChar(t[q])
    decreases |t| - p
  {
    if p == |t| || !IsUrlChar(t[p]) then p else RunEnd(t, p + 1)
  }

  /** The greedy `+` giving back characters: the largest `e` in `[lo, q]` at
      which ".pdf" ends, if any. */
  function LastPdfEnd(t: string, lo: nat, q: nat): (r: Option<nat>)
    requires q <= |t|
    ensures r.Some? ==> lo <= r.value <= q && PdfEndsAt(t, r.value)
    ensures forall e :: lo <= e <= q && PdfEndsAt(t, e) ==> r.Some? && e <= r.value
    decreases q
  {
    if q < lo || q < 4 then None
    else if t[q - 4..q] == ".pdf" then Some(q)
    else LastPdfEnd(t, lo, q - 1)
  }

  /** The end of the match the expression finds when started at `i`: after the
      scheme the character run is taken as long as possible and then cut back
      to its last ".pdf", keeping at least one character before it. */
  function MatchAt(t: string, i: nat): (r: Option<nat>)
    requires i <= |t|
    ensures r.Some? ==> i + 12 <= r.value <= |t|
  {
    var n := SchemeLength(t, i);
    if n == 0 then None else LastPdfEnd(t, i + n + 5, RunEnd(t, i + n))
  }

  /** `FindAllString(t[i..], -1)` as positions: try each start from left to
      right and resume after a match. */
  function Scan(t: string, i: nat): (spans: seq<Span>)
    requires i <= |t|
    ensures forall k :: 0 <= k < |spans| ==> i <= spans[k].start < spans[k].end <= |t|
    decreases |t| - i
  {
    if i == |t| then []
    else
      match MatchAt(t, i)
      case Some(e) => [Span(i, e)] + Scan(t, e)
      case None => Scan(t, i + 1)
  }

  /** `extractPDFUrls`: the matched texts, in order. */
  function ExtractPdfUrls(t: string): (urls: seq<string>)
  {
    var spans := Scan(t, 0);
    seq(|spans|, k requires 0 <= k < |spans| => t[spans[k].start..spans[k].end])
  }

  // ---------------------------------------------------------------------------
  // The declarative description of a correct answer.

  /** Every span is a match, and the longest one at its start. */
  ghost predicate SpansAreLongestMatches(t: string, spans: seq<Span>)
  {
    forall k :: 0 <= k < |spans| ==>
      MatchesAt(t, spans[k].start, spans[k].end) &&
      forall e :: MatchesAt(t, spans[k].start, e) ==> e <= spans[k].end
  }

  /** Spans are strictly increasing and do not overlap. */
  predicate SpansInOrder(spans: seq<Span>)
  {
    forall k :: 0 <= k < |spans| - 1 ==> spans[k].end <= spans[k + 1].start
  }

  /** Position `j` lies inside one of the spans. */
  predicate Covered(spans: seq<Span>, j: int)
  {
    exists k :: 0 <= k < |spans| && spans[k].start <= j < spans[k].end
  }

  /** Every position at which some match starts lies inside a span: the scan
      never skips a match except by consuming it as part of an earlier one. */
  ghost predicate EveryMatchCovered(t: string, spans: seq<Span>, from: int)
  {
    forall j, e :: from <= j && MatchesAt(t, j, e) ==> Covered(spans, j)
  }

  /** The leftmost-longest non-overlapping matches of `t`, from position `from` on. */
  ghost predicate LeftmostLongest(t: string, spans: seq<Span>, from: int)
  {
    SpansAreLongestMatches(t, spans) && SpansInOrder(spans) &&
    (forall k :: 0 <= k < |spans| ==> from <= spans[k].start) &&
    EveryMatchCovered(t, spans, from)
  }

  // ---------------------------------------------------------------------------
  // One match attempt.

  lemma SchemesAreUrlChars()
    ensures AllUrlChars("https://") && AllUrlChars("http://")
  {
  }

  /** What the attempt at `i` returns is a match starting at `i`. */
  lemma MatchAtSound(t: string, i: nat, e: nat)
    requires i <= |t| && MatchAt(t, i) == Some(e)
    ensures MatchesAt(t, i, e)
  {
    var n := SchemeLength(t, i);
    var p := i + n;
    var q := RunEnd(t, p);
    var w := t[i..e];
    var scheme := if n == 8 then "https://" else "http://";
    assert w[..n] == t[i..][..n];
    assert HasPrefix(w, scheme);
    assert w[|w| - 4..] == t[e - 4..e];
    SchemesAreUrlChars();
    forall k | 0 <= k < |w| ensures IsUrlChar(w[k]) {
      if k < n {
        assert w[k] == scheme[k];
      } else {
        assert w[k] == t[i + k];
      }
    }
  }

  /** Every match starting at `i` ends no later than the one the attempt at `i`
      returns; in particular the attempt fails only when no match starts at `i`. */
  lemma MatchAtLongest(t: string, i: nat, e: nat)
    requires MatchesAt(t, i, e)
    ensures MatchAt(t, i).Some? && e <= MatchAt(t, i).value
  {
    var w := t[i..e];
    var n := SchemeLength(t, i);
    if HasPrefix(w, "https://") && |w| >= 13 {
      assert t[i..][..8] == w[..8] by {
        forall k | 0 <= k < 8 ensures t[i..][..8][k] == w[..8][k] {
          assert w[k] == t[i + k];
        }
      }
      assert n == 8;
    } else {
      assert w[4] == ':';
      assert t[i..][..7] == w[..7] by {
        forall k | 0 <= k < 7 ensures t[i..][..7][k] == w[..7][k] {
          assert w[k] == t[i + k];
        }
      }
      assert t[i..][4] == w[4];
      assert n == 7;
    }
    assert |w| >= n + 5;
    var p := i + n;
    forall k | p <= k < e ensures IsUrlChar(t[k]) {
      assert t[k] == w[k - i];
    }
    assert e <= RunEnd(t, p);
    assert t[e - 4..e] == w[|w| - 4..];
    assert PdfEndsAt(t, e);
  }

  /** The attempt at `i` returns exactly the longest match starting at `i`,
      and nothing when there is none. */
  lemma MatchAtSpec(t: string, i: nat)
    requires i <= |t|
    ensures MatchAt(t, i).None? <==> forall e :: !MatchesAt(t, i, e)
    ensures MatchAt(t, i).Some? ==>
      MatchesAt(t, i, MatchAt(t, i).value) &&
      forall e :: MatchesAt(t, i, e) ==> e <= MatchAt(t, i).value
  {
    if MatchAt(t, i).Some? {
      MatchAtSound(t, i, MatchAt(t, i).value);
    }
    forall e | MatchesAt(t, i, e) ensures MatchAt(t, i).Some? && e <= MatchAt(t, i).value {
      MatchAtLongest(t, i, e);
    }
  }

  // ---------------------------------------------------------------------------
  // The whole scan.

  /** The scan from `i` produces exactly the leftmost-longest non-overlapping
      matches at or after `i`. */
  lemma {:induction false} ScanIsLeftmostLongest(t: string, i: nat)
    requires i <= |t|
    ensures LeftmostLongest(t, Scan(t, i), i)
    decreases |t| - i
  {
    if i == |t| {
      NothingAtEnd(t);
    } else {
      MatchAtSpec(t, i);
      match MatchAt(t, i)
      case Some(e) =>
        ScanIsLeftmostLongest(t, e);
        PrependLongest(t, i, e, Scan(t, e));
      case None =>
        ScanIsLeftmostLongest(t, i + 1);
        SkipNonMatch(t, i, Scan(t, i + 1));
    }
  }

  lemma NothingAtEnd(t: string)
    ensures LeftmostLongest(t, [], |t|)
  {
    forall j, e | |t| <= j ensures !MatchesAt(t, j, e) {
      if j <= e <= |t| {
        assert |t[j..e]| == 0;
      }
    }
  }

  /** No match starts at `i`, so an answer from `i + 1` is one from `i`. */
  lemma SkipNonMatch(t: string, i: nat, spans: seq<Span>)
    requires forall e :: !MatchesAt(t, i, e)
    requires LeftmostLongest(t, spans, i + 1)
    ensures LeftmostLongest(t, spans, i)
  {
    forall j, e | i <= j && MatchesAt(t, j, e) ensures Covered(spans, j) {
      assert j != i;
    }
  }

  /** The longest match at `i` followed by an answer from its end is an
      answer from `i`. */
  lemma PrependLongest(t: string, i: nat, e: nat, rest: seq<Span>)
    requires MatchesAt(t, i, e) && forall e' :: MatchesAt(t, i, e') ==> e' <= e
    requires LeftmostLongest(t, rest, e)
    ensures LeftmostLongest(t, [Span(i, e)] + rest, i)
  {
    PrependCoversAll(t, i, e, rest);
    PrependInOrder(i, e, rest);
    PrependMatches(t, i, e, rest);
  }

  lemma PrependCoversAll(t: string, i: nat, e: nat, rest: seq<Span>)
    requires i <= e && EveryMatchCovered(t, rest, e)
    ensures EveryMatchCovered(t, [Span(i, e)] + rest, i)
  {
    var spans := [Span(i, e)] + rest;
    forall j, e' | i <= j && MatchesAt(t, j, e') ensures Covered(spans, j) {
      if j < e {
        assert spans[0].start <= j < spans[0].end;
      } else {
        assert Covered(rest, j);
        PrependCovers(Span(i, e), rest, j);
      }
    }
  }

  lemma PrependInOrder(i: nat, e: nat, rest: seq<Span>)
    requires i <= e && SpansInOrder(rest)
    requires forall k :: 0 <= k < |rest| ==> e <= rest[k].start
    ensures SpansInOrder([Span(i, e)] + rest)
    ensures forall k :: 0 <= k < |rest| + 1 ==> i <= ([Span(i, e)] + rest)[k].start
  {
    var spans := [Span(i, e)] + rest;
    forall k | 0 <= k < |spans| - 1 ensures spans[k].end <= spans[k + 1].start {
      assert spans[k + 1] == rest[k];
      if k > 0 {
        assert spans[k] == rest[k - 1];
      }
    }
    forall k | 0 < k < |spans| ensures i <= spans[k].start {
      assert spans[k] == rest[k - 1];
    }
  }

  lemma PrependMatches(t: string, i: nat, e: nat, rest: seq<Span>)
    requires MatchesAt(t, i, e) && forall e' :: MatchesAt(t, i, e') ==> e' <= e
    requires SpansAreLongestMatches(t, rest)
    ensures SpansAreLongestMatches(t, [Span(i, e)] + rest)
  {
    var spans := [Span(i, e)] + rest;
    forall k | 0 < k < |spans|
      ensures MatchesAt(t, spans[k].start, spans[k].end)
      ensures forall e' :: MatchesAt(t, spans[k].start, e') ==> e' <= spans[k].end
    {
      assert spans[k] == rest[k - 1];
    }
  }

  lemma PrependCovers(s: Span, rest: seq<Span>, j: int)
    requires Covered(rest, j)
    ensures Covered([s] + rest, j)
  {
    var k :| 0 <= k < |rest| && rest[k].start <= j < rest[k].end;
    assert ([s] + rest)[k + 1] == rest[k];
  }

  /** Spans in order are ordered pairwise, not just neighbour by neighbour. */
  lemma {:induction false} InOrderTransitive(t: string, spans: seq<Span>, k: nat, l: nat)
    requires SpansAreLongestMatches(t, spans) && SpansInOrder(spans)
    requires k < l < |spans|
    ensures spans[k].end <= spans[l].start
    decreases l - k
  {
    if k + 1 < l {
      InOrderTransitive(t, spans, k + 1, l);
      assert MatchesAt(t, spans[k + 1].start, spans[k + 1].end);
    }
  }

  /** The first span of an answer starts at the first position where a match starts. */
  lemma FirstSpanIsLeftmost(t: string, spans: seq<Span>, from: int, j: int, e: int)
    requires LeftmostLongest(t, spans, from)
    requires from <= j && MatchesAt(t, j, e)
    ensures |spans| > 0 && spans[0].start <= j
  {
    assert Covered(spans, j);
    var k :| 0 <= k < |spans| && spans[k].start <= j < spans[k].end;
    if k > 0 {
      InOrderTransitive(t, spans, 0, k);
      assert MatchesAt(t, spans[0].start, spans[0].end);
    }
  }

  /** Dropping the first span leaves an answer from that span's end. */
  lemma TailIsLeftmostLongest(t: string, spans: seq<Span>, from: int)
    requires LeftmostLongest(t, spans, from) && |spans| > 0
    ensures LeftmostLongest(t, spans[1..], spans[0].end)
  {
    TailStartsAfterHead(t, spans);
    TailCovers(t, spans, from);
    TailMatches(t, spans);
    TailInOrder(spans);
  }

  lemma TailStartsAfterHead(t: string, spans: seq<Span>)
    requires SpansAreLongestMatches(t, spans) && SpansInOrder(spans) && |spans| > 0
    ensures forall k :: 0 <= k < |spans[1..]| ==> spans[0].end <= spans[1..][k].start
  {
    forall k | 0 <= k < |spans[1..]| ensures spans[0].end <= spans[1..][k].start {
      InOrderTransitive(t, spans, 0, k + 1);
    }
  }

  lemma TailCovers(t: string, spans: seq<Span>, from: int)
    requires EveryMatchCovered(t, spans, from) && |spans| > 0 && from <= spans[0].end
    ensures EveryMatchCovered(t, spans[1..], spans[0].end)
  {
    var rest := spans[1..];
    forall j, e | spans[0].end <= j && MatchesAt(t, j, e) ensures Covered(rest, j) {
      assert Covered(spans, j);
      var k :| 0 <= k < |spans| && spans[k].start <= j < spans[k].end;
      assert rest[k - 1] == spans[k];
    }
  }

  lemma TailMatches(t: string, spans: seq<Span>)
    requires SpansAreLongestMatches(t, spans) && |spans| > 0
    ensures SpansAreLongestMatches(t, spans[1..])
  {
    var rest := spans[1..];
    forall k | 0 <= k < |rest|
      ensures MatchesAt(t, rest[k].start, rest[k].end)
      ensures forall e :: MatchesAt(t, rest[k].start, e) ==> e <= rest[k].end
    {
      assert rest[k] == spans[k + 1];
    }
  }

  lemma TailInOrder(spans: seq<Span>)
    requires SpansInOrder(spans) && |spans| > 0
    ensures SpansInOrder(spans[1..])
  {
    var rest := spans[1..];
    forall k | 0 <= k < |rest| - 1 ensures rest[k].end <= rest[k + 1].start {
      assert rest[k] == spans[k + 1] && rest[k + 1] == spans[k + 2];
    }
  }

  /** An answer has a first span no later than the first span of any other answer. */
  lemma HeadNotAfter(t: string, a: seq<Span>, b: seq<Span>, from: int)
    requires LeftmostLongest(t, a, from) && LeftmostLongest(t, b, from) && |a| > 0
    ensures |b| > 0 && b[0].start <= a[0].start
  {
    assert from <= a[0].start && MatchesAt(t, a[0].start, a[0].end);
    FirstSpanIsLeftmost(t, b, from, a[0].start, a[0].end);
  }

  /** Two longest matches at the same start are the same span. */
  lemma SameStartSameSpan(t: string, x: Span, y: Span)
    requires x.start == y.start
    requires MatchesAt(t, x.start, x.end) && forall e :: MatchesAt(t, x.start, e) ==> e <= x.end
    requires MatchesAt(t, y.start, y.end) && forall e :: MatchesAt(t, y.start, e) ==> e <= y.end
    ensures x == y
  {
  }

  /** Two answers agree on whether there is any match, and on the first one. */
  lemma SameHead(t: string, a: seq<Span>, b: seq<Span>, from: int)
    requires LeftmostLongest(t, a, from) && LeftmostLongest(t, b, from)
    ensures |a| == 0 <==> |b| == 0
    ensures |a| > 0 ==> a[0] == b[0]
  {
    if |a| > 0 {
      HeadNotAfter(t, a, b, from);
      HeadNotAfter(t, b, a, from);
      assert SpansAreLongestMatches(t, a) && SpansAreLongestMatches(t, b);
      SameStartSameSpan(t, a[0], b[0]);
    } else if |b| > 0 {
      HeadNotAfter(t, b, a, from);
    }
  }

  /** There is only one leftmost-longest answer, so the declarative description
      pins the scan down completely. */
  lemma {:induction false} LeftmostLongestUnique(t: string, a: seq<Span>, b: seq<Span>, from: int)
    requires LeftmostLongest(t, a, from) && LeftmostLongest(t, b, from)
    ensures a == b
    decreases |a|
  {
    SameHead(t, a, b, from);
    if |a| > 0 {
      assert a[1..] == b[1..] by {
        TailIsLeftmostLongest(t, a, from);
        TailIsLeftmostLongest(t, b, from);
        LeftmostLongestUnique(t, a[1..], b[1..], a[0].end);
      }
      HeadTailEqual(a, b);
    }
  }

  lemma HeadTailEqual<T>(a: seq<T>, b: seq<T>)
    requires |a| > 0 && |b| > 0 && a[0] == b[0] && a[1..] == b[1..]
    ensures a == b
  {
    assert a == [a[0]] + a[1..] && b == [b[0]] + b[1..];
  }

  // ---------------------------------------------------------------------------
  // What `extractPDFUrls` returns.

  /** The scan of the whole page is the one leftmost-longest answer: any
      sequence of spans meeting the declarative description equals it. */
  lemma ScanIsTheAnswer(t: string, spans: seq<Span>)
    ensures LeftmostLongest(t, Scan(t, 0), 0)
    ensures LeftmostLongest(t, spans, 0) ==> spans == Scan(t, 0)
  {
    ScanIsLeftmostLongest(t, 0);
    if LeftmostLongest(t, spans, 0) {
      LeftmostLongestUnique(t, spans, Scan(t, 0), 0);
    }
  }

  /** Each returned URL is the text of the corresponding span: a substring of
      the page that matches the expression, taken at increasing,
      non-overlapping positions. */
  lemma ExtractedUrlsAreMatches(t: string)
    ensures |ExtractPdfUrls(t)| == |Scan(t, 0)|
    ensures forall k :: 0 <= k < |Scan(t, 0)| ==>
      Scan(t, 0)[k].start < Scan(t, 0)[k].end <= |t| &&
      ExtractPdfUrls(t)[k] == t[Scan(t, 0)[k].start..Scan(t, 0)[k].end] &&
      IsPdfUrl(ExtractPdfUrls(t)[k])
  {
    forall k | 0 <= k < |Scan(t, 0)|
      ensures IsPdfUrl(ExtractPdfUrls(t)[k])
    {
      ExtractedUrlAt(t, k);
    }
  }

  lemma ExtractedUrlAt(t: string, k: nat)
    requires k < |Scan(t, 0)|
    ensures IsPdfUrl(ExtractPdfUrls(t)[k])
  {
    var spans := Scan(t, 0);
    ScanIsLeftmostLongest(t, 0);
    assert MatchesAt(t, spans[k].start, spans[k].end);
    assert ExtractPdfUrls(t)[k] == t[spans[k].start..spans[k].end];
  }

  /** Every returned URL starts with "http://" or "https://", ends with
      ".pdf" and contains no whitespace, single or double quote. */
  lemma ExtractedUrlShape(t: string, k: nat)
    requires k < |ExtractPdfUrls(t)|
    ensures HasPrefix(ExtractPdfUrls(t)[k], "http://") || HasPrefix(ExtractPdfUrls(t)[k], "https://")
    ensures HasSuffix(ExtractPdfUrls(t)[k], ".pdf")
    ensures AllUrlChars(ExtractPdfUrls(t)[k])
  {
    ExtractedUrlsAreMatches(t);
  }

  /** A page shorter than the shortest match, the empty page in particular,
      yields no URLs. */
  lemma ExtractFromShort(t: string)
    requires |t| < 12
    ensures ExtractPdfUrls(t) == []
  {
    ScanIsLeftmostLongest(t, 0);
    SpanLengths(t, Scan(t, 0));
  }

  /** A match is at least as long as "http://" + one character + ".pdf". */
  lemma SpanLengths(t: string, spans: seq<Span>)
    requires SpansAreLongestMatches(t, spans)
    ensures forall k :: 0 <= k < |spans| ==> spans[k].start + 12 <= spans[k].end <= |t|
    ensures |t| < 12 ==> spans == []
  {
    forall k | 0 <= k < |spans| ensures spans[k].start + 12 <= spans[k].end <= |t| {
      assert MatchesAt(t, spans[k].start, spans[k].end);
    }
    if |spans| > 0 {
      assert spans[0].start + 12 <= spans[0].end <= |t|;
    }
  }
}
