/** `urlToFilename` and its helpers (main.go:155-190): a URL becomes the name of
    the file it is saved under. The steps are those of the code: lower-case,
    keep the last path element, remember its extension, replace everything
    outside `[a-z0-9]` by '_', collapse runs of '_', trim '_' at both ends,
    delete every copy of `"_" + extension`, and re-append the extension when
    the result does not already carry it. */
module Filename {
  import opened Text
  import opened Paths

  predicate IsSafeChar(c: char) { IsLowerAlnum(c) || c == '_' }

  predicate AllSafe(s: string) { forall i :: 0 <= i < |s| ==> IsSafeChar(s[i]) }

  predicate AllLowerAlnum(s: string) { forall i :: 0 <= i < |s| ==> IsLowerAlnum(s[i]) }

  predicate NoDoubleUnderscore(s: string)
  {
    forall i :: 0 <= i < |s| - 1 ==> !(s[i] == '_' && s[i + 1] == '_')
  }

  /** The shape of a sanitized stem: characters from `[a-z0-9_]`, no "__",
      and no '_' at either end. */
  predicate IsStem(s: string)
  {
    && AllSafe(s)
    && NoDoubleUnderscore(s)
    && (s == "" || (s[0] != '_' && s[|s| - 1] != '_'))
  }

  /** The `[^a-z0-9]` → "_" replacement of main.go:177-178. */
  function ReplaceNonAlnum(s: string): (r: string)
    ensures |r| == |s|
    ensures AllSafe(r)
    ensures forall i :: 0 <= i < |s| ==> (r[i] == '_' <==> !IsLowerAlnum(s[i]))
    ensures forall i :: 0 <= i < |s| && IsLowerAlnum(s[i]) ==> r[i] == s[i]
  {
    seq(|s|, i requires 0 <= i < |s| => if IsLowerAlnum(s[i]) then s[i] else '_')
  }

  /** The `_+` → "_" replacement of main.go:180: each run of '_' shrinks to
      one. The result has no "__", keeps every other character in order, and
      leaves a string without "__" alone; with `CollapsePair`, which says that
      deleting one '_' of a "__" pair does not change the result, this fixes
      the result for every input. */
  function CollapseUnderscores(s: string): (r: string)
    decreases |s|
    ensures NoDoubleUnderscore(r)
    ensures DropChar(r, '_') == DropChar(s, '_')
    ensures NoDoubleUnderscore(s) ==> r == s
    ensures |r| <= |s|
    ensures |s| > 0 ==> |r| > 0 && r[0] == s[0]
    ensures AllSafe(s) ==> AllSafe(r)
  {
    if |s| <= 1 then s
    else
      assert s == [s[0]] + s[1..];
      if s[0] == '_' && s[1] == '_' then CollapseUnderscores(s[1..])
      else
        var rest := CollapseUnderscores(s[1..]);
        assert ([s[0]] + rest)[1..] == rest;
        [s[0]] + rest
  }

  /** Collapsing `a + "__" + b` gives what collapsing `a + "_" + b` gives. */
  lemma {:induction false} CollapsePair(a: string, b: string)
    ensures CollapseUnderscores(a + "__" + b) == CollapseUnderscores(a + "_" + b)
    decreases |a|
  {
    var s := a + "__" + b;
    var t := a + "_" + b;
    if |a| == 0 {
      assert s[1..] == t;
    } else {
      assert s[1..] == a[1..] + "__" + b;
      assert t[1..] == a[1..] + "_" + b;
      assert s[0] == t[0] && s[1] == t[1];
      CollapsePair(a[1..], b);
    }
  }

  /** `strings.Trim(s, "_")` of main.go:181: the result is the part of `s`
      between its leading and its trailing underscores. */
  function TrimUnderscores(s: string): (r: string)
    ensures r == "" || (r[0] != '_' && r[|r| - 1] != '_')
    ensures exists i :: OccursAt(s, r, i) && OnlyUnderscoresOutside(s, i, i + |r|)
  {
    var l := TrimLeft(s, '_');
    var r := TrimRight(l, '_');
    var i := |s| - |l|;
    assert OccursAt(s, r, i) by {
      assert s[i..][..|r|] == r;
    }
    assert OnlyUnderscoresOutside(s, i, i + |r|) by {
      forall k | i + |r| <= k < |s| ensures s[k] == '_' {
        assert s[k] == l[k - i];
      }
    }
    r
  }

  /** Every character of `s` before `lo` and from `hi` on is '_'. */
  predicate OnlyUnderscoresOutside(s: string, lo: int, hi: int)
  {
    && (forall k :: 0 <= k < lo && k < |s| ==> s[k] == '_')
    && (forall k :: hi <= k < |s| && 0 <= k ==> s[k] == '_')
  }

  /** main.go:177-181: the sanitized stem of a path element. */
  function SanitizedStem(seg: string): (r: string)
    ensures IsStem(r)
  {
    var replaced := ReplaceNonAlnum(seg);
    var collapsed := CollapseUnderscores(replaced);
    var r := TrimUnderscores(collapsed);
    SubstringKeepsShape(collapsed, r);
    r
  }

  /** The `[a-z0-9]` characters of `s`, in order. */
  function LowerAlnumOf(s: string): (r: string)
    ensures AllLowerAlnum(r)
  {
    if |s| == 0 then ""
    else if IsLowerAlnum(s[0]) then [s[0]] + LowerAlnumOf(s[1..])
    else LowerAlnumOf(s[1..])
  }

  /** Sanitizing keeps exactly the `[a-z0-9]` characters of the element, in
      order; every other character either became one of the separating
      underscores or disappeared. */
  lemma SanitizedStemContent(seg: string)
    ensures IsStem(SanitizedStem(seg))
    ensures DropChar(SanitizedStem(seg), '_') == LowerAlnumOf(seg)
  {
    var replaced := ReplaceNonAlnum(seg);
    var collapsed := CollapseUnderscores(replaced);
    ReplaceKeepsAlnum(seg);
    TrimKeepsContent(collapsed);
  }

  lemma {:induction false} ReplaceKeepsAlnum(s: string)
    ensures DropChar(ReplaceNonAlnum(s), '_') == LowerAlnumOf(s)
    decreases |s|
  {
    if |s| > 0 {
      var r := ReplaceNonAlnum(s);
      assert r[1..] == ReplaceNonAlnum(s[1..]);
      ReplaceKeepsAlnum(s[1..]);
    }
  }

  /** Trimming removes only underscores. */
  lemma TrimKeepsContent(s: string)
    ensures DropChar(TrimUnderscores(s), '_') == DropChar(s, '_')
  {
    var r := TrimUnderscores(s);
    var i :| OccursAt(s, r, i) && OnlyUnderscoresOutside(s, i, i + |r|);
    UnderscoresAround(s, r, i);
  }

  lemma UnderscoresAround(s: string, r: string, i: int)
    requires OccursAt(s, r, i) && OnlyUnderscoresOutside(s, i, i + |r|)
    ensures DropChar(r, '_') == DropChar(s, '_')
  {
    var pre, post := s[..i], s[i + |r|..];
    assert s == pre + r + post;
    DropCharAppend(pre + r, post, '_');
    DropCharAppend(pre, r, '_');
    forall k | 0 <= k < |pre| ensures pre[k] == '_' {
      assert pre[k] == s[k];
    }
    DropUnderscores(pre);
    forall k | 0 <= k < |post| ensures post[k] == '_' {
      assert post[k] == s[i + |r| + k];
    }
    DropUnderscores(post);
  }

  lemma {:induction false} DropUnderscores(u: string)
    requires forall k :: 0 <= k < |u| ==> u[k] == '_'
    ensures DropChar(u, '_') == ""
    decreases |u|
  {
    if |u| > 0 {
      DropUnderscores(u[1..]);
    }
  }

  /** The last path element of the lower-cased URL (main.go:172-173). */
  function Segment(url: string): string
  {
    Base(ToLowerAscii(url))
  }

  /** main.go:174-189 as written, applied to the last path element: the
      deletion string is `"_" + ext`, dot included. */
  function NameFromSegment(lower: string): string
  {
    var ext := Ext(lower);
    var removeExtension := "_" + ext;
    var safe := RemoveAll(SanitizedStem(lower), removeExtension);
    if Ext(safe) != ext then safe + ext else safe
  }

  /** `urlToFilename` (main.go:171-190). */
  function UrlToFilename(url: string): string
  {
    NameFromSegment(Segment(url))
  }

  // ---------------------------------------------------------------------------
  // Helper facts about the string steps

  lemma SubstringKeepsShape(s: string, r: string)
    requires AllSafe(s) && NoDoubleUnderscore(s)
    requires exists i :: OccursAt(s, r, i)
    ensures AllSafe(r) && NoDoubleUnderscore(r)
  {
    var i :| OccursAt(s, r, i);
    assert forall j :: 0 <= j < |r| ==> r[j] == s[i + j];
  }

  /** A string that neither starts nor ends with '_' is left alone by trimming. */
  lemma TrimIdentity(s: string)
    requires s == "" || (s[0] != '_' && s[|s| - 1] != '_')
    ensures TrimUnderscores(s) == s
  {
  }

  lemma SafeHasNoDot(s: string)
    requires AllSafe(s)
    ensures '.' !in s && '/' !in s
  {
    forall i | 0 <= i < |s| ensures s[i] != '.' && s[i] != '/' {
      assert IsSafeChar(s[i]);
    }
  }

  lemma SuffixChars(s: string, t: string)
    requires HasSuffix(s, t)
    ensures forall c :: c in t ==> c in s
  {
    forall c | c in t ensures c in s {
      var i :| 0 <= i < |t| && t[i] == c;
      assert s[|s| - |t| + i] == c;
    }
  }

  lemma ExtOfDotless(s: string)
    requires '.' !in s
    ensures Ext(s) == ""
  {
    ExtSpec(s);
    SuffixChars(s, LastSegment(s));
  }

  lemma {:induction false} DropUnderscoreIsAlnum(s: string)
    requires AllSafe(s)
    ensures AllLowerAlnum(DropChar(s, '_'))
    decreases |s|
  {
    if |s| > 0 {
      DropUnderscoreIsAlnum(s[1..]);
      assert IsSafeChar(s[0]);
    }
  }

  // ---------------------------------------------------------------------------
  // Properties of urlToFilename

  /** The shape of every file name built from a last path element `seg`:
      the (possibly empty) extension of `seg` is its suffix, and what precedes
      it is a sanitized stem. With an extension the deletion of `"_" + ext`
      never fires (the stem has no '.'), so the name is the sanitized stem
      plus the extension; without one the deletion string is "_", every
      underscore disappears, and the name is exactly the `[a-z0-9]`
      characters of `seg`. */
  lemma SegmentNameShape(seg: string)
    ensures var ext := Ext(seg);
            var name := NameFromSegment(seg);
            && HasSuffix(name, ext)
            && IsStem(name[..|name| - |ext|])
            && (ext != "" ==> name == SanitizedStem(seg) + ext)
            && (ext == "" ==> name == DropChar(SanitizedStem(seg), '_') && AllLowerAlnum(name))
            && (ext == "" ==> name == LowerAlnumOf(seg))
  {
    var ext := Ext(seg);
    var name := NameFromSegment(seg);
    if ext != "" {
      NameWithExtension(seg);
      assert name[..|name| - |ext|] == SanitizedStem(seg);
    } else {
      NameWithoutExtension(seg);
      TakeAll(name, |name| - |ext|);
    }
  }

  lemma TakeAll(s: string, n: int)
    requires n == |s|
    ensures s[..n] == s
  {
  }

  lemma NameWithExtension(seg: string)
    requires Ext(seg) != ""
    ensures NameFromSegment(seg) == SanitizedStem(seg) + Ext(seg)
  {
    var ext := Ext(seg);
    var stem := SanitizedStem(seg);
    SafeHasNoDot(stem);
    ExtSpec(seg);
    assert ("_" + ext)[1] == '.';
    RemoveAllAbsent(stem, "_" + ext, 1);
    ExtOfDotless(stem);
  }

  lemma NameWithoutExtension(seg: string)
    requires Ext(seg) == ""
    ensures NameFromSegment(seg) == DropChar(SanitizedStem(seg), '_')
    ensures IsStem(NameFromSegment(seg)) && AllLowerAlnum(NameFromSegment(seg))
    ensures NameFromSegment(seg) == LowerAlnumOf(seg)
  {
    var stem := SanitizedStem(seg);
    var d := DropChar(stem, '_');
    SanitizedStemContent(seg);
    DropUnderscoreIsAlnum(stem);
    AlnumIsStem(d);
    SafeHasNoDot(d);
    assert NameFromSegment(seg) == d by {
      assert "_" + Ext(seg) == ['_'];
      RemoveAllSingle(stem, '_');
      ExtOfDotless(d);
    }
  }

  lemma AlnumIsStem(s: string)
    requires AllLowerAlnum(s)
    ensures IsStem(s)
  {
    forall i | 0 <= i < |s| ensures IsSafeChar(s[i]) && s[i] != '_' {
      assert IsLowerAlnum(s[i]);
    }
  }

  /** The same shape, stated for `urlToFilename` itself. */
  lemma FilenameShape(url: string)
    ensures var ext := Ext(Segment(url));
            var name := UrlToFilename(url);
            && HasSuffix(name, ext)
            && IsStem(name[..|name| - |ext|])
            && (ext != "" ==> name == SanitizedStem(Segment(url)) + ext)
            && (ext == "" ==> AllLowerAlnum(name) && name == LowerAlnumOf(Segment(url)))
  {
    SegmentNameShape(Segment(url));
  }

  lemma SuffixNoUpper(s: string, t: string)
    requires HasSuffix(s, t) && NoUpperAscii(s)
    ensures NoUpperAscii(t)
  {
    forall i | 0 <= i < |t| ensures !IsUpperAscii(t[i]) {
      assert t[i] == s[|s| - |t| + i];
    }
  }

  lemma PrefixNoUpper(s: string, t: string)
    requires HasPrefix(s, t) && NoUpperAscii(s)
    ensures NoUpperAscii(t)
  {
    forall i | 0 <= i < |t| ensures !IsUpperAscii(t[i]) {
      assert t[i] == s[i];
    }
  }

  /** The last element of a lower-cased URL has no upper-case letter. */
  lemma SegmentNoUpper(url: string)
    ensures NoUpperAscii(Segment(url))
  {
    var lower := ToLowerAscii(url);
    if lower != "" {
      var q := TrimRight(lower, '/');
      if q != "" {
        PrefixNoUpper(lower, q);
        SuffixNoUpper(q, LastSegment(q));
      }
    }
  }

  /** The extension of a URL's last element is lower-case and has no '/'. */
  lemma ExtNoUpperNoSlash(url: string)
    ensures NoUpperAscii(Ext(Segment(url))) && '/' !in Ext(Segment(url))
  {
    var seg := Segment(url);
    SegmentNoUpper(url);
    ExtSpec(seg);
    BaseHasNoSlash(seg);
    if Ext(seg) != "" {
      SuffixNoUpper(seg, LastSegment(seg));
      SuffixNoUpper(LastSegment(seg), Ext(seg));
    }
  }

  /** File names are flat and lower-case: no '/', so joining one onto the
      output directory names an entry directly inside it (main.go:195), and
      no upper-case letter, so the second lower-casing at main.go:194 changes
      nothing. */
  lemma FilenameIsFlatLowercase(url: string)
    ensures '/' !in UrlToFilename(url)
    ensures NoUpperAscii(UrlToFilename(url))
    ensures ToLowerAscii(UrlToFilename(url)) == UrlToFilename(url)
  {
    var name := UrlToFilename(url);
    var ext := Ext(Segment(url));
    FilenameShape(url);
    ExtNoUpperNoSlash(url);
    StemPlusLowerIsFlat(name, ext);
  }

  lemma StemPlusLowerIsFlat(name: string, ext: string)
    requires HasSuffix(name, ext) && AllSafe(name[..|name| - |ext|])
    requires NoUpperAscii(ext) && '/' !in ext
    ensures '/' !in name && NoUpperAscii(name) && ToLowerAscii(name) == name
  {
    var stemPart := name[..|name| - |ext|];
    assert name == stemPart + ext;
    forall i | 0 <= i < |name| ensures !IsUpperAscii(name[i]) && name[i] != '/' {
      if i < |stemPart| {
        assert IsSafeChar(stemPart[i]);
      } else {
        assert name[i] == ext[i - |stemPart|];
      }
    }
    ToLowerAsciiFixesLower(name);
  }

  // ---------------------------------------------------------------------------
  // Lemmas about the path helpers used above

  lemma {:induction false} LastSegmentAppend(a: string, b: string)
    requires '/' !in b
    ensures LastSegment(a + b) == LastSegment(a) + b
    decreases |b|
  {
    if |b| > 0 {
      var b' := b[..|b| - 1];
      assert (a + b)[..|a + b| - 1] == a + b';
      LastSegmentAppend(a, b');
      assert b == b' + [b[|b| - 1]];
    } else {
      assert a + b == a;
    }
  }

  lemma ExtSnocChar(p: string, c: char)
    requires c != '.' && c != '/'
    ensures Ext(p + [c]) == (if Ext(p) == "" then "" else Ext(p) + [c])
  {
    assert (p + [c])[..|p|] == p;
  }

  lemma ExtSnocDot(p: string)
    ensures Ext(p + ['.']) == "."
  {
  }

  lemma {:induction false} ExtOfDottedSuffix(a: string, y: string)
    requires '.' !in y && '/' !in y
    ensures Ext(a + "." + y) == "." + y
    decreases |y|
  {
    if |y| == 0 {
      assert a + "." + y == a + ['.'];
      ExtSnocDot(a);
    } else {
      var y' := y[..|y| - 1];
      var c := y[|y| - 1];
      assert c in y;
      assert '.' !in y' && '/' !in y' by {
        assert forall d :: d in y' ==> d in y;
      }
      var p := a + "." + y';
      ExtOfDottedSuffix(a, y');
      ExtSnocChar(p, c);
      calc {
        a + "." + y;
        { assert y == y' + [c]; }
        p + [c];
      }
      assert "." + y == ("." + y') + [c];
    }
  }

  /** The last element of a URL `prefix/w`, with `w` free of '/', is `w`
      lower-cased. */
  lemma SegmentOfTail(prefix: string, w: string)
    requires w != "" && '/' !in w
    ensures Segment(prefix + "/" + w) == ToLowerAscii(w)
  {
    ToLowerAsciiAppend(prefix + "/", w);
    var lp := ToLowerAscii(prefix + "/");
    var lw := ToLowerAscii(w);
    assert lp[|lp| - 1] == '/';
    assert '/' !in lw by {
      forall i | 0 <= i < |lw| ensures lw[i] != '/' {
        assert w[i] != '/';
      }
    }
    var lower := lp + lw;
    assert lower == ToLowerAscii(prefix + "/" + w);
    assert lower[|lower| - 1] == lw[|lw| - 1];
    BaseOfUnslashed(lower);
    LastSegmentAppend(lp, lw);
  }

  /** Only the last path element counts: URLs that end in the same element
      get the same file name whatever precedes it, so they collide on disk. */
  lemma SameLastElementSameName(p1: string, p2: string, w: string)
    requires w != "" && '/' !in w
    ensures UrlToFilename(p1 + "/" + w) == UrlToFilename(p2 + "/" + w)
  {
    assert Segment(p1 + "/" + w) == Segment(p2 + "/" + w) by {
      SegmentOfTail(p1, w);
      SegmentOfTail(p2, w);
    }
  }

  lemma SegmentOfLowerTail(prefix: string, w: string)
    requires w != "" && '/' !in w && NoUpperAscii(w)
    ensures Segment(prefix + "/" + w) == w
  {
    SegmentOfTail(prefix, w);
    ToLowerAsciiFixesLower(w);
  }

  lemma LowerKeepsPdfSuffix(url: string)
    requires HasSuffix(url, ".pdf")
    ensures HasSuffix(ToLowerAscii(url), ".pdf")
  {
    var lower := ToLowerAscii(url);
    var n := |url|;
    assert url[n - 4] == '.' && url[n - 3] == 'p' && url[n - 2] == 'd' && url[n - 1] == 'f';
    assert lower[n - 4..] == ".pdf";
  }

  lemma BaseKeepsPdfSuffix(p: string)
    requires HasSuffix(p, ".pdf")
    ensures HasSuffix(Base(p), ".pdf")
  {
    var a := p[..|p| - 4];
    assert p == a + ".pdf";
    BaseOfUnslashed(p);
    LastSegmentAppend(a, ".pdf");
  }

  lemma ExtOfPdf(seg: string)
    requires HasSuffix(seg, ".pdf")
    ensures Ext(seg) == ".pdf"
  {
    var a := seg[..|seg| - 4];
    assert seg == a + "." + "pdf";
    ExtOfDottedSuffix(a, "pdf");
  }

  /** A URL ending in ".pdf" (every extracted link does) is named by its
      sanitized stem followed by ".pdf". */
  lemma PdfUrlFilename(url: string)
    requires HasSuffix(url, ".pdf")
    ensures Ext(Segment(url)) == ".pdf"
    ensures UrlToFilename(url) == SanitizedStem(Segment(url)) + ".pdf"
  {
    LowerKeepsPdfSuffix(url);
    BaseKeepsPdfSuffix(ToLowerAscii(url));
    ExtOfPdf(Segment(url));
    FilenameShape(url);
  }

  // ---------------------------------------------------------------------------
  // The deletion string and its evident intent

  /** The deletion step as evidently intended: remove `"_" + ext` with the
      extension's dot dropped, i.e. the token that sanitizing turned the
      extension into. */
  function NameFromSegmentIntended(lower: string): string
  {
    var ext := Ext(lower);
    var removeExtension := "_" + (if ext == "" then "" else ext[1..]);
    var safe := RemoveAll(SanitizedStem(lower), removeExtension);
    if Ext(safe) != ext then safe + ext else safe
  }

  function UrlToFilenameIntended(url: string): string
  {
    NameFromSegmentIntended(Segment(url))
  }

  /** With the intended deletion a URL ending in ".pdf" is named by its
      sanitized stem with every "_pdf" token removed, followed by ".pdf". */
  lemma IntendedPdfUrlFilename(url: string)
    requires HasSuffix(url, ".pdf")
    ensures var stem := RemoveAll(SanitizedStem(Segment(url)), "_pdf");
            && UrlToFilenameIntended(url) == stem + ".pdf"
            && '/' !in stem && '.' !in stem
  {
    PdfUrlFilename(url);
    IntendedPdfSegment(Segment(url));
  }

  lemma IntendedPdfSegment(seg: string)
    requires Ext(seg) == ".pdf"
    ensures var stem := RemoveAll(SanitizedStem(seg), "_pdf");
            && NameFromSegmentIntended(seg) == stem + ".pdf"
            && '/' !in stem && '.' !in stem
  {
    var safe := SanitizedStem(seg);
    var stem := RemoveAll(safe, "_pdf");
    PdfToken();
    SafeHasNoDot(safe);
    RemoveAllKeepsAbsent(safe, "_pdf", '.');
    RemoveAllKeepsAbsent(safe, "_pdf", '/');
    ExtOfDotless(stem);
  }

  /** The token sanitizing turns the extension `.pdf` into. */
  lemma PdfToken()
    ensures "_" + ".pdf"[1..] == "_pdf"
  {
    assert ".pdf"[1..] == "pdf";
  }

  /** A last path element that is already a safe name `stem.x` sanitizes to
      `stem_x`. */
  lemma SanitizeSafeName(stem: string, x: string)
    requires IsStem(stem) && stem != "" && x != "" && AllLowerAlnum(x)
    ensures SanitizedStem(stem + "." + x) == stem + "_" + x
  {
    var w := stem + "." + x;
    var u := stem + "_" + x;
    var replaced := ReplaceNonAlnum(w);
    forall i | 0 <= i < |w| ensures replaced[i] == u[i] {
      if i < |stem| {
        assert w[i] == stem[i] && u[i] == stem[i];
        assert IsSafeChar(stem[i]);
      } else if i == |stem| {
      } else {
        assert w[i] == x[i - |stem| - 1] && u[i] == x[i - |stem| - 1];
        assert IsLowerAlnum(x[i - |stem| - 1]);
      }
    }
    assert replaced == u;
    forall i | 0 <= i < |u| - 1 ensures !(u[i] == '_' && u[i + 1] == '_') {
      if i + 1 < |stem| {
        assert u[i] == stem[i] && u[i + 1] == stem[i + 1];
      } else if i + 1 == |stem| {
        assert u[i] == stem[|stem| - 1];
      } else {
        assert u[i + 1] == x[i - |stem|];
        assert IsLowerAlnum(x[i - |stem|]);
      }
    }
    assert CollapseUnderscores(u) == u;
    assert u[|u| - 1] == x[|x| - 1];
    assert IsLowerAlnum(x[|x| - 1]);
    TrimIdentity(u);
  }

  /** A safe name `stem.x` has no '/' and no upper-case letter. */
  lemma SafeNameIsLower(stem: string, x: string)
    requires AllSafe(stem) && AllLowerAlnum(x)
    ensures '/' !in stem + "." + x && NoUpperAscii(stem + "." + x)
    ensures '.' !in stem && '.' !in x && '/' !in x
  {
    var w := stem + "." + x;
    forall i | 0 <= i < |w| ensures !IsUpperAscii(w[i]) && w[i] != '/' {
      if i < |stem| {
        assert IsSafeChar(stem[i]);
      } else if i > |stem| {
        assert IsLowerAlnum(x[i - |stem| - 1]);
      }
    }
    SafeHasNoDot(stem);
    forall i | 0 <= i < |x| ensures x[i] != '.' && x[i] != '/' {
      assert IsLowerAlnum(x[i]);
    }
  }

  /** The last element and extension of `prefix/stem.x` for a safe name. */
  lemma SafeNameSegment(prefix: string, stem: string, x: string)
    requires AllSafe(stem) && AllLowerAlnum(x)
    ensures Segment(prefix + "/" + stem + "." + x) == stem + "." + x
    ensures Ext(stem + "." + x) == "." + x
  {
    SafeNameIsLower(stem, x);
    assert prefix + "/" + stem + "." + x == prefix + "/" + (stem + "." + x);
    SegmentOfLowerTail(prefix, stem + "." + x);
    ExtOfDottedSuffix(stem, x);
  }

  /** As written, a last element that is already the safe name `stem.x`
      becomes `stem_x.x`: the deletion string `"_.x"` never matches, so the
      extension token stays in the stem (main.go:175, 183-186). */
  lemma AsWrittenSafeSegment(stem: string, x: string)
    requires IsStem(stem) && stem != "" && x != "" && AllLowerAlnum(x)
    ensures NameFromSegment(stem + "." + x) == stem + "_" + x + "." + x
  {
    var seg := stem + "." + x;
    assert Ext(seg) == "." + x by {
      SafeNameIsLower(stem, x);
      ExtOfDottedSuffix(stem, x);
    }
    assert NameFromSegment(seg) == SanitizedStem(seg) + "." + x by {
      NameWithExtension(seg);
    }
    SanitizeSafeName(stem, x);
  }

  /** The same for a whole URL `prefix/stem.x`: the file name is never the
      safe last element itself. */
  lemma AsWrittenRenamesSafeName(prefix: string, stem: string, x: string)
    requires IsStem(stem) && stem != "" && x != "" && AllLowerAlnum(x)
    ensures UrlToFilename(prefix + "/" + stem + "." + x) == stem + "_" + x + "." + x
    ensures UrlToFilename(prefix + "/" + stem + "." + x) != stem + "." + x
  {
    var seg := stem + "." + x;
    var name := stem + "_" + x + "." + x;
    assert NameFromSegment(seg) == name by {
      AsWrittenSafeSegment(stem, x);
    }
    assert Segment(prefix + "/" + stem + "." + x) == seg by {
      SafeNameSegment(prefix, stem, x);
    }
    assert name[|stem|] == '_';
    assert seg[|stem|] == '.';
  }

  /** The concrete case: `.../Manual_V2.PDF` is saved as "manual_v2_pdf.pdf". */
  lemma ManualExample()
    ensures UrlToFilename("https://Example.com/Docs/Manual_V2.PDF") == "manual_v2_pdf.pdf"
  {
    ManualSegment();
    ManualName();
  }

  lemma ManualSegment()
    ensures Segment("https://Example.com/Docs/Manual_V2.PDF") == "manual_v2.pdf"
  {
    var w := "Manual_V2.PDF";
    assert "https://Example.com/Docs/Manual_V2.PDF" == "https://Example.com/Docs" + "/" + w;
    assert Segment("https://Example.com/Docs" + "/" + w) == ToLowerAscii(w) by {
      assert '/' !in w;
      SegmentOfTail("https://Example.com/Docs", w);
    }
    assert ToLowerAscii(w) == "manual_v2.pdf" by {
      ManualLower();
    }
  }

  lemma ManualLower()
    ensures ToLowerAscii("Manual_V2.PDF") == "manual_v2.pdf"
  {
  }

  lemma ManualName()
    ensures NameFromSegment("manual_v2.pdf") == "manual_v2_pdf.pdf"
  {
    ManualStem();
    AsWrittenSafeSegment("manual_v2", "pdf");
  }

  lemma ManualStem()
    ensures IsStem("manual_v2") && AllLowerAlnum("pdf")
    ensures "manual_v2" + "." + "pdf" == "manual_v2.pdf"
    ensures "manual_v2" + "_" + "pdf" + "." + "pdf" == "manual_v2_pdf.pdf"
  {
  }

  /** Without an extension the deletion string is "_", so the separator that
      sanitizing put between two words disappears as well: `.../foo-bar`
      becomes "foobar". */
  lemma ExtensionlessJoinsWords(prefix: string, a: string, b: string)
    requires a != "" && b != "" && AllLowerAlnum(a) && AllLowerAlnum(b)
    ensures UrlToFilename(prefix + "/" + a + "-" + b) == a + b
  {
    var seg := a + "-" + b;
    assert NameFromSegment(seg) == a + b by {
      ExtensionlessWords(a, b);
    }
    assert Segment(prefix + "/" + a + "-" + b) == seg by {
      WordsSegment(prefix, a, b);
    }
  }

  lemma WordsSegment(prefix: string, a: string, b: string)
    requires AllLowerAlnum(a) && AllLowerAlnum(b)
    ensures Segment(prefix + "/" + a + "-" + b) == a + "-" + b
  {
    WordsNoUpper(a, b);
    assert prefix + "/" + a + "-" + b == prefix + "/" + (a + "-" + b);
    SegmentOfLowerTail(prefix, a + "-" + b);
  }

  lemma WordsNoUpper(a: string, b: string)
    requires AllLowerAlnum(a) && AllLowerAlnum(b)
    ensures NoUpperAscii(a + "-" + b) && '/' !in a + "-" + b && '.' !in a + "-" + b
  {
    var w := a + "-" + b;
    forall i | 0 <= i < |w| ensures !IsUpperAscii(w[i]) && w[i] != '/' && w[i] != '.' {
      if i < |a| {
        assert IsLowerAlnum(a[i]);
      } else if i > |a| {
        assert IsLowerAlnum(b[i - |a| - 1]);
      }
    }
  }

  lemma ExtensionlessWords(a: string, b: string)
    requires a != "" && b != "" && AllLowerAlnum(a) && AllLowerAlnum(b)
    ensures NameFromSegment(a + "-" + b) == a + b
  {
    var seg := a + "-" + b;
    assert Ext(seg) == "" by {
      WordsNoUpper(a, b);
      ExtOfDotless(seg);
    }
    assert SanitizedStem(seg) == a + "_" + b by {
      WordsStem(a, b);
    }
    assert NameFromSegment(seg) == DropChar(a + "_" + b, '_') by {
      NameWithoutExtension(seg);
    }
    DropJoin(a, b);
  }

  /** Deleting '_' from `a_b` joins two underscore-free words. */
  lemma DropJoin(a: string, b: string)
    requires AllLowerAlnum(a) && AllLowerAlnum(b)
    ensures DropChar(a + "_" + b, '_') == a + b
  {
    AlnumHasNoUnderscore(a);
    AlnumHasNoUnderscore(b);
    DropCharAppend(a + "_", b, '_');
    DropCharAppend(a, "_", '_');
    DropCharAbsent(a, '_');
    DropCharAbsent(b, '_');
    assert DropChar("_", '_') == "";
  }

  lemma AlnumHasNoUnderscore(s: string)
    requires AllLowerAlnum(s)
    ensures '_' !in s
  {
    forall i | 0 <= i < |s| ensures s[i] != '_' {
      assert IsLowerAlnum(s[i]);
    }
  }

  lemma WordsStem(a: string, b: string)
    requires a != "" && b != "" && AllLowerAlnum(a) && AllLowerAlnum(b)
    ensures SanitizedStem(a + "-" + b) == a + "_" + b
  {
    var w := a + "-" + b;
    var u := a + "_" + b;
    assert ReplaceNonAlnum(w) == u by {
      forall i | 0 <= i < |w| ensures ReplaceNonAlnum(w)[i] == u[i] {
        if i < |a| {
          assert IsLowerAlnum(a[i]);
        } else if i > |a| {
          assert IsLowerAlnum(b[i - |a| - 1]);
        }
      }
    }
    assert NoDoubleUnderscore(u) by {
      forall i | 0 <= i < |u| - 1 ensures !(u[i] == '_' && u[i + 1] == '_') {
        if i < |a| {
          assert IsLowerAlnum(a[i]);
        } else {
          assert IsLowerAlnum(b[i - |a|]);
        }
      }
    }
    assert CollapseUnderscores(u) == u;
    assert IsLowerAlnum(a[0]) && IsLowerAlnum(b[|b| - 1]);
    TrimIdentity(u);
  }

  /** After the intended deletion, `stem_x` loses exactly its final "_x". */
  lemma IntendedRemovesToken(stem: string, x: string)
    requires IsStem(stem) && x != "" && AllLowerAlnum(x)
    requires !Contains(stem, "_" + x)
    ensures RemoveAll(stem + "_" + x, "_" + x) == stem
  {
    var pat := "_" + x;
    assert stem + "_" + x == stem + pat;
    forall i | 0 <= i < |stem| ensures !OccursAt(stem + pat, pat, i) {
      TokenNotBeforeEnd(stem, x, i);
    }
    RemoveAllTrailing(stem, pat);
  }

  lemma TokenNotBeforeEnd(stem: string, x: string, i: nat)
    requires x != "" && AllLowerAlnum(x) && i < |stem|
    requires !Contains(stem, "_" + x)
    ensures !OccursAt(stem + ("_" + x), "_" + x, i)
  {
    if i + |x| + 1 <= |stem| {
      assert !OccursAt(stem, "_" + x, i);
      OccursInPrefix(stem, "_" + x, i);
    } else {
      TokenStraddles(stem, x, i);
    }
  }

  lemma OccursInPrefix(s: string, pat: string, i: nat)
    requires i + |pat| <= |s|
    ensures OccursAt(s + pat, pat, i) == OccursAt(s, pat, i)
  {
    assert (s + pat)[i..i + |pat|] == s[i..i + |pat|];
  }

  lemma TokenStraddles(stem: string, x: string, i: nat)
    requires x != "" && AllLowerAlnum(x) && i < |stem| < i + |x| + 1
    ensures !OccursAt(stem + ("_" + x), "_" + x, i)
  {
    var pat := "_" + x;
    var w := stem + pat;
    var k := |stem| - i;
    assert pat[k] != '_' by {
      assert pat[k] == x[k - 1];
      assert IsLowerAlnum(x[k - 1]);
    }
    assert w[|stem|] == '_';
    assert w[i..i + |pat|][k] == w[|stem|];
  }

  /** The evidently intended step keeps a URL's already-safe last element
      `stem.x` as the file name, as long as the stem does not itself contain
      the token "_x". */
  lemma IntendedKeepsSafeName(prefix: string, stem: string, x: string)
    requires IsStem(stem) && stem != "" && x != "" && AllLowerAlnum(x)
    requires !Contains(stem, "_" + x)
    ensures UrlToFilenameIntended(prefix + "/" + stem + "." + x) == stem + "." + x
  {
    var seg := stem + "." + x;
    assert NameFromSegmentIntended(seg) == seg by {
      IntendedKeepsSafeSegment(stem, x);
    }
    assert Segment(prefix + "/" + stem + "." + x) == seg by {
      SafeNameSegment(prefix, stem, x);
    }
  }

  lemma IntendedKeepsSafeSegment(stem: string, x: string)
    requires IsStem(stem) && stem != "" && x != "" && AllLowerAlnum(x)
    requires !Contains(stem, "_" + x)
    ensures NameFromSegmentIntended(stem + "." + x) == stem + "." + x
  {
    var seg := stem + "." + x;
    assert Ext(seg) == "." + x by {
      SafeNameIsLower(stem, x);
      ExtOfDottedSuffix(stem, x);
    }
    assert SanitizedStem(seg) == stem + "_" + x by {
      SanitizeSafeName(stem, x);
    }
    assert RemoveAll(stem + "_" + x, "_" + x) == stem by {
      IntendedRemovesToken(stem, x);
    }
    assert Ext(stem) == "" by {
      SafeHasNoDot(stem);
      ExtOfDotless(stem);
    }
    IntendedNameUnfold(seg, stem, x);
  }

  lemma IntendedNameUnfold(seg: string, stem: string, x: string)
    requires Ext(seg) == "." + x
    requires SanitizedStem(seg) == stem + "_" + x
    requires RemoveAll(stem + "_" + x, "_" + x) == stem
    requires Ext(stem) == ""
    ensures NameFromSegmentIntended(seg) == stem + "." + x
  {
    var ext := Ext(seg);
    assert "_" + (if ext == "" then "" else ext[1..]) == "_" + x;
  }
}
