/** Go's `filepath.Base` and `filepath.Ext` on a system whose only path
    separator is '/'. */
module Paths {
  import opened Text

  /** The text after the last '/' of `p` (all of `p` when it has none). */
  function LastSegment(p: string): (seg: string)
    ensures HasSuffix(p, seg)
    ensures '/' !in seg
    ensures |seg| == |p| || p[|p| - |seg| - 1] == '/'
  {
    if |p| == 0 then ""
    else if p[|p| - 1] == '/' then ""
    else
      var seg := LastSegment(p[..|p| - 1]) + [p[|p| - 1]];
      assert p == p[..|p| - 1] + [p[|p| - 1]];
      seg
  }

  /** `filepath.Base`: "" becomes ".", a path of slashes only becomes "/",
      anything else gives its last element once trailing slashes are dropped. */
  function Base(p: string): (b: string)
    ensures b != ""
    ensures p == "" ==> b == "."
    ensures p != "" && TrimRight(p, '/') == "" ==> b == "/"
    ensures p != "" && TrimRight(p, '/') != "" ==> b == LastSegment(TrimRight(p, '/'))
  {
    if p == "" then "."
    else
      var q := TrimRight(p, '/');
      if q == "" then "/" else LastSegment(q)
  }

  /** `filepath.Ext`: the suffix starting at the last '.' of the final path
      element, or "" when that element has no '.'. */
  function Ext(p: string): string
  {
    if |p| == 0 then ""
    else if p[|p| - 1] == '/' then ""
    else if p[|p| - 1] == '.' then "."
    else
      var e := Ext(p[..|p| - 1]);
      if e == "" then "" else e + [p[|p| - 1]]
  }

  /** Ext is empty exactly when the last element has no '.'; otherwise it is
      the suffix of that element that starts at its last '.'. */
  lemma {:induction false} ExtSpec(p: string)
    ensures Ext(p) == "" <==> '.' !in LastSegment(p)
    ensures Ext(p) != "" ==> Ext(p)[0] == '.' && HasSuffix(LastSegment(p), Ext(p)) && '.' !in Ext(p)[1..]
    decreases |p|
  {
    if |p| > 0 && p[|p| - 1] != '/' {
      var c := p[|p| - 1];
      ExtSpec(p[..|p| - 1]);
      LastSegmentSnoc(p);
      if c != '.' && Ext(p[..|p| - 1]) != "" {
        ExtSnoc(LastSegment(p[..|p| - 1]), Ext(p[..|p| - 1]), c);
      }
    }
  }

  lemma LastSegmentSnoc(p: string)
    requires |p| > 0 && p[|p| - 1] != '/'
    ensures LastSegment(p) == LastSegment(p[..|p| - 1]) + [p[|p| - 1]]
  {
  }

  lemma ExtSnoc(seg: string, e: string, c: char)
    requires e != "" && e[0] == '.' && HasSuffix(seg, e) && '.' !in e[1..] && c != '.'
    ensures (e + [c])[0] == '.' && HasSuffix(seg + [c], e + [c]) && '.' !in (e + [c])[1..]
  {
    assert (e + [c])[1..] == e[1..] + [c];
    assert (seg + [c])[|seg| - |e|..] == seg[|seg| - |e|..] + [c];
  }

  /** A path that ends with a non-slash character is its own last element's
      owner: Base returns exactly its last segment. */
  lemma BaseOfUnslashed(p: string)
    requires p != "" && p[|p| - 1] != '/'
    ensures Base(p) == LastSegment(p)
  {
  }

  /** Base and Ext never return anything containing '/', except Base's "/". */
  lemma BaseHasNoSlash(p: string)
    ensures Base(p) == "/" || '/' !in Base(p)
    ensures '/' !in Ext(p)
  {
    ExtSpec(p);
    if Ext(p) != "" {
      var e := Ext(p);
      var seg := LastSegment(p);
      forall i | 0 <= i < |e| ensures e[i] != '/' {
        assert e[i] == seg[|seg| - |e| + i];
      }
    }
  }
}
