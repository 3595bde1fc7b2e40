/** Small string vocabulary shared by the model: character classes, prefixes and
    suffixes, ASCII lower-casing, substring search and substring removal (the
    parts of Go's `strings` package the program relies on). */
module Text {

  /** Option type used for partial answers. */
  datatype Option<T> = None | Some(value: T)

  predicate IsUpperAscii(c: char) { 'A' <= c <= 'Z' }

  /** The class `[a-z0-9]` of the sanitizing regular expression. */
  predicate IsLowerAlnum(c: char) { 'a' <= c <= 'z' || '0' <= c <= '9' }

  predicate HasPrefix(s: string, p: string) { |p| <= |s| && s[..|p|] == p }

  predicate HasSuffix(s: string, p: string) { |p| <= |s| && s[|s| - |p|..] == p }

  /** `sub` occurs in `s` starting at index `i`. */
  predicate OccursAt(s: string, sub: string, i: int)
  {
    0 <= i && i + |sub| <= |s| && s[i..i + |sub|] == sub
  }

  predicate NoUpperAscii(s: string) { forall i :: 0 <= i < |s| ==> !IsUpperAscii(s[i]) }

  function LowerChar(c: char): (d: char)
    ensures !IsUpperAscii(d)
    ensures IsUpperAscii(c) ==> d as int == c as int + 32 && 'a' <= d <= 'z'
    ensures !IsUpperAscii(c) ==> d == c
  {
    if IsUpperAscii(c) then (c as int + 32) as char else c
  }

  /** `strings.ToLower`, restricted to ASCII letters: every other character is kept. */
  function ToLowerAscii(s: string): (r: string)
    ensures |r| == |s|
    ensures NoUpperAscii(r)
    ensures forall i :: 0 <= i < |s| && !IsUpperAscii(s[i]) ==> r[i] == s[i]
    ensures forall i :: 0 <= i < |s| && IsUpperAscii(s[i]) ==> r[i] as int == s[i] as int + 32
  {
    seq(|s|, i requires 0 <= i < |s| => LowerChar(s[i]))
  }

  /** Lower-casing a string that has no upper-case ASCII letter changes nothing. */
  lemma ToLowerAsciiFixesLower(s: string)
    requires NoUpperAscii(s)
    ensures ToLowerAscii(s) == s
  {
  }

  lemma ToLowerAsciiAppend(a: string, b: string)
    ensures ToLowerAscii(a + b) == ToLowerAscii(a) + ToLowerAscii(b)
  {
  }

  /** `strings.Contains`: scans `s` left to right for an occurrence of `sub`. */
  function Contains(s: string, sub: string): (b: bool)
    decreases |s|
    ensures b <==> exists i :: OccursAt(s, sub, i)
  {
    if HasPrefix(s, sub) then
      assert OccursAt(s, sub, 0);
      true
    else if |s| == 0 then
      false
    else
      var b := Contains(s[1..], sub);
      if b then
        var i :| OccursAt(s[1..], sub, i);
        assert OccursAt(s, sub, i + 1);
        b
      else
        assert forall i :: OccursAt(s, sub, i) ==> i >= 1 && OccursAt(s[1..], sub, i - 1);
        b
  }

  /** `strings.TrimLeft(s, string(c))`: `s` without its leading copies of `c`. */
  function TrimLeft(s: string, c: char): (r: string)
    ensures HasSuffix(s, r)
    ensures r == "" || r[0] != c
    ensures forall k :: 0 <= k < |s| - |r| ==> s[k] == c
  {
    if |s| > 0 && s[0] == c then TrimLeft(s[1..], c) else s
  }

  /** `strings.TrimRight(s, string(c))`: `s` without its trailing copies of `c`. */
  function TrimRight(s: string, c: char): (r: string)
    ensures HasPrefix(s, r)
    ensures r == "" || r[|r| - 1] != c
    ensures forall k :: |r| <= k < |s| ==> s[k] == c
  {
    if |s| > 0 && s[|s| - 1] == c then TrimRight(s[..|s| - 1], c) else s
  }

  /** `strings.ReplaceAll(s, pat, "")`: deletes the non-overlapping occurrences of
      `pat` found left to right. An empty `pat` leaves `s` as it is. */
  function RemoveAll(s: string, pat: string): (r: string)
    decreases |s|
    ensures |r| <= |s|
    ensures |pat| == 0 ==> r == s
  {
    if |pat| == 0 || |s| == 0 then s
    else if HasPrefix(s, pat) then RemoveAll(s[|pat|..], pat)
    else [s[0]] + RemoveAll(s[1..], pat)
  }

  /** `s` with every copy of `c` dropped. */
  function DropChar(s: string, c: char): (r: string)
    ensures c !in r
    ensures |r| <= |s|
  {
    if |s| == 0 then ""
    else if s[0] == c then DropChar(s[1..], c)
    else [s[0]] + DropChar(s[1..], c)
  }

  /** A pattern one of whose characters is absent from `s` cannot be found in
      `s`, so removing it is the identity. */
  lemma {:induction false} RemoveAllAbsent(s: string, pat: string, k: nat)
    requires k < |pat| && pat[k] !in s
    ensures RemoveAll(s, pat) == s
    decreases |s|
  {
    if |s| == 0 {
    } else {
      assert !HasPrefix(s, pat) by {
        if |pat| <= |s| {
          assert s[..|pat|][k] == s[k];
        }
      }
      RemoveAllAbsent(s[1..], pat, k);
      assert s == [s[0]] + s[1..];
    }
  }

  /** Removing a one-character pattern deletes every copy of that character. */
  lemma {:induction false} RemoveAllSingle(s: string, c: char)
    ensures RemoveAll(s, [c]) == DropChar(s, c)
    decreases |s|
  {
    if |s| > 0 {
      RemoveAllSingle(s[1..], c);
      if s[0] == c {
        assert HasPrefix(s, [c]);
      } else {
        assert !HasPrefix(s, [c]);
      }
    }
  }

  /** If `pat` does not occur in `s + pat` before its final copy, removal
      deletes exactly that final copy. */
  lemma {:induction false} RemoveAllTrailing(s: string, pat: string)
    requires |pat| > 0
    requires forall i :: 0 <= i < |s| ==> !OccursAt(s + pat, pat, i)
    ensures RemoveAll(s + pat, pat) == s
    decreases |s|
  {
    if |s| == 0 {
      assert s + pat == pat;
      assert HasPrefix(pat, pat);
      assert pat[|pat|..] == [];
    } else {
      assert !OccursAt(s + pat, pat, 0);
      assert !HasPrefix(s + pat, pat);
      forall i | 0 <= i < |s[1..]|
        ensures !OccursAt(s[1..] + pat, pat, i)
      {
        assert !OccursAt(s + pat, pat, i + 1);
        assert (s + pat)[i + 1..i + 1 + |pat|] == (s[1..] + pat)[i..i + |pat|];
      }
      RemoveAllTrailing(s[1..], pat);
      assert (s + pat)[1..] == s[1..] + pat;
      assert s == [s[0]] + s[1..];
    }
  }

  /** A non-empty pattern that occurs nowhere in `s` leaves it unchanged. */
  lemma {:induction false} RemoveAllNone(s: string, pat: string)
    requires |pat| > 0
    requires forall j :: 0 <= j < |s| ==> !OccursAt(s, pat, j)
    ensures RemoveAll(s, pat) == s
    decreases |s|
  {
    if |s| > 0 {
      assert !OccursAt(s, pat, 0);
      assert !HasPrefix(s, pat);
      forall j | 0 <= j < |s[1..]| ensures !OccursAt(s[1..], pat, j) {
        assert !OccursAt(s, pat, j + 1);
        if j + |pat| <= |s[1..]| {
          assert s[1..][j..j + |pat|] == s[j + 1..j + 1 + |pat|];
        }
      }
      RemoveAllNone(s[1..], pat);
      assert s == [s[0]] + s[1..];
    }
  }

  /** Removal deletes the leftmost occurrence of a non-empty pattern, keeps
      everything before it, and carries on after it: together with
      `RemoveAllNone` this fixes the result for every input. */
  lemma {:induction false} RemoveAllFirst(s: string, pat: string, i: nat)
    requires |pat| > 0 && OccursAt(s, pat, i)
    requires forall j :: 0 <= j < i ==> !OccursAt(s, pat, j)
    ensures RemoveAll(s, pat) == s[..i] + RemoveAll(s[i + |pat|..], pat)
    decreases i
  {
    if i == 0 {
      RemoveAllAtFront(s, pat);
    } else {
      assert !OccursAt(s, pat, 0);
      FirstInTail(s, pat, i);
      RemoveAllFirst(s[1..], pat, i - 1);
      RemoveAllFirstStep(s, pat, i);
    }
  }

  lemma RemoveAllAtFront(s: string, pat: string)
    requires |pat| > 0 && OccursAt(s, pat, 0)
    ensures RemoveAll(s, pat) == s[..0] + RemoveAll(s[0 + |pat|..], pat)
  {
    assert s[..|pat|] == s[0..|pat|];
    assert HasPrefix(s, pat);
    assert s[..0] == [];
  }

  /** The leftmost occurrence at `i > 0` is the leftmost one at `i - 1` in the tail. */
  lemma FirstInTail(s: string, pat: string, i: nat)
    requires 0 < i && OccursAt(s, pat, i)
    requires forall j :: 0 <= j < i ==> !OccursAt(s, pat, j)
    ensures OccursAt(s[1..], pat, i - 1)
    ensures forall j :: 0 <= j < i - 1 ==> !OccursAt(s[1..], pat, j)
  {
    var t := s[1..];
    assert t[i - 1..i - 1 + |pat|] == s[i..i + |pat|];
    forall j | 0 <= j < i - 1 ensures !OccursAt(t, pat, j) {
      assert !OccursAt(s, pat, j + 1);
      assert t[j..j + |pat|] == s[j + 1..j + 1 + |pat|];
    }
  }

  lemma RemoveAllFirstStep(s: string, pat: string, i: nat)
    requires |pat| > 0 && 0 < i && i + |pat| <= |s| && !OccursAt(s, pat, 0)
    requires RemoveAll(s[1..], pat) == s[1..][..i - 1] + RemoveAll(s[1..][i - 1 + |pat|..], pat)
    ensures RemoveAll(s, pat) == s[..i] + RemoveAll(s[i + |pat|..], pat)
  {
    var t := s[1..];
    assert t[i - 1 + |pat|..] == s[i + |pat|..];
    RemoveAllKeepsHead(s, pat, t[..i - 1], RemoveAll(s[i + |pat|..], pat));
    assert [s[0]] + t[..i - 1] == s[..i];
  }

  /** One step of removal where no occurrence starts at the front. */
  lemma RemoveAllKeepsHead(s: string, pat: string, u: string, v: string)
    requires |pat| > 0 && |s| > 0 && !OccursAt(s, pat, 0)
    requires RemoveAll(s[1..], pat) == u + v
    ensures RemoveAll(s, pat) == ([s[0]] + u) + v
  {
    assert !HasPrefix(s, pat) by {
      if |pat| <= |s| {
        assert s[..|pat|] == s[0..|pat|];
      }
    }
  }

  lemma {:induction false} DropCharAppend(s: string, t: string, c: char)
    ensures DropChar(s + t, c) == DropChar(s, c) + DropChar(t, c)
    decreases |s|
  {
    if |s| > 0 {
      assert (s + t)[1..] == s[1..] + t;
      DropCharAppend(s[1..], t, c);
    } else {
      assert s + t == t;
    }
  }

  lemma {:induction false} DropCharAbsent(s: string, c: char)
    requires c !in s
    ensures DropChar(s, c) == s
    decreases |s|
  {
    if |s| > 0 {
      DropCharAbsent(s[1..], c);
      assert s == [s[0]] + s[1..];
    }
  }

  /** Removal only deletes characters: it never introduces one absent from `s`. */
  lemma {:induction false} RemoveAllKeepsAbsent(s: string, pat: string, c: char)
    requires c !in s
    ensures c !in RemoveAll(s, pat)
    decreases |s|
  {
    if |pat| > 0 && |s| > 0 {
      if HasPrefix(s, pat) {
        RemoveAllKeepsAbsent(s[|pat|..], pat, c);
      } else {
        RemoveAllKeepsAbsent(s[1..], pat, c);
      }
    }
  }
}
