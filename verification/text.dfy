/** Python `str` operations the spell checker relies on: `strip()`,
    `find()`, the `in` substring test and string ordering. */
module Text {
  import opened CharClass

  /** Drops the longest prefix of characters that fail `stop`. */
  function TrimLeft(s: string, stop: char -> bool): string
  {
    if |s| > 0 && !stop(s[0]) then TrimLeft(s[1..], stop) else s
  }

  /** The result is a suffix of `s` that is empty or starts with a `stop`
      character, and everything dropped fails `stop`. */
  lemma {:induction false} TrimLeftShape(s: string, stop: char -> bool)
    ensures var r := TrimLeft(s, stop);
            && |r| <= |s| && r == s[|s| - |r|..]
            && (r == [] || stop(r[0]))
            && (forall i :: 0 <= i < |s| - |r| ==> !stop(s[i]))
  {
    if |s| > 0 && !stop(s[0]) {
      TrimLeftShape(s[1..], stop);
      assert forall i :: 1 <= i < |s| ==> s[i] == s[1..][i - 1];
    }
  }

  /** Drops the longest suffix of characters that fail `stop`. */
  function TrimRight(s: string, stop: char -> bool): string
  {
    if |s| > 0 && !stop(s[|s| - 1]) then TrimRight(s[..|s| - 1], stop) else s
  }

  /** The result is a prefix of `s` that is empty or ends with a `stop`
      character, and everything dropped fails `stop`. */
  lemma {:induction false} TrimRightShape(s: string, stop: char -> bool)
    ensures var r := TrimRight(s, stop);
            && |r| <= |s| && r == s[..|r|]
            && (r == [] || stop(r[|r| - 1]))
            && (forall i :: |r| <= i < |s| ==> !stop(s[i]))
  {
    if |s| > 0 && !stop(s[|s| - 1]) {
      TrimRightShape(s[..|s| - 1], stop);
      assert forall i :: 0 <= i < |s| - 1 ==> s[i] == s[..|s| - 1][i];
    }
  }

  /** The number of whitespace characters `s` starts with. */
  function LeadingSpaces(s: string): (n: nat)
    ensures n <= |s|
    ensures forall i :: 0 <= i < n ==> IsSpace(s[i])
    ensures n == |s| || !IsSpace(s[n])
  {
    if |s| > 0 && IsSpace(s[0]) then
      var n := LeadingSpaces(s[1..]);
      assert forall i :: 1 <= i < |s| ==> s[i] == s[1..][i - 1];
      n + 1
    else 0
  }

  predicate NotSpace(c: char)
  {
    !IsSpace(c)
  }

  /** `s.strip()`: drops leading and trailing whitespace. */
  function Strip(s: string): string
  {
    TrimRight(s[LeadingSpaces(s)..], NotSpace)
  }

  /** The result is the slice of `s` that starts after its leading
      whitespace and has nothing but whitespace after it; it neither
      starts nor ends with whitespace. */
  lemma {:induction false} StripShape(s: string)
    ensures var lo, r := LeadingSpaces(s), Strip(s);
            && lo + |r| <= |s|
            && r == s[lo..lo + |r|]
            && (forall i :: lo + |r| <= i < |s| ==> IsSpace(s[i]))
            && (r == [] || (!IsSpace(r[0]) && !IsSpace(r[|r| - 1])))
  {
    var lo := LeadingSpaces(s);
    var t := s[lo..];
    var r := TrimRight(t, NotSpace);
    TrimRightShape(t, NotSpace);
    SliceOfSlice(s, lo, |s|, 0, |r|);
    forall i | lo + |r| <= i < |s|
      ensures IsSpace(s[i])
    {
      assert s[i] == t[i - lo] && !NotSpace(t[i - lo]);
    }
    if r != [] {
      assert r[0] == t[0] == s[lo];
      assert NotSpace(r[|r| - 1]);
    }
  }

  /** `StripShape` for a slice `s[lo..hi]`, in positions of `s`. */
  lemma {:induction false} StripSliceShape(s: string, lo: nat, hi: nat)
    requires lo <= hi <= |s|
    ensures var a, r := lo + LeadingSpaces(s[lo..hi]), Strip(s[lo..hi]);
            && a + |r| <= hi
            && r == s[a..a + |r|]
            && (forall i :: lo <= i < a ==> IsSpace(s[i]))
            && (forall i :: a + |r| <= i < hi ==> IsSpace(s[i]))
            && (r == [] || (!IsSpace(r[0]) && !IsSpace(r[|r| - 1])))
  {
    var w := s[lo..hi];
    var n, r := LeadingSpaces(w), Strip(w);
    StripShape(w);
    SliceOfSlice(s, lo, hi, n, n + |r|);
    assert forall i :: lo <= i < hi ==> s[i] == w[i - lo];
  }

  lemma {:induction false} SliceOfSlice(s: string, a: nat, b: nat, c: nat, d: nat)
    requires a <= b <= |s| && c <= d <= b - a
    ensures s[a..b][c..d] == s[a + c..a + d]
  {
    assert forall m :: 0 <= m < d - c ==> s[a..b][c..d][m] == s[a + c + m];
  }

  /** `sub` occurs in `s` starting at index `i`. */
  predicate OccursAt(s: string, sub: string, i: int)
  {
    0 <= i && i + |sub| <= |s| && s[i..i + |sub|] == sub
  }

  /** An occurrence inside a slice is an occurrence in the whole string. */
  lemma {:induction false} OccursInSlice(s: string, lo: nat, hi: nat, sub: string, j: nat)
    requires lo <= hi <= |s| && OccursAt(s[lo..hi], sub, j)
    ensures OccursAt(s, sub, lo + j)
  {
    SliceOfSlice(s, lo, hi, j, j + |sub|);
  }

  /** `s.find(sub, start)` for a non-negative `start`: the lowest index at or
      after `start` where `sub` occurs, or -1. */
  function Find(s: string, sub: string, start: nat): (r: int)
    ensures r == -1 || (start <= r && OccursAt(s, sub, r))
    ensures r == -1 ==> forall i :: start <= i ==> !OccursAt(s, sub, i)
    ensures r != -1 ==> forall i :: start <= i < r ==> !OccursAt(s, sub, i)
    decreases |s| - start
  {
    if start + |sub| > |s| then -1
    else if s[start..start + |sub|] == sub then start
    else Find(s, sub, start + 1)
  }

  /** `find` returns the first occurrence at or after `start`. */
  lemma {:induction false} FindFirst(s: string, sub: string, start: nat, a: nat)
    requires start <= a && OccursAt(s, sub, a)
    requires forall i :: start <= i < a ==> !OccursAt(s, sub, i)
    ensures Find(s, sub, start) == a
  {
    var r := Find(s, sub, start);
    assert r != -1;
    assert !(a < r);
  }

  /** `sub in s`. */
  function Contains(s: string, sub: string): (r: bool)
    ensures r <==> exists i :: OccursAt(s, sub, i)
  {
    Find(s, sub, 0) != -1
  }

  /** A string occurs in any string built around it. */
  lemma {:induction false} ContainsMiddle(x: string, sub: string, y: string)
    ensures Contains(x + sub + y, sub)
  {
    assert (x + sub + y)[|x|..|x| + |sub|] == sub;
    assert OccursAt(x + sub + y, sub, |x|);
  }

  /** Python's `<` on strings: code point by code point, a proper prefix
      first. */
  predicate LexLess(a: string, b: string)
  {
    if |a| == 0 then |b| > 0
    else if |b| == 0 then false
    else if a[0] != b[0] then a[0] < b[0]
    else LexLess(a[1..], b[1..])
  }

  lemma {:induction false} LexLessIrreflexive(a: string)
    ensures !LexLess(a, a)
  {
    if |a| > 0 {
      LexLessIrreflexive(a[1..]);
    }
  }

  lemma {:induction false} LexLessTransitive(a: string, b: string, c: string)
    requires LexLess(a, b) && LexLess(b, c)
    ensures LexLess(a, c)
  {
    if |a| > 0 && |b| > 0 && |c| > 0 && a[0] == b[0] == c[0] {
      LexLessTransitive(a[1..], b[1..], c[1..]);
    }
  }

  /** Any two different strings are ordered one way or the other. */
  lemma {:induction false} LexLessTotal(a: string, b: string)
    requires a != b
    ensures LexLess(a, b) || LexLess(b, a)
  {
    if |a| > 0 && |b| > 0 && a[0] == b[0] {
      assert a == [a[0]] + a[1..] && b == [b[0]] + b[1..];
      LexLessTotal(a[1..], b[1..]);
    }
  }
}
