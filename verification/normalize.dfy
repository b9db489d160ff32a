/** Token normalisation: the shared strip-and-clean steps of both tokenizers,
    and the lowercasing normaliser the spell checker applies to every token
    and to every oracle prediction (spell_checker/utils.py). */
module Normalize {
  import opened CharClass
  import opened Text

  /** `s.lower()`, character by character: no ASCII capital is left, a
      second lowering would change nothing, and every character keeps its
      class (ASCII letter or digit, apostrophe, fancy quote). */
  function Lower(s: string): (r: string)
    ensures |r| == |s|
    ensures forall i :: 0 <= i < |s| ==> r[i] == LowerChar(s[i])
    ensures forall i :: 0 <= i < |r| ==> !IsAsciiUpper(r[i]) && LowerChar(r[i]) == r[i]
    ensures forall i :: 0 <= i < |r| ==>
              && (IsAsciiAlnum(r[i]) <==> IsAsciiAlnum(s[i]))
              && (IsFancyQuote(r[i]) || r[i] == Apostrophe <==> IsFancyQuote(s[i]) || s[i] == Apostrophe)
  {
    seq(|s|, i requires 0 <= i < |s| => LowerChar(s[i]))
  }

  /** The four `.replace(q, "'")` calls: no fancy quote is left, the
      apostrophes of the result are exactly the quote marks of any kind in
      the input, and every other character is kept in place. */
  function UnifyQuotes(s: string): (r: string)
    ensures |r| == |s|
    ensures forall i :: 0 <= i < |s| ==> r[i] == UnifyQuote(s[i])
    ensures forall i :: 0 <= i < |r| ==> !IsFancyQuote(r[i])
    ensures forall i :: 0 <= i < |r| ==> (r[i] == Apostrophe <==> s[i] == Apostrophe || IsFancyQuote(s[i]))
    ensures forall i :: 0 <= i < |r| && r[i] != Apostrophe ==> r[i] == s[i]
  {
    seq(|s|, i requires 0 <= i < |s| => UnifyQuote(s[i]))
  }

  /** `re.sub(r"^[^a-zA-Z0-9ʻʼ']+", "", s)`: drops the longest prefix of
      characters outside the edge class. */
  function StripLeading(s: string): string
  {
    TrimLeft(s, IsEdgeChar)
  }

  lemma {:induction false} StripLeadingShape(s: string)
    ensures var r := StripLeading(s);
            && |r| <= |s| && r == s[|s| - |r|..]
            && (r == [] || IsEdgeChar(r[0]))
            && (forall i :: 0 <= i < |s| - |r| ==> !IsEdgeChar(s[i]))
  {
    TrimLeftShape(s, IsEdgeChar);
  }

  /** `re.sub(r"[^a-zA-Z0-9ʻʼ']+$", "", s)`: drops the longest suffix of
      characters outside the edge class. */
  function StripTrailing(s: string): string
  {
    TrimRight(s, IsEdgeChar)
  }

  lemma {:induction false} StripTrailingShape(s: string)
    ensures var r := StripTrailing(s);
            && |r| <= |s| && r == s[..|r|]
            && (r == [] || IsEdgeChar(r[|r| - 1]))
            && (forall i :: |r| <= i < |s| ==> !IsEdgeChar(s[i]))
  {
    TrimRightShape(s, IsEdgeChar);
  }

  /** `re.sub(r"[^\w'ʻʼ-]", "", s)`: removes every character outside the
      kept class, wherever it stands. */
  function KeepOnly(s: string): (r: string)
    ensures |r| <= |s|
  {
    if |s| == 0 then []
    else (if IsKeptChar(s[0]) then [s[0]] else []) + KeepOnly(s[1..])
  }

  /** Only kept characters remain. */
  lemma {:induction false} KeepOnlyKept(s: string)
    ensures forall i :: 0 <= i < |KeepOnly(s)| ==> IsKeptChar(KeepOnly(s)[i])
  {
    if |s| > 0 {
      KeepOnlyKept(s[1..]);
    }
  }

  lemma {:induction false} KeepOnlyAppend(a: string, b: string)
    ensures KeepOnly(a + b) == KeepOnly(a) + KeepOnly(b)
  {
    if |a| == 0 {
      assert a + b == b;
    } else {
      var h := if IsKeptChar(a[0]) then [a[0]] else [];
      assert (a + b)[0] == a[0];
      assert (a + b)[1..] == a[1..] + b;
      assert KeepOnly(a + b) == h + KeepOnly(a[1..] + b);
      KeepOnlyAppend(a[1..], b);
      assert KeepOnly(a) == h + KeepOnly(a[1..]);
      assert h + (KeepOnly(a[1..]) + KeepOnly(b)) == (h + KeepOnly(a[1..])) + KeepOnly(b);
    }
  }

  /** A string made only of kept characters is left as it is. */
  lemma {:induction false} KeepOnlyOfKept(s: string)
    requires forall i :: 0 <= i < |s| ==> IsKeptChar(s[i])
    ensures KeepOnly(s) == s
  {
    if |s| > 0 {
      KeepOnlyOfKept(s[1..]);
    }
  }

  /** Every character of the result is a character of the input, so any
      property of all input characters carries over. */
  lemma {:induction false} KeepOnlyCarries(s: string, p: char -> bool)
    requires forall i :: 0 <= i < |s| ==> p(s[i])
    ensures forall i :: 0 <= i < |KeepOnly(s)| ==> p(KeepOnly(s)[i])
  {
    if |s| > 0 {
      KeepOnlyCarries(s[1..], p);
    }
  }

  /** A kept first or last character survives the clean-up in place. */
  lemma {:induction false} KeepOnlyEnds(s: string)
    requires |s| > 0
    ensures IsKeptChar(s[0]) ==> |KeepOnly(s)| > 0 && KeepOnly(s)[0] == s[0]
    ensures IsKeptChar(s[|s| - 1]) ==>
              |KeepOnly(s)| > 0 && KeepOnly(s)[|KeepOnly(s)| - 1] == s[|s| - 1]
  {
    var n := |s| - 1;
    assert s == s[..n] + [s[n]];
    KeepOnlyAppend(s[..n], [s[n]]);
    assert KeepOnly([s[n]]) == (if IsKeptChar(s[n]) then [s[n]] else []) + KeepOnly([]);
  }

  /** The strip-then-clean pipeline shared by both normalisers: strip
      non-edge characters at both ends, then drop interior characters
      outside the kept class. */
  function CleanCore(s: string): string
  {
    KeepOnly(StripTrailing(StripLeading(s)))
  }

  /** The pipeline keeps only kept characters, starts and ends on an edge
      character, and is empty exactly when the input has no edge character. */
  lemma {:induction false} CleanCoreShape(s: string)
    ensures var r := CleanCore(s);
            && (forall i :: 0 <= i < |r| ==> IsKeptChar(r[i]))
            && (r != [] ==> IsEdgeChar(r[0]) && IsEdgeChar(r[|r| - 1]))
            && (r == [] <==> forall i :: 0 <= i < |s| ==> !IsEdgeChar(s[i]))
  {
    var core := StripTrailing(StripLeading(s));
    StripLeadingShape(s);
    StripTrailingShape(StripLeading(s));
    KeepOnlyKept(core);
    if core != [] {
      KeepOnlyEnds(core);
    } else {
      assert StripLeading(s) == [];
    }
  }

  lemma {:induction false} CleanCoreCarries(s: string, p: char -> bool)
    requires forall i :: 0 <= i < |s| ==> p(s[i])
    ensures forall i :: 0 <= i < |CleanCore(s)| ==> p(CleanCore(s)[i])
  {
    var lead := StripLeading(s);
    var core := StripTrailing(lead);
    StripLeadingShape(s);
    StripTrailingShape(lead);
    forall i | 0 <= i < |core| ensures p(core[i]) {
      assert core[i] == lead[i] == s[|s| - |lead| + i];
    }
    KeepOnlyCarries(core, p);
    assert CleanCore(s) == KeepOnly(core);
  }

  /** A string that already starts and ends with edge characters and holds
      only kept characters is a fixed point of the pipeline. */
  lemma {:induction false} CleanCoreFixpoint(s: string)
    requires forall i :: 0 <= i < |s| ==> IsKeptChar(s[i])
    requires s != [] ==> IsEdgeChar(s[0]) && IsEdgeChar(s[|s| - 1])
    ensures CleanCore(s) == s
  {
    StripLeadingShape(s);
    StripTrailingShape(s);
    assert StripLeading(s) == s;
    assert StripTrailing(s) == s;
    KeepOnlyOfKept(s);
    assert CleanCore(s) == KeepOnly(s);
  }

  /** A character of the form `[a-z0-9']`. */
  predicate IsLowerEdgeChar(c: char)
  {
    IsAsciiLower(c) || IsDigit(c) || c == Apostrophe
  }

  /** What lowering then unifying quotes does to one character. */
  lemma {:induction false} LowerUnifyChar(c: char)
    ensures var d := UnifyQuote(LowerChar(c));
      && !IsFancyQuote(d) && !IsAsciiUpper(d) && LowerChar(d) == d
      && (IsEdgeChar(d) <==> IsAsciiAlnum(c) || c == Apostrophe || IsFancyQuote(c))
  {
    LowerCharIdempotent(c);
  }

  /** The first two steps of `normalize_token`: `lower()` and the quote
      replacements. */
  function LowerUnified(t: string): string
  {
    UnifyQuotes(Lower(t))
  }

  lemma {:induction false} LowerUnifiedShape(t: string)
    ensures var u := LowerUnified(t);
      && |u| == |t|
      && (forall i :: 0 <= i < |u| ==> !IsFancyQuote(u[i]) && !IsAsciiUpper(u[i]) && LowerChar(u[i]) == u[i])
      && (forall i :: 0 <= i < |u| ==>
            (IsEdgeChar(u[i]) <==> IsAsciiAlnum(t[i]) || t[i] == Apostrophe || IsFancyQuote(t[i])))
  {
    var u := LowerUnified(t);
    assert forall i :: 0 <= i < |u| ==> u[i] == UnifyQuote(LowerChar(t[i]));
    forall i | 0 <= i < |u|
      ensures !IsFancyQuote(u[i]) && !IsAsciiUpper(u[i]) && LowerChar(u[i]) == u[i]
      ensures IsEdgeChar(u[i]) <==> IsAsciiAlnum(t[i]) || t[i] == Apostrophe || IsFancyQuote(t[i])
    {
      LowerUnifyChar(t[i]);
    }
  }

  lemma {:induction false} KeptPlainChar(c: char)
    requires IsKeptChar(c) && !IsFancyQuote(c)
    ensures IsWordChar(c) || c == Apostrophe || c == '-'
  {
  }

  lemma {:induction false} EdgePlainChar(c: char)
    requires IsEdgeChar(c) && !IsFancyQuote(c) && !IsAsciiUpper(c)
    ensures IsLowerEdgeChar(c)
  {
  }

  /** `normalize_token` of spell_checker/utils.py. The output holds no
      fancy quote and no ASCII capital, only word characters, apostrophes
      and hyphens, and only characters `lower()` leaves alone; a non-empty
      output starts and ends with `[a-z0-9']`, so leading and trailing
      hyphens and punctuation are gone. */
  function NormalizeToken(t: string): (r: string)
    ensures forall i :: 0 <= i < |r| ==> !IsFancyQuote(r[i]) && !IsAsciiUpper(r[i]) && LowerChar(r[i]) == r[i]
    ensures forall i :: 0 <= i < |r| ==> IsWordChar(r[i]) || r[i] == Apostrophe || r[i] == '-'
    ensures r != [] ==> IsLowerEdgeChar(r[0]) && IsLowerEdgeChar(r[|r| - 1])
  {
    var u := LowerUnified(t);
    LowerUnifiedShape(t);
    NormalizedChars(u, CleanCore(u));
    NormalizedEnds(u, CleanCore(u));
    CleanCore(u)
  }

  /** The output is empty exactly when the token holds no ASCII letter or
      digit and no quote mark of any of the five kinds. */
  lemma {:induction false} NormalizeTokenEmptyIff(t: string)
    ensures NormalizeToken(t) == [] <==>
              forall i :: 0 <= i < |t| ==> !IsAsciiAlnum(t[i]) && t[i] != Apostrophe && !IsFancyQuote(t[i])
  {
    LowerUnifiedShape(t);
    CleanCoreShape(LowerUnified(t));
  }

  lemma {:induction false} NormalizedChars(u: string, r: string)
    requires forall i :: 0 <= i < |u| ==> !IsFancyQuote(u[i]) && !IsAsciiUpper(u[i]) && LowerChar(u[i]) == u[i]
    requires r == CleanCore(u)
    ensures forall i :: 0 <= i < |r| ==> !IsFancyQuote(r[i]) && !IsAsciiUpper(r[i]) && LowerChar(r[i]) == r[i]
    ensures forall i :: 0 <= i < |r| ==> IsWordChar(r[i]) || r[i] == Apostrophe || r[i] == '-'
  {
    CleanCoreCarries(u, c => !IsFancyQuote(c) && !IsAsciiUpper(c) && LowerChar(c) == c);
    CleanCoreShape(u);
    forall i | 0 <= i < |r|
      ensures IsWordChar(r[i]) || r[i] == Apostrophe || r[i] == '-'
    {
      KeptPlainChar(r[i]);
    }
  }

  lemma {:induction false} NormalizedEnds(u: string, r: string)
    requires forall i :: 0 <= i < |u| ==> !IsFancyQuote(u[i]) && !IsAsciiUpper(u[i])
    requires r == CleanCore(u)
    ensures r != [] ==> IsLowerEdgeChar(r[0]) && IsLowerEdgeChar(r[|r| - 1])
  {
    if r != [] {
      CleanCoreShape(u);
      CleanCoreCarries(u, c => !IsFancyQuote(c) && !IsAsciiUpper(c));
      EdgePlainChar(r[0]);
      EdgePlainChar(r[|r| - 1]);
    }
  }

  /** Normalising twice is the same as normalising once. */
  lemma {:induction false} NormalizeTokenIdempotent(t: string)
    ensures NormalizeToken(NormalizeToken(t)) == NormalizeToken(t)
  {
    var r := NormalizeToken(t);
    assert Lower(r) == r;
    assert UnifyQuotes(r) == r;
    CleanCoreFixpoint(r);
  }

  /** A word of lowercase ASCII letters is its own normal form. */
  lemma {:induction false} NormalizePlainWord(w: string)
    requires forall i :: 0 <= i < |w| ==> IsAsciiLower(w[i])
    ensures NormalizeToken(w) == w
  {
    assert Lower(w) == w;
    assert UnifyQuotes(w) == w;
    CleanCoreFixpoint(w);
  }
}
