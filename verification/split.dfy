/** `str.split()` with no separator: the maximal runs of non-whitespace
    characters, left to right, each with its half-open `[start, end)` range
    in the original string. */
module WhitespaceSplit {
  import opened CharClass
  import opened Text

  /** A token's character range: `[start, end)` in the original text. */
  datatype Span = Span(start: nat, end: nat)

  /** The first non-whitespace position at or after `p`. */
  function SkipSpaces(s: string, p: nat): (q: nat)
    requires p <= |s|
    ensures p <= q <= |s|
    ensures q == |s| || !IsSpace(s[q])
    ensures forall i :: p <= i < q ==> IsSpace(s[i])
    decreases |s| - p
  {
    if p < |s| && IsSpace(s[p]) then SkipSpaces(s, p + 1) else p
  }

  /** The first whitespace position at or after `p`. */
  function WordEnd(s: string, p: nat): (q: nat)
    requires p <= |s|
    ensures p <= q <= |s|
    ensures q == |s| || IsSpace(s[q])
    ensures forall i :: p <= i < q ==> !IsSpace(s[i])
    decreases |s| - p
  {
    if p < |s| && !IsSpace(s[p]) then WordEnd(s, p + 1) else p
  }

  /** Where the gap before token `k` starts: `p` for the first token, the
      previous token's end otherwise. */
  function GapStart(sp: seq<Span>, p: nat, k: nat): nat
    requires k <= |sp|
  {
    if k == 0 then p else sp[k - 1].end
  }

  /** Only whitespace in `s[lo..hi]`. */
  predicate AllSpace(s: string, lo: nat, hi: nat)
  {
    forall i :: lo <= i < hi && i < |s| ==> IsSpace(s[i])
  }

  /** `s[a..b]` is a maximal non-whitespace run preceded, from `lo` on, by
      whitespace only. */
  predicate TokenAt(s: string, lo: nat, a: nat, b: nat)
  {
    && lo <= a < b <= |s|
    && AllSpace(s, lo, a)
    && (forall i :: a <= i < b ==> !IsSpace(s[i]))
    && (b == |s| || IsSpace(s[b]))
  }

  /** `sp` is exactly the whitespace split of `s[p..]`: a maximal
      non-empty run of non-whitespace after whitespace only, followed by the
      split of the rest, or only whitespace when `sp` is empty. */
  predicate IsSplit(s: string, p: nat, sp: seq<Span>)
    decreases |sp|
  {
    && p <= |s|
    && if |sp| == 0 then AllSpace(s, p, |s|)
       else TokenAt(s, p, sp[0].start, sp[0].end) && IsSplit(s, sp[0].end, sp[1..])
  }

  /** Every span lies inside the text. */
  predicate InText(s: string, sp: seq<Span>)
  {
    forall k :: 0 <= k < |sp| ==> sp[k].start <= sp[k].end <= |s|
  }

  function SpansFrom(s: string, p: nat): (sp: seq<Span>)
    requires p <= |s|
    ensures IsSplit(s, p, sp)
    ensures InText(s, sp)
    decreases |s| - p
  {
    var a := SkipSpaces(s, p);
    if a == |s| then []
    else
      var b := WordEnd(s, a);
      var rest := SpansFrom(s, b);
      var sp := [Span(a, b)] + rest;
      assert sp[1..] == rest;
      sp
  }

  /** Token `i` of a split, with the gap before it. */
  lemma {:induction false} SplitAt(s: string, p: nat, sp: seq<Span>, i: nat)
    requires IsSplit(s, p, sp) && i < |sp|
    ensures TokenAt(s, GapStart(sp, p, i), sp[i].start, sp[i].end)
    decreases i
  {
    if i > 0 {
      SplitAt(s, sp[0].end, sp[1..], i - 1);
      assert sp[1..][i - 1] == sp[i];
      assert GapStart(sp[1..], sp[0].end, i - 1) == GapStart(sp, p, i);
    }
  }

  /** The token ranges of `s.split()`. */
  function Spans(s: string): (sp: seq<Span>)
    ensures IsSplit(s, 0, sp) && InText(s, sp)
  {
    SpansFrom(s, 0)
  }

  /** `s.split()`: the text of every span, in order; every word is
      non-empty and free of whitespace. */
  function Split(s: string): (ws: seq<string>)
    ensures |ws| == |Spans(s)|
    ensures forall k :: 0 <= k < |ws| ==> ws[k] == s[Spans(s)[k].start..Spans(s)[k].end]
    ensures forall k :: 0 <= k < |ws| ==>
              |ws[k]| > 0 && forall i :: 0 <= i < |ws[k]| ==> !IsSpace(ws[k][i])
  {
    var sp := Spans(s);
    SpanTokens(s, sp);
    seq(|sp|, k requires 0 <= k < |sp| => s[sp[k].start..sp[k].end])
  }

  /** Every span of a split covers a non-empty run of non-whitespace. */
  lemma {:induction false} SpanTokens(s: string, sp: seq<Span>)
    requires IsSplit(s, 0, sp)
    ensures forall k :: 0 <= k < |sp| ==>
              && sp[k].start < sp[k].end <= |s|
              && forall i :: sp[k].start <= i < sp[k].end ==> !IsSpace(s[i])
  {
    forall k | 0 <= k < |sp|
      ensures sp[k].start < sp[k].end <= |s|
      ensures forall i :: sp[k].start <= i < sp[k].end ==> !IsSpace(s[i])
    {
      SplitAt(s, 0, sp, k);
    }
  }

  /** The split is the only one: any span list with the split's defining
      properties is the one `Spans` returns. */
  lemma {:induction false} SplitUnique(s: string, p: nat, sp: seq<Span>)
    requires IsSplit(s, p, sp)
    ensures sp == SpansFrom(s, p)
    decreases |s| - p
  {
    var a := SkipSpaces(s, p);
    if |sp| == 0 {
      assert a == |s|;
    } else {
      var st, en := sp[0].start, sp[0].end;
      assert !IsSpace(s[st]);
      assert st == a;
      var b := WordEnd(s, a);
      assert en == b;
      SplitUnique(s, b, sp[1..]);
      assert sp == [Span(a, b)] + sp[1..];
    }
  }

  /** `text.find(word, char_pos)`, started at the end of the previous token,
      lands exactly on the token's own start. */
  lemma {:induction false} FindLocatesToken(text: string, sps: seq<Span>, i: nat)
    requires IsSplit(text, 0, sps) && InText(text, sps) && i < |sps|
    ensures Find(text, text[sps[i].start..sps[i].end], GapStart(sps, 0, i)) == sps[i].start
  {
    SplitAt(text, 0, sps, i);
    FindToken(text, GapStart(sps, 0, i), sps[i].start, sps[i].end);
  }

  /** Searching from anywhere in the whitespace before a token finds the
      token itself first: it starts with a non-whitespace character. */
  lemma {:induction false} FindToken(text: string, g: nat, a: nat, b: nat)
    requires TokenAt(text, g, a, b)
    ensures Find(text, text[a..b], g) == a
  {
    var word := text[a..b];
    assert OccursAt(text, word, a);
    assert word[0] == text[a];
    forall q | g <= q < a
      ensures !OccursAt(text, word, q)
    {
      assert IsSpace(text[q]);
      if q + |word| <= |text| {
        assert text[q..q + |word|][0] == text[q];
      }
    }
    FindFirst(text, word, g, a);
  }

  /** Token `i` starts at or after the gap before it, is non-empty, and
      ends where the next gap starts. */
  lemma {:induction false} SpanAfterGap(s: string, sps: seq<Span>, i: nat)
    requires IsSplit(s, 0, sps) && i < |sps|
    ensures GapStart(sps, 0, i) <= sps[i].start < sps[i].end == GapStart(sps, 0, i + 1)
  {
    SplitAt(s, 0, sps, i);
  }

  /** Non-empty spans in strictly increasing, non-overlapping order. */
  predicate Ordered(sps: seq<Span>)
  {
    && (forall i :: 0 <= i < |sps| ==> sps[i].start < sps[i].end)
    && (forall i, j :: 0 <= i < j < |sps| ==> sps[i].end <= sps[j].start)
  }

  /** The spans of a split are ordered, and the first starts at or after `p`. */
  lemma {:induction false} SplitOrdered(s: string, p: nat, sps: seq<Span>)
    requires IsSplit(s, p, sps)
    ensures Ordered(sps)
    ensures |sps| > 0 ==> p <= sps[0].start
    decreases |sps|
  {
    if |sps| > 0 {
      var b := sps[0].end;
      var rest := sps[1..];
      SplitOrdered(s, b, rest);
      forall i, j | 0 <= i < j < |sps|
        ensures sps[i].end <= sps[j].start
      {
        if i == 0 {
          assert rest[0].start < rest[0].end;
          if j > 1 {
            assert rest[0].end <= rest[j - 1].start;
          }
        } else {
          assert rest[i - 1].end <= rest[j - 1].start;
        }
      }
    }
  }
}
