/** Candidate generation and ranking: `SpellChecker.suggest_for_word`,
    `fuzzy_match_from_dict` and `is_valid_word` of spell_checker/core.py. */
module Ranker {
  import opened Wrappers
  import opened CharClass
  import opened Text
  import opened Normalize
  import opened EditDistance

  /** One entry of the fill-mask oracle's answer: `r["token_str"]` and
      `r["score"]`. */
  datatype Prediction = Prediction(tokenStr: string, score: real)

  datatype Suggestion = Suggestion(candidate: string, score: real)

  /** Predictions scoring below this are skipped. */
  const MinOracleScore: real := 0.001

  /** The fixed score of every fuzzy-match suggestion. */
  const FuzzyScore: real := 0.001

  /** Largest edit distance an accepted prediction may have from the word. */
  const MaxEdits: nat := 3

  /** Characters of context kept on each side of the masked word. */
  const ContextWidth: nat := 40

  /** The fill-mask model: query and `top_k` in, ranked predictions or a
      failure (model not loadable, malformed answer) out. */
  type Oracle = (string, nat) -> Result<seq<Prediction>, string>

  /** `difflib.get_close_matches(word, dictionary, n, cutoff=0.8)` for a
      positive `n`. */
  type Matcher = (string, nat) -> seq<string>

  /** The checker's collaborators, fixed once loaded: the dictionary, the
      oracle's mask placeholder, `MODEL_TOP_K`, the oracle and the
      similarity matcher. */
  datatype SpellChecker = SpellChecker(
    dictionary: set<string>,
    maskToken: string,
    topK: nat,
    oracle: Oracle,
    closeMatches: Matcher)
  {
    /** `is_valid_word`. */
    predicate IsValidWord(token: string)
    {
      token in dictionary
    }

    /** What `get_close_matches` promises: at most `n` results, all drawn
        from the dictionary, none repeated. */
    ghost predicate MatcherContract()
    {
      forall w: string, n: nat ::
        && |closeMatches(w, n)| <= n
        && (forall i :: 0 <= i < |closeMatches(w, n)| ==> closeMatches(w, n)[i] in dictionary)
        && Distinct(closeMatches(w, n))
    }
  }

  predicate Distinct(xs: seq<string>)
  {
    forall i, j :: 0 <= i < j < |xs| ==> xs[i] != xs[j]
  }

  function Candidates(ss: seq<Suggestion>): (cs: seq<string>)
    ensures |cs| == |ss|
    ensures forall i :: 0 <= i < |ss| ==> cs[i] == ss[i].candidate
  {
    seq(|ss|, i requires 0 <= i < |ss| => ss[i].candidate)
  }

  /** At most `k` results, where a non-positive `k` still lets one through. */
  function Cap(k: int): nat
  {
    if k >= 1 then k else 1
  }

  // ---------------------------------------------------------------------
  // Fuzzy fallback

  /** `fuzzy_match_from_dict(word, k)`: the matcher's words, each with the
      fixed fuzzy score, so with a well-behaved matcher at most `k`
      dictionary words and none twice. `get_close_matches` raises
      `ValueError` for a non-positive `n`. */
  function FuzzyMatch(c: SpellChecker, word: string, k: int): (r: Result<seq<Suggestion>, string>)
    ensures r.Failure? <==> k <= 0
    ensures r.Success? ==> forall i :: 0 <= i < |r.value| ==> r.value[i].score == FuzzyScore
    ensures r.Success? ==> Candidates(r.value) == c.closeMatches(word, k)
    ensures c.MatcherContract() && r.Success? ==>
              && |r.value| <= k
              && (forall i :: 0 <= i < |r.value| ==> r.value[i].candidate in c.dictionary)
              && Distinct(Candidates(r.value))
  {
    if k <= 0 then Failure("n must be > 0")
    else
      var ms := c.closeMatches(word, k);
      var ss := seq(|ms|, i requires 0 <= i < |ms| => Suggestion(ms[i], FuzzyScore));
      assert Candidates(ss) == ms;
      Success(ss)
  }

  // ---------------------------------------------------------------------
  // Locating the word and building the masked query

  /** Regex `\b` at position `p`: a word character on exactly one side. */
  predicate IsBoundary(s: string, p: nat)
    requires p <= |s|
  {
    (p > 0 && IsWordChar(s[p - 1])) != (p < |s| && IsWordChar(s[p]))
  }

  /** `\bword\b` matches at `p`. */
  predicate WholeWordAt(s: string, w: string, p: nat)
  {
    OccursAt(s, w, p) && IsBoundary(s, p) && IsBoundary(s, p + |w|)
  }

  /** `re.search(rf"\b{re.escape(w)}\b", s)` from position `from` on: the
      leftmost whole-word occurrence. The match is case-sensitive. */
  function SearchWholeWord(s: string, w: string, from: nat): (r: Option<nat>)
    ensures r.Some? ==> from <= r.value && WholeWordAt(s, w, r.value)
    ensures r.Some? ==> forall q :: from <= q < r.value ==> !WholeWordAt(s, w, q)
    ensures r.None? ==> forall q :: from <= q ==> !WholeWordAt(s, w, q)
    decreases |s| - from
  {
    if from + |w| > |s| then None
    else if WholeWordAt(s, w, from) then Some(from)
    else SearchWholeWord(s, w, from + 1)
  }

  /** `max(0, start - 40)`: where the left window begins. */
  function LeftWindow(start: nat): nat
  {
    if start >= ContextWidth then start - ContextWidth else 0
  }

  /** `min(end + 40, len(sentence))`: where the right window ends. */
  function RightWindow(sentence: string, end: nat): nat
  {
    if end + ContextWidth <= |sentence| then end + ContextWidth else |sentence|
  }

  /** `sentence[max(0, start - 40):start].strip()`. */
  function LeftContext(sentence: string, start: nat): (r: string)
    requires start <= |sentence|
    ensures |r| <= ContextWidth
    ensures exists i :: LeftWindow(start) <= i && i + |r| <= start && OccursAt(sentence, r, i)
    ensures r == [] || (!IsSpace(r[0]) && !IsSpace(r[|r| - 1]))
  {
    var lo := LeftWindow(start);
    StripSliceShape(sentence, lo, start);
    var r := Strip(sentence[lo..start]);
    var a := lo + LeadingSpaces(sentence[lo..start]);
    assert OccursAt(sentence, r, a);
    r
  }

  /** The left context is all of the 40-character window before the word
      except the whitespace at either end of it. */
  lemma {:induction false} LeftContextExact(sentence: string, start: nat)
    requires start <= |sentence|
    ensures var lo, r := LeftWindow(start), LeftContext(sentence, start);
            var a := lo + LeadingSpaces(sentence[lo..start]);
            && a + |r| <= start
            && r == sentence[a..a + |r|]
            && (forall i :: lo <= i < a ==> IsSpace(sentence[i]))
            && (forall i :: a + |r| <= i < start ==> IsSpace(sentence[i]))
  {
    StripSliceShape(sentence, LeftWindow(start), start);
  }

  /** `sentence[end:end + 40].strip()`; the slice is cut short at the end
      of the sentence. */
  function RightContext(sentence: string, end: nat): (r: string)
    requires end <= |sentence|
    ensures |r| <= ContextWidth
    ensures exists i :: end <= i && i + |r| <= RightWindow(sentence, end) && OccursAt(sentence, r, i)
    ensures r == [] || (!IsSpace(r[0]) && !IsSpace(r[|r| - 1]))
  {
    var hi := RightWindow(sentence, end);
    StripSliceShape(sentence, end, hi);
    var r := Strip(sentence[end..hi]);
    var a := end + LeadingSpaces(sentence[end..hi]);
    assert OccursAt(sentence, r, a);
    r
  }

  /** The right context is all of the window after the word except the
      whitespace at either end of it. */
  lemma {:induction false} RightContextExact(sentence: string, end: nat)
    requires end <= |sentence|
    ensures var hi, r := RightWindow(sentence, end), RightContext(sentence, end);
            var a := end + LeadingSpaces(sentence[end..hi]);
            && a + |r| <= hi
            && r == sentence[a..a + |r|]
            && (forall i :: end <= i < a ==> IsSpace(sentence[i]))
            && (forall i :: a + |r| <= i < hi ==> IsSpace(sentence[i]))
  {
    StripSliceShape(sentence, end, RightWindow(sentence, end));
  }

  /** `f"{left_context} {mask} {right_context}"`: the mask placeholder
      always occurs in it, so the "masking failed" fallback that follows
      can never be taken. */
  function MaskedQuery(left: string, mask: string, right: string): (q: string)
    ensures |q| == |left| + |mask| + |right| + 2
    ensures q[..|left|] == left && q[|left| + |mask| + 2..] == right
    ensures Contains(q, mask)
  {
    var q := left + " " + mask + " " + right;
    assert q == (left + " ") + mask + (" " + right);
    ContainsMiddle(left + " ", mask, " " + right);
    q
  }

  /** The query the oracle sees: the context around the first whole-word
      occurrence of `word`, with the word replaced by the mask. */
  function QueryFor(c: SpellChecker, sentence: string, word: string): (q: Option<string>)
    ensures q.None? <==> SearchWholeWord(sentence, word, 0).None?
    ensures q.Some? ==> Contains(q.value, c.maskToken)
  {
    match SearchWholeWord(sentence, word, 0)
    case None => None
    case Some(start) =>
      Some(MaskedQuery(LeftContext(sentence, start), c.maskToken,
                       RightContext(sentence, start + |word|)))
  }

  // ---------------------------------------------------------------------
  // Filtering and scoring the oracle's predictions

  /** `raw * (1 - dist / 3)`: linear decay with the edit distance. */
  function BlendedScore(raw: real, dist: nat): (r: real)
    ensures raw >= 0.0 && dist <= MaxEdits ==> 0.0 <= r <= raw
    ensures dist == MaxEdits ==> r == 0.0
    ensures raw > 0.0 && 0 < dist ==> r < raw
  {
    var factor := 1.0 - (dist as real) / (MaxEdits as real);
    ScaleBelow(raw, factor);
    raw * factor
  }

  /** Scaling a non-negative number by a factor in `[0, 1]` keeps it
      between zero and itself, strictly below when the factor is below one. */
  lemma {:induction false} ScaleBelow(x: real, f: real)
    ensures x >= 0.0 && 0.0 <= f <= 1.0 ==> 0.0 <= x * f <= x
    ensures x > 0.0 && f < 1.0 ==> x * f < x
  {
    assert x - x * f == x * (1.0 - f);
  }

  /** A prediction the filter lets through, ignoring only duplicates: above
      the confidence floor, a dictionary word after normalisation, and a
      genuine but close edit of the word. */
  ghost predicate Acceptable(dict: set<string>, word: string, p: Prediction)
  {
    var cand := NormalizeToken(p.tokenStr);
    p.score >= MinOracleScore && cand in dict && 0 < Dist(cand, word) <= MaxEdits
  }

  /** The suggestion a prediction becomes: its normalised token, scored
      by `raw * (1 - dist / 3)`. */
  function Scored(word: string, p: Prediction): Suggestion
  {
    var cand := NormalizeToken(p.tokenStr);
    Suggestion(cand, BlendedScore(p.score, Dist(cand, word)))
  }

  /** One iteration for a prediction above the floor: append it when its
      candidate is unseen, in the dictionary and within reach. The
      accumulator only grows, by at most the one suggestion the prediction
      becomes, and never gains a repeated candidate. */
  function Consider(dict: set<string>, word: string, p: Prediction, acc: seq<Suggestion>): (acc': seq<Suggestion>)
    requires p.score >= MinOracleScore
    ensures |acc| <= |acc'| <= |acc| + 1 && acc'[..|acc|] == acc
    ensures |acc'| == |acc| + 1 ==> OriginOf(dict, word, p, acc'[|acc|])
    ensures Distinct(Candidates(acc)) ==> Distinct(Candidates(acc'))
    ensures Acceptable(dict, word, p) && Scored(word, p).candidate !in Candidates(acc)
            ==> acc' == acc + [Scored(word, p)]
    ensures !(Acceptable(dict, word, p) && Scored(word, p).candidate !in Candidates(acc))
            ==> acc' == acc
  {
    var cand := NormalizeToken(p.tokenStr);
    var dist := Dist(cand, word);
    if cand !in Candidates(acc) && cand in dict && 0 < dist <= MaxEdits
    then
      var s := Suggestion(cand, BlendedScore(p.score, dist));
      DistinctAppend(acc, s);
      assert (acc + [s])[..|acc|] == acc;
      acc + [s]
    else acc
  }

  /** The loop over `results` from index `i` on, with `acc` the suggestions
      accepted so far (its candidates are the `seen` set). After every
      prediction above the floor, the loop stops once `k` are accepted. */
  function RankFrom(dict: set<string>, word: string, k: int, preds: seq<Prediction>,
                    i: nat, acc: seq<Suggestion>): seq<Suggestion>
    requires i <= |preds|
    decreases |preds| - i
  {
    if i == |preds| then acc
    else if preds[i].score < MinOracleScore then RankFrom(dict, word, k, preds, i + 1, acc)
    else
      var acc' := Consider(dict, word, preds[i], acc);
      if |acc'| >= k then acc' else RankFrom(dict, word, k, preds, i + 1, acc')
  }

  /** The filtered, scored suggestions for one oracle answer: at most `k`
      (one when `k` is not positive), no candidate twice, each one what an
      acceptable prediction becomes, in the oracle's relative order (they
      are not re-sorted by their final score). */
  function Rank(dict: set<string>, word: string, k: int, preds: seq<Prediction>): (r: seq<Suggestion>)
    ensures |r| <= Cap(k)
    ensures Distinct(Candidates(r))
    ensures exists idx :: Origins(dict, word, preds, idx, r)
  {
    RankFromFacts(dict, word, k, preds, 0, [], []);
    RankFrom(dict, word, k, preds, 0, [])
  }

  /** Suggestion `s` is what the acceptable prediction `p` becomes. */
  ghost predicate OriginOf(dict: set<string>, word: string, p: Prediction, s: Suggestion)
  {
    Acceptable(dict, word, p) && s == Scored(word, p)
  }

  /** `idx` maps each element of `xs` to a position it is related to by
      `rel`, in strictly increasing order. */
  ghost predicate IndexedBy<T>(idx: seq<nat>, xs: seq<T>, rel: (nat, T) -> bool)
  {
    && |idx| == |xs|
    && (forall a, b :: 0 <= a < b < |idx| ==> idx[a] < idx[b])
    && (forall a :: 0 <= a < |idx| ==> rel(idx[a], xs[a]))
  }

  lemma {:induction false} IndexedByAppend<T>(idx: seq<nat>, xs: seq<T>, rel: (nat, T) -> bool, i: nat, x: T)
    requires IndexedBy(idx, xs, rel)
    requires forall a :: 0 <= a < |idx| ==> idx[a] < i
    requires rel(i, x)
    ensures IndexedBy(idx + [i], xs + [x], rel)
  {
    var idx', xs' := idx + [i], xs + [x];
    forall a | 0 <= a < |idx'|
      ensures rel(idx'[a], xs'[a])
    {
      if a < |idx| {
        assert idx'[a] == idx[a] && xs'[a] == xs[a];
      }
    }
  }

  /** Relates a position of `preds` to the suggestion its prediction
      becomes. */
  ghost function OriginRel(dict: set<string>, word: string, preds: seq<Prediction>): (nat, Suggestion) -> bool
  {
    (j: nat, s: Suggestion) => j < |preds| && OriginOf(dict, word, preds[j], s)
  }

  /** `idx` maps each suggestion to the prediction it came from, in
      strictly increasing order. */
  ghost predicate Origins(dict: set<string>, word: string, preds: seq<Prediction>,
                          idx: seq<nat>, ss: seq<Suggestion>)
  {
    IndexedBy(idx, ss, OriginRel(dict, word, preds))
  }

  lemma {:induction false} DistinctAppend(ss: seq<Suggestion>, s: Suggestion)
    requires s.candidate !in Candidates(ss)
    ensures Distinct(Candidates(ss)) ==> Distinct(Candidates(ss + [s]))
  {
    assert Candidates(ss + [s]) == Candidates(ss) + [s.candidate];
  }

  /** One iteration keeps the invariant and yields the extended witness. */
  lemma {:induction false} ConsiderKeeps(dict: set<string>, word: string, preds: seq<Prediction>, i: nat,
                      acc: seq<Suggestion>, idx: seq<nat>) returns (idx': seq<nat>)
    requires i < |preds| && preds[i].score >= MinOracleScore
    requires Origins(dict, word, preds, idx, acc)
    requires forall a :: 0 <= a < |idx| ==> idx[a] < i
    requires Distinct(Candidates(acc))
    ensures var acc' := Consider(dict, word, preds[i], acc);
            && Origins(dict, word, preds, idx', acc')
            && (forall a :: 0 <= a < |idx'| ==> idx'[a] < i + 1)
            && Distinct(Candidates(acc'))
            && |acc'| <= |acc| + 1
  {
    var p := preds[i];
    if Acceptable(dict, word, p) && Scored(word, p).candidate !in Candidates(acc) {
      IndexedByAppend(idx, acc, OriginRel(dict, word, preds), i, Scored(word, p));
      idx' := idx + [i];
    } else {
      idx' := idx;
    }
  }

  /** The loop invariant of the filter, carried through the recursion. */
  lemma {:induction false} RankFromFacts(dict: set<string>, word: string, k: int,
                                         preds: seq<Prediction>, i: nat,
                                         acc: seq<Suggestion>, idx: seq<nat>)
    requires i <= |preds|
    requires Origins(dict, word, preds, idx, acc)
    requires forall a :: 0 <= a < |idx| ==> idx[a] < i
    requires Distinct(Candidates(acc))
    requires |acc| < Cap(k)
    ensures var r := RankFrom(dict, word, k, preds, i, acc);
            && |r| <= Cap(k)
            && Distinct(Candidates(r))
            && (exists idx' :: Origins(dict, word, preds, idx', r))
    decreases |preds| - i
  {
    if i == |preds| {
      return;
    }
    if preds[i].score < MinOracleScore {
      RankFromFacts(dict, word, k, preds, i + 1, acc, idx);
      return;
    }
    var acc' := Consider(dict, word, preds[i], acc);
    var idx' := ConsiderKeeps(dict, word, preds, i, acc, idx);
    if |acc'| < k {
      RankFromFacts(dict, word, k, preds, i + 1, acc', idx');
    }
  }

  /** At most `k` suggestions (one when `k` is not positive), no candidate
      twice, every candidate a dictionary word within three edits of the
      word but different from it, no final score above its raw score. */
  lemma {:induction false} RankWellFormed(dict: set<string>, word: string, k: int, preds: seq<Prediction>)
    ensures var r := Rank(dict, word, k, preds);
            && |r| <= Cap(k)
            && Distinct(Candidates(r))
            && forall a :: 0 <= a < |r| ==>
                 r[a].candidate in dict && 0 < Dist(r[a].candidate, word) <= MaxEdits
                 && 0.0 <= r[a].score
  {
    var r := Rank(dict, word, k, preds);
    var idx :| Origins(dict, word, preds, idx, r);
    forall a | 0 <= a < |r|
      ensures r[a].candidate in dict && 0 < Dist(r[a].candidate, word) <= MaxEdits && 0.0 <= r[a].score
    {
      assert Acceptable(dict, word, preds[idx[a]]) && r[a] == Scored(word, preds[idx[a]]);
    }
  }

  /** Nothing acceptable from index `i` on leaves the accumulator as it is. */
  lemma {:induction false} RankFromNoneAcceptable(dict: set<string>, word: string, k: int,
                                                  preds: seq<Prediction>, i: nat,
                                                  acc: seq<Suggestion>)
    requires i <= |preds|
    requires forall j :: i <= j < |preds| ==> !Acceptable(dict, word, preds[j])
    ensures RankFrom(dict, word, k, preds, i, acc) == acc
    decreases |preds| - i
  {
    if i < |preds| {
      if preds[i].score >= MinOracleScore {
        assert Consider(dict, word, preds[i], acc) == acc;
      }
      RankFromNoneAcceptable(dict, word, k, preds, i + 1, acc);
    }
  }

  /** With an empty accumulator and `k >= 1`, the first acceptable
      prediction at or after `i` is always taken. */
  lemma {:induction false} RankFromFindsAcceptable(dict: set<string>, word: string, k: int,
                                                   preds: seq<Prediction>, i: nat, j: nat)
    requires k >= 1 && i <= j < |preds|
    requires Acceptable(dict, word, preds[j])
    ensures RankFrom(dict, word, k, preds, i, []) != []
    decreases j - i
  {
    if !Acceptable(dict, word, preds[i]) {
      RankFromFindsAcceptable(dict, word, k, preds, i + 1, j);
    } else {
      ConsiderFirst(dict, word, preds[i]);
      RankFromNonEmpty(dict, word, k, preds, i + 1, [Scored(word, preds[i])]);
    }
  }

  lemma {:induction false} ConsiderFirst(dict: set<string>, word: string, p: Prediction)
    requires Acceptable(dict, word, p)
    ensures Consider(dict, word, p, []) == [Scored(word, p)]
  {
    assert Candidates([]) == [];
  }

  /** The recursion only ever appends. */
  lemma {:induction false} RankFromNonEmpty(dict: set<string>, word: string, k: int,
                                            preds: seq<Prediction>, i: nat, acc: seq<Suggestion>)
    requires i <= |preds| && acc != []
    ensures RankFrom(dict, word, k, preds, i, acc) != []
    decreases |preds| - i
  {
    if i < |preds| && preds[i].score < MinOracleScore {
      RankFromNonEmpty(dict, word, k, preds, i + 1, acc);
    } else if i < |preds| {
      RankFromNonEmpty(dict, word, k, preds, i + 1, Consider(dict, word, preds[i], acc));
    }
  }

  /** No suggestion survives exactly when no prediction is acceptable; the
      "only when" half needs `k >= 1`, since a non-positive `k` stops the
      loop after the first prediction above the floor. */
  lemma {:induction false} RankEmptyIff(dict: set<string>, word: string, k: int, preds: seq<Prediction>)
    ensures (forall j :: 0 <= j < |preds| ==> !Acceptable(dict, word, preds[j])) ==>
              Rank(dict, word, k, preds) == []
    ensures k >= 1 && Rank(dict, word, k, preds) == [] ==>
              forall j :: 0 <= j < |preds| ==> !Acceptable(dict, word, preds[j])
  {
    if forall j :: 0 <= j < |preds| ==> !Acceptable(dict, word, preds[j]) {
      RankFromNoneAcceptable(dict, word, k, preds, 0, []);
    }
    if k >= 1 && exists j :: 0 <= j < |preds| && Acceptable(dict, word, preds[j]) {
      var j :| 0 <= j < |preds| && Acceptable(dict, word, preds[j]);
      RankFromFindsAcceptable(dict, word, k, preds, 0, j);
    }
  }

  /** Element `j` passes `ok` and no earlier passing element has the same
      candidate under `sc`. */
  ghost predicate FirstOfCandidate<T>(ok: T -> bool, sc: T -> Suggestion, xs: seq<T>, j: nat)
    requires j < |xs|
  {
    && ok(xs[j])
    && forall i :: 0 <= i < j && ok(xs[i]) ==> sc(xs[i]).candidate != sc(xs[j]).candidate
  }

  /** The first `n` elements filtered by `ok`, scored by `sc`, keeping only
      the first element of each candidate, in order. */
  ghost function FirstsOf<T>(ok: T -> bool, sc: T -> Suggestion, xs: seq<T>, n: nat): seq<Suggestion>
    requires n <= |xs|
  {
    if n == 0 then []
    else FirstsOf(ok, sc, xs, n - 1) + (if FirstOfCandidate(ok, sc, xs, n - 1) then [sc(xs[n - 1])] else [])
  }

  /** The reference ranking of the first `n` predictions, with no cut-off:
      each candidate scored by its first acceptable prediction, in the
      oracle's order. */
  ghost function FirstAcceptable(dict: set<string>, word: string, preds: seq<Prediction>, n: nat): seq<Suggestion>
    requires n <= |preds|
  {
    FirstsOf(p => Acceptable(dict, word, p), p => Scored(word, p), preds, n)
  }

  /** The first `k` elements of `s`, or all of it when it is shorter. */
  function Take<T>(s: seq<T>, k: nat): (r: seq<T>)
    ensures |r| == if |s| <= k then |s| else k
    ensures r == s[..|r|]
  {
    if |s| <= k then s else s[..k]
  }

  /** The filtered list proposes exactly the candidates of the passing
      elements among the first `n`. */
  lemma {:induction false} FirstsOfCandidates<T>(ok: T -> bool, sc: T -> Suggestion, xs: seq<T>, n: nat)
    requires n <= |xs|
    ensures forall x :: x in Candidates(FirstsOf(ok, sc, xs, n)) <==>
              exists j :: 0 <= j < n && ok(xs[j]) && sc(xs[j]).candidate == x
  {
    if n > 0 {
      FirstsOfCandidates(ok, sc, xs, n - 1);
      var prev, cur := FirstsOf(ok, sc, xs, n - 1), FirstsOf(ok, sc, xs, n);
      var key := sc(xs[n - 1]).candidate;
      if FirstOfCandidate(ok, sc, xs, n - 1) {
        assert Candidates(cur) == Candidates(prev) + [key];
      } else {
        assert cur == prev;
      }
      forall x
        ensures x in Candidates(cur) <==> exists j :: 0 <= j < n && ok(xs[j]) && sc(xs[j]).candidate == x
      {
        if x in Candidates(cur) && x !in Candidates(prev) {
          assert ok(xs[n - 1]) && key == x;
        }
        if exists j :: 0 <= j < n && ok(xs[j]) && sc(xs[j]).candidate == x {
          var j :| 0 <= j < n && ok(xs[j]) && sc(xs[j]).candidate == x;
          if j == n - 1 && !FirstOfCandidate(ok, sc, xs, n - 1) {
            var i :| 0 <= i < n - 1 && ok(xs[i]) && sc(xs[i]).candidate == key;
            assert x in Candidates(prev);
          } else if j < n - 1 {
            assert x in Candidates(prev);
          }
        }
      }
    }
  }

  /** The filtered list of fewer elements is a prefix of that of more. */
  lemma {:induction false} FirstsOfPrefix<T>(ok: T -> bool, sc: T -> Suggestion, xs: seq<T>, n: nat, m: nat)
    requires n <= m <= |xs|
    ensures var short, long := FirstsOf(ok, sc, xs, n), FirstsOf(ok, sc, xs, m);
            |short| <= |long| && long[..|short|] == short
    decreases m
  {
    if n < m {
      FirstsOfPrefix(ok, sc, xs, n, m - 1);
      var short := FirstsOf(ok, sc, xs, n);
      var mid := FirstsOf(ok, sc, xs, m - 1);
      var long := FirstsOf(ok, sc, xs, m);
      assert long[..|mid|] == mid;
      assert long[..|short|] == mid[..|short|];
    }
  }

  /** One loop step moves the accumulator from the reference ranking of
      the first `i` predictions to that of the first `i + 1`, which is at
      most one suggestion longer; a prediction below the floor leaves it
      as it is. */
  lemma {:induction false} ReferenceStep(dict: set<string>, word: string, preds: seq<Prediction>, i: nat)
    requires i < |preds|
    ensures var before, after := FirstAcceptable(dict, word, preds, i), FirstAcceptable(dict, word, preds, i + 1);
            && |before| <= |after| <= |before| + 1
            && (preds[i].score < MinOracleScore ==> after == before)
            && (preds[i].score >= MinOracleScore ==> Consider(dict, word, preds[i], before) == after)
  {
    FirstsOfCandidates(p => Acceptable(dict, word, p), p => Scored(word, p), preds, i);
  }

  /** From a reference prefix with room left, the loop ends with the
      first `k` suggestions of the whole reference ranking. */
  lemma {:induction false} RankFromReference(dict: set<string>, word: string, k: int,
                                             preds: seq<Prediction>, i: nat, acc: seq<Suggestion>)
    requires k >= 1 && i <= |preds|
    requires acc == FirstAcceptable(dict, word, preds, i) && |acc| < k
    ensures RankFrom(dict, word, k, preds, i, acc) == Take(FirstAcceptable(dict, word, preds, |preds|), k)
    decreases |preds| - i
  {
    if i == |preds| {
      assert RankFrom(dict, word, k, preds, i, acc) == acc;
      assert Take(acc, k) == acc;
    } else {
      ReferenceStep(dict, word, preds, i);
      var next := FirstAcceptable(dict, word, preds, i + 1);
      if preds[i].score >= MinOracleScore && |next| >= k {
        ReferenceReachesK(dict, word, k, preds, i + 1);
      } else {
        RankFromReference(dict, word, k, preds, i + 1, next);
      }
    }
  }

  /** Once the reference ranking of a prefix holds `k` suggestions, they
      are the first `k` of the whole reference ranking. */
  lemma {:induction false} ReferenceReachesK(dict: set<string>, word: string, k: int,
                                             preds: seq<Prediction>, n: nat)
    requires k >= 1 && n <= |preds| && |FirstAcceptable(dict, word, preds, n)| == k
    ensures Take(FirstAcceptable(dict, word, preds, |preds|), k) == FirstAcceptable(dict, word, preds, n)
  {
    FirstsOfPrefix(p => Acceptable(dict, word, p), p => Scored(word, p), preds, n, |preds|);
  }

  /** For `k >= 1` the ranking is the first `k` of the reference ranking:
      every acceptable candidate is taken, scored by its first acceptable
      prediction, until `k` are held or the predictions run out. */
  lemma {:induction false} RankIsReference(dict: set<string>, word: string, k: int, preds: seq<Prediction>)
    requires k >= 1
    ensures Rank(dict, word, k, preds) == Take(FirstAcceptable(dict, word, preds, |preds|), k)
  {
    RankFromReference(dict, word, k, preds, 0, []);
  }

  /** A ranking shorter than `k` holds the candidate of every acceptable
      prediction. */
  lemma {:induction false} RankComplete(dict: set<string>, word: string, k: int, preds: seq<Prediction>)
    requires k >= 1
    ensures |Rank(dict, word, k, preds)| < k ==>
              forall j :: 0 <= j < |preds| && Acceptable(dict, word, preds[j]) ==>
                Scored(word, preds[j]).candidate in Candidates(Rank(dict, word, k, preds))
  {
    RankIsReference(dict, word, k, preds);
    FirstsOfCandidates(p => Acceptable(dict, word, p), p => Scored(word, p), preds, |preds|);
  }

  /** The ranking is not re-sorted by final score: for any lowercase word,
      a two-letter extension the oracle ranks first (raw 0.6, final 0.2)
      stays ahead of a one-letter extension ranked second (raw 0.5, final
      1/3) although its final score is lower. */
  lemma {:induction false} RankNotSortedByScore(w: string, x: char, y: char, z: char)
    requires forall i :: 0 <= i < |w| ==> IsAsciiLower(w[i])
    requires IsAsciiLower(x) && IsAsciiLower(y) && IsAsciiLower(z)
    ensures var far, near := w + [x, y], w + [z];
            var r := Rank({far, near}, w, 3, [Prediction(far, 0.6), Prediction(near, 0.5)]);
            && r == [Suggestion(far, 0.2), Suggestion(near, 0.5 * (1.0 - 1.0 / 3.0))]
            && r[0].score < r[1].score
  {
    var far, near := w + [x, y], w + [z];
    var p0, p1 := Prediction(far, 0.6), Prediction(near, 0.5);
    DistExtension(w, x, y, z);
    PlainExtensions(w, x, y, z);
    NormalizePlainWord(far);
    NormalizePlainWord(near);
    assert Scored(w, p0) == Suggestion(far, 0.2);
    assert Scored(w, p1) == Suggestion(near, 0.5 * (1.0 - 1.0 / 3.0));
    RankTwoAcceptable({far, near}, w, 3, p0, p1);
  }

  lemma {:induction false} PlainExtensions(w: string, x: char, y: char, z: char)
    requires forall i :: 0 <= i < |w| ==> IsAsciiLower(w[i])
    requires IsAsciiLower(x) && IsAsciiLower(y) && IsAsciiLower(z)
    ensures forall i :: 0 <= i < |w + [x, y]| ==> IsAsciiLower((w + [x, y])[i])
    ensures forall i :: 0 <= i < |w + [z]| ==> IsAsciiLower((w + [z])[i])
  {
  }

  /** Two acceptable predictions with different candidates both make it,
      in the oracle's order, when `k` leaves room for both. */
  lemma {:induction false} RankTwoAcceptable(dict: set<string>, word: string, k: int, p0: Prediction, p1: Prediction)
    requires k >= 2
    requires Acceptable(dict, word, p0) && Acceptable(dict, word, p1)
    requires Scored(word, p0).candidate != Scored(word, p1).candidate
    ensures Rank(dict, word, k, [p0, p1]) == [Scored(word, p0), Scored(word, p1)]
  {
    var preds := [p0, p1];
    var s0, s1 := Scored(word, p0), Scored(word, p1);
    ConsiderFirst(dict, word, p0);
    assert RankFrom(dict, word, k, preds, 0, []) == RankFrom(dict, word, k, preds, 1, [s0]);
    assert Candidates([s0]) == [s0.candidate];
    assert Consider(dict, word, p1, [s0]) == [s0, s1];
    assert RankFrom(dict, word, k, preds, 1, [s0]) == [s0, s1];
  }

  /** Appending one or two characters costs one or two edits. */
  lemma {:induction false} DistExtension(w: string, x: char, y: char, z: char)
    ensures Dist(w + [x, y], w) == 2 && Dist(w + [z], w) == 1
  {
    DistSelf(w);
    assert (w + [z])[..|w|] == w;
    assert Dist(w + [x], w) == 1 by {
      assert (w + [x])[..|w|] == w;
    }
    assert (w + [x, y])[..|w| + 1] == w + [x];
  }

  // ---------------------------------------------------------------------
  // suggest_for_word

  /** The oracle branch: the ranked predictions for the masked query, or
      `None` when the word has no whole-word occurrence or the oracle fails.
      The "masking failed" case is never taken, since the query always
      holds the mask placeholder. */
  function OracleRanking(c: SpellChecker, sentence: string, word: string, k: int): (r: Option<seq<Suggestion>>)
    ensures r.None? <==> SearchWholeWord(sentence, word, 0).None?
                         || c.oracle(QueryFor(c, sentence, word).value, c.topK).Failure?
    ensures r.Some? ==> r.value == Rank(c.dictionary, word, k, c.oracle(QueryFor(c, sentence, word).value, c.topK).value)
  {
    match QueryFor(c, sentence, word)
    case None => None
    case Some(q) =>
      if !Contains(q, c.maskToken) then None
      else
        match c.oracle(q, c.topK)
        case Failure(_) => None
        case Success(preds) => Some(Rank(c.dictionary, word, k, preds))
  }

  /** `suggest_for_word(sentence, word, k)`. Every fallback, including the
      exception handler, returns the fuzzy matches; a `ValueError` from
      the fuzzy matcher inside the handler escapes as a failure. */
  function Suggest(c: SpellChecker, sentence: string, word: string, k: int): (r: Result<seq<Suggestion>, string>)
    ensures k >= 1 ==> r.Success?
    ensures r.Failure? ==> r == FuzzyMatch(c, word, k)
    ensures SearchWholeWord(sentence, word, 0).None? ==> r == FuzzyMatch(c, word, k)
  {
    match OracleRanking(c, sentence, word, k)
    case Some(ranked) =>
      if ranked == [] then FuzzyMatch(c, word, k) else Success(ranked)
    case None => FuzzyMatch(c, word, k)
  }

  ghost predicate NoneAcceptable(dict: set<string>, word: string, preds: seq<Prediction>)
  {
    forall j :: 0 <= j < |preds| ==> !Acceptable(dict, word, preds[j])
  }

  /** With an occurrence, the result is the fuzzy fallback when the oracle
      fails or none of its predictions is acceptable, and the oracle's
      ranking otherwise. */
  lemma {:induction false} SuggestOracleBranch(c: SpellChecker, sentence: string, word: string, k: int)
    requires QueryFor(c, sentence, word).Some?
    ensures var answer := c.oracle(QueryFor(c, sentence, word).value, c.topK);
            && (answer.Failure? ==> Suggest(c, sentence, word, k) == FuzzyMatch(c, word, k))
            && (answer.Success? && NoneAcceptable(c.dictionary, word, answer.value) ==>
                  Suggest(c, sentence, word, k) == FuzzyMatch(c, word, k))
            && (answer.Success? && !NoneAcceptable(c.dictionary, word, answer.value) && k >= 1 ==>
                  Suggest(c, sentence, word, k) == Success(Rank(c.dictionary, word, k, answer.value)))
  {
    var answer := c.oracle(QueryFor(c, sentence, word).value, c.topK);
    if answer.Success? {
      RankEmptyIff(c.dictionary, word, k, answer.value);
    }
  }

  /** Whichever branch produced them, the suggestions number at most `k`
      (one for a non-positive `k`), are dictionary words and are not
      repeated. */
  lemma {:induction false} SuggestWellFormed(c: SpellChecker, sentence: string, word: string, k: int)
    requires c.MatcherContract()
    ensures Suggest(c, sentence, word, k).Success? ==>
              var ss := Suggest(c, sentence, word, k).value;
              && |ss| <= Cap(k)
              && Distinct(Candidates(ss))
              && forall a :: 0 <= a < |ss| ==> ss[a].candidate in c.dictionary
  {
    match OracleRanking(c, sentence, word, k)
    case None =>
    case Some(ranked) =>
      var q := QueryFor(c, sentence, word).value;
      var preds := c.oracle(q, c.topK).value;
      RankWellFormed(c.dictionary, word, k, preds);
  }
}
