/** Whole-text checking: `SpellChecker.check` and `check_batch` of
    spell_checker/core.py. */
module DocumentCheck {
  import opened Wrappers
  import opened Text
  import opened Normalize
  import opened WhitespaceSplit
  import opened Ranker

  /** A flagged token: its normal form, the `[charStart, charEnd)` range of
      the raw token in the text, and the suggestions for it. */
  datatype Flag = Flag(token: string, charStart: nat, charEnd: nat, suggestions: seq<Suggestion>)

  /** The dictionary `check` returns: the text, the flags, and the error
      text when the exception handler ran. */
  datatype Report = Report(originalText: string, flags: seq<Flag>, error: Option<string>)

  /** `suggest_for_word(text, ·, max_suggestions)` as the loop of one
      `check` call sees it: the suggestions for a normalised token, or the
      error the call raised. */
  type Suggester = string -> Result<seq<Suggestion>, string>

  /** What the loop of one `check` call consults for each token:
      `is_valid_word`, `normalize_token` and the suggester. */
  datatype Env = Env(isValid: string -> bool, norm: string -> string, suggest: Suggester)

  /** The collaborators of `check(text, k)`. */
  function EnvFor(c: SpellChecker, text: string, k: int): Env
  {
    Env(w => c.IsValidWord(w), NormalizeToken, w => Suggest(c, text, w, k))
  }

  /** The raw token a span covers. */
  function RawToken(text: string, sp: Span): string
    requires sp.start <= sp.end <= |text|
  {
    text[sp.start..sp.end]
  }

  /** The token is flagged: its normal form is non-empty and not a valid
      word. */
  predicate IsUnknown(env: Env, text: string, sp: Span)
    requires sp.start <= sp.end <= |text|
  {
    var clean := env.norm(RawToken(text, sp));
    clean != [] && !env.isValid(clean)
  }

  /** One loop iteration: no flag for an empty or known token, otherwise a
      flag carrying the suggestions, or the failure `suggest_for_word`
      raised. */
  function FlagFor(env: Env, text: string, sp: Span): (r: Result<Option<Flag>, string>)
    requires sp.start <= sp.end <= |text|
    ensures r.Success? && r.value.Some? ==>
              var f := r.value.value;
              && IsUnknown(env, text, sp)
              && f.token == env.norm(RawToken(text, sp))
              && f.charStart == sp.start && f.charEnd == sp.end
              && env.suggest(f.token) == Success(f.suggestions)
    ensures r.Success? && r.value.None? <==> !IsUnknown(env, text, sp)
    ensures r.Failure? ==> IsUnknown(env, text, sp) && env.suggest(env.norm(RawToken(text, sp))).Failure?
  {
    var clean := env.norm(RawToken(text, sp));
    if clean == [] || env.isValid(clean) then Success(None)
    else
      match env.suggest(clean)
      case Failure(e) => Failure(e)
      case Success(ss) => Success(Some(Flag(clean, sp.start, sp.end, ss)))
  }

  /** What one token contributes to the loop. */
  type Outcome = Result<Option<Flag>, string>

  /** One iteration's effect on the loop state: a failure ends the loop,
      a flag is appended, a skipped token changes nothing. */
  function Then(acc: Result<seq<Flag>, string>, one: Outcome): Result<seq<Flag>, string>
  {
    match acc
    case Failure(e) => Failure(e)
    case Success(fs) =>
      match one
      case Failure(e) => Failure(e)
      case Success(None) => Success(fs)
      case Success(Some(f)) => Success(fs + [f])
  }

  /** The loop run over a sequence of per-token outcomes. */
  function Collect(outs: seq<Outcome>): Result<seq<Flag>, string>
  {
    if |outs| == 0 then Success([]) else Then(Collect(outs[..|outs| - 1]), outs[|outs| - 1])
  }

  /** The outcomes of the first `n` tokens. */
  function Outcomes(env: Env, text: string, sps: seq<Span>, n: nat): (r: seq<Outcome>)
    requires n <= |sps| && InText(text, sps)
    ensures |r| == n
  {
    if n == 0 then [] else Outcomes(env, text, sps, n - 1) + [FlagFor(env, text, sps[n - 1])]
  }

  /** The loop over the first `n` tokens: the flags so far, or the first
      failure, which ends the loop. */
  function FlagsUpTo(env: Env, text: string, sps: seq<Span>, n: nat): Result<seq<Flag>, string>
    requires n <= |sps| && InText(text, sps)
  {
    if n == 0 then Success([]) else Then(FlagsUpTo(env, text, sps, n - 1), FlagFor(env, text, sps[n - 1]))
  }

  /** The report of the loop run with collaborators `env`: the flags in
      text order, or no flags and the error when a suggestion call raised. */
  function ReportFor(env: Env, text: string): (rep: Report)
    ensures rep.originalText == text
    ensures rep.error.Some? ==> rep.flags == []
  {
    var sps := Spans(text);
    match FlagsUpTo(env, text, sps, |sps|)
    case Success(fs) => Report(text, fs, None)
    case Failure(e) => Report(text, [], Some(e))
  }

  /** What `check(text, max_suggestions)` returns. */
  function CheckSpec(c: SpellChecker, text: string, k: int): (rep: Report)
    ensures rep.originalText == text
    ensures rep.error.Some? ==> rep.flags == [] && k <= 0
  {
    FailureNeedsNonPositive(c, text, k);
    ReportFor(EnvFor(c, text, k), text)
  }

  // ---------------------------------------------------------------------
  // The loop of `check`

  /** `check(text, max_suggestions)`. */
  method Check(c: SpellChecker, text: string, k: int) returns (rep: Report)
    ensures rep == CheckSpec(c, text, k)
  {
    rep := CheckLoop(EnvFor(c, text, k), text);
  }

  /** The body of `check`: split the text, locate each token with
      `text.find(word, char_pos)`, skip empty and known tokens, and flag the
      rest with their suggestions. */
  method CheckLoop(env: Env, text: string) returns (rep: Report)
    ensures rep == ReportFor(env, text)
  {
    var words := Split(text);
    ghost var sps := Spans(text);
    ghost var outs := Outcomes(env, text, sps, |sps|);
    CollectOutcomes(env, text, sps, |sps|);
    var charPos: nat := 0;
    var flags: seq<Flag> := [];
    for i := 0 to |words|
      invariant charPos == GapStart(sps, 0, i)
      invariant Collect(outs[..i]) == Success(flags)
    {
      var stop;
      charPos, flags, stop := CheckToken(env, text, sps, outs, i, words[i], charPos, flags);
      if stop.Some? {
        return Report(text, [], stop);
      }
    }
    assert outs[..|sps|] == outs;
    rep := Report(text, flags, None);
  }

  /** One iteration of the loop: the flags after token `i`, or the error
      that ends the whole loop. */
  method CheckToken(env: Env, text: string, ghost sps: seq<Span>,
                    ghost outs: seq<Outcome>, i: nat, word: string, charPos: nat, flags: seq<Flag>)
      returns (charPos': nat, flags': seq<Flag>, stop: Option<string>)
    requires IsSplit(text, 0, sps) && InText(text, sps) && i < |sps|
    requires outs == Outcomes(env, text, sps, |sps|)
    requires word == text[sps[i].start..sps[i].end] && charPos == GapStart(sps, 0, i)
    requires Collect(outs[..i]) == Success(flags)
    ensures charPos' == GapStart(sps, 0, i + 1)
    ensures stop.None? ==> Collect(outs[..i + 1]) == Success(flags')
    ensures stop.Some? ==> Collect(outs) == Failure(stop.value)
  {
    var one;
    charPos', one := CheckWord(env, text, sps, i, word, charPos);
    OutcomeAt(env, text, sps, |sps|, i);
    CollectStep(outs, i);
    flags' := flags;
    stop := None;
    if one.Failure? {
      CollectSticks(outs, i + 1);
      stop := Some(one.error);
    } else if one.value.Some? {
      flags' := flags + [one.value.value];
    }
  }

  /** The body of the loop for token `i`: `text.find(word, char_pos)`
      locates it, `char_pos` moves past it, and the token is flagged or
      skipped. */
  method CheckWord(env: Env, text: string, ghost sps: seq<Span>, i: nat,
                   word: string, charPos: nat)
      returns (charPos': nat, one: Result<Option<Flag>, string>)
    requires IsSplit(text, 0, sps) && InText(text, sps) && i < |sps|
    requires word == text[sps[i].start..sps[i].end] && charPos == GapStart(sps, 0, i)
    ensures charPos' == GapStart(sps, 0, i + 1)
    ensures one == FlagFor(env, text, sps[i])
  {
    var start := Find(text, word, charPos);
    FindLocatesToken(text, sps, i);
    var end := start + |word|;
    charPos' := end;
    one := FlagFor(env, text, Span(start, end));
  }

  /** The loop over a longer prefix is one more step of the shorter one. */
  lemma {:induction false} CollectStep(outs: seq<Outcome>, i: nat)
    requires i < |outs|
    ensures Collect(outs[..i + 1]) == Then(Collect(outs[..i]), outs[i])
  {
    assert outs[..i + 1][..i] == outs[..i];
  }

  /** Once the loop has failed, later outcomes do not matter. */
  lemma {:induction false} CollectSticks(outs: seq<Outcome>, n: nat)
    requires n <= |outs| && Collect(outs[..n]).Failure?
    ensures Collect(outs) == Collect(outs[..n])
    decreases |outs| - n
  {
    if n < |outs| {
      CollectStep(outs, n);
      CollectSticks(outs, n + 1);
    } else {
      assert outs[..n] == outs;
    }
  }

  /** Outcome `i` is the one for token `i`, and a prefix of the outcomes is
      the outcomes of the prefix. */
  lemma {:induction false} OutcomeAt(env: Env, text: string, sps: seq<Span>, n: nat, i: nat)
    requires i < n <= |sps| && InText(text, sps)
    ensures Outcomes(env, text, sps, n)[i] == FlagFor(env, text, sps[i])
    decreases n
  {
    if i < n - 1 {
      OutcomeAt(env, text, sps, n - 1, i);
    }
  }

  /** The loop run over the outcomes of the first `n` tokens is the loop
      over those tokens. */
  lemma {:induction false} CollectOutcomes(env: Env, text: string, sps: seq<Span>, n: nat)
    requires n <= |sps| && InText(text, sps)
    ensures Collect(Outcomes(env, text, sps, n)) == FlagsUpTo(env, text, sps, n)
  {
    if n > 0 {
      CollectOutcomes(env, text, sps, n - 1);
      var outs := Outcomes(env, text, sps, n);
      assert outs[..n - 1] == Outcomes(env, text, sps, n - 1);
    }
  }

  /** `f` applied to each element, in order. */
  function MapSeq<A, B>(f: A -> B, xs: seq<A>): seq<B>
  {
    if |xs| == 0 then [] else MapSeq(f, xs[..|xs| - 1]) + [f(xs[|xs| - 1])]
  }

  lemma {:induction false} MapSeqAt<A, B>(f: A -> B, xs: seq<A>, i: nat)
    requires i < |xs|
    ensures |MapSeq(f, xs)| == |xs|
    ensures MapSeq(f, xs)[i] == f(xs[i])
  {
    var init := xs[..|xs| - 1];
    if i < |init| {
      MapSeqAt(f, init, i);
      assert init[i] == xs[i];
    } else {
      MapSeqLength(f, init);
    }
  }

  lemma {:induction false} MapSeqLength<A, B>(f: A -> B, xs: seq<A>)
    ensures |MapSeq(f, xs)| == |xs|
  {
    if |xs| > 0 {
      MapSeqLength(f, xs[..|xs| - 1]);
    }
  }

  /** The reports for a list of texts, one per text, in order. */
  function Reports(c: SpellChecker, texts: seq<string>, k: int): seq<Report>
  {
    MapSeq(t => CheckSpec(c, t, k), texts)
  }

  /** `check_batch`: `check` applied to each text in turn. */
  method CheckBatch(c: SpellChecker, texts: seq<string>, k: int) returns (reps: seq<Report>)
    ensures reps == Reports(c, texts, k)
  {
    reps := [];
    for i := 0 to |texts|
      invariant reps == Reports(c, texts[..i], k)
    {
      var rep := Check(c, texts[i], k);
      assert texts[..i + 1][..i] == texts[..i];
      reps := reps + [rep];
    }
    assert texts[..|texts|] == texts;
  }

  /** One report per text, and report `i` is the one `check` gives for
      text `i`. */
  lemma {:induction false} ReportAt(c: SpellChecker, texts: seq<string>, k: int, i: nat)
    requires i < |texts|
    ensures |Reports(c, texts, k)| == |texts|
    ensures Reports(c, texts, k)[i] == CheckSpec(c, texts[i], k)
  {
    MapSeqAt(t => CheckSpec(c, t, k), texts, i);
  }

  // ---------------------------------------------------------------------
  // Properties

  /** The loop fails only where a suggestion call fails. */
  lemma {:induction false} FailureNeedsFailingCall(env: Env, text: string, sps: seq<Span>, n: nat)
    requires n <= |sps| && InText(text, sps)
    ensures FlagsUpTo(env, text, sps, n).Failure? ==> exists w :: env.suggest(w).Failure?
  {
    if n > 0 {
      FailureNeedsFailingCall(env, text, sps, n - 1);
      var sp := sps[n - 1];
      if FlagFor(env, text, sp).Failure? {
        assert env.suggest(env.norm(RawToken(text, sp))).Failure?;
      }
    }
  }

  /** A failure needs a non-positive `k`: for `k >= 1` every suggestion call
      succeeds. */
  lemma {:induction false} FailureNeedsNonPositive(c: SpellChecker, text: string, k: int)
    ensures var sps := Spans(text);
            FlagsUpTo(EnvFor(c, text, k), text, sps, |sps|).Failure? ==> k <= 0
  {
    var sps, env := Spans(text), EnvFor(c, text, k);
    FailureNeedsFailingCall(env, text, sps, |sps|);
    if exists w :: env.suggest(w).Failure? {
      var w :| env.suggest(w).Failure?;
      assert Suggest(c, text, w, k).Failure?;
    }
  }

  /** The spans of the unknown tokens among the first `n`, in order: the
      reference the flags are measured against. */
  function UnknownSpans(env: Env, text: string, sps: seq<Span>, n: nat): seq<Span>
    requires n <= |sps| && InText(text, sps)
  {
    if n == 0 then []
    else
      var prev := UnknownSpans(env, text, sps, n - 1);
      if IsUnknown(env, text, sps[n - 1]) then prev + [sps[n - 1]] else prev
  }

  lemma {:induction false} UnknownSpansInText(env: Env, text: string, sps: seq<Span>, n: nat)
    requires n <= |sps| && InText(text, sps)
    ensures InText(text, UnknownSpans(env, text, sps, n))
  {
    if n > 0 {
      UnknownSpansInText(env, text, sps, n - 1);
      var u := UnknownSpans(env, text, sps, n - 1);
      assert forall j :: 0 <= j < |u| ==> (u + [sps[n - 1]])[j] == u[j];
    }
  }

  /** Flag `f` is the one for span `sp`, carrying the suggestions for its
      normal form. */
  predicate FlagsSpan(env: Env, text: string, f: Flag, sp: Span)
    requires sp.start <= sp.end <= |text|
  {
    && f.charStart == sp.start && f.charEnd == sp.end
    && f.token == env.norm(RawToken(text, sp))
    && env.suggest(f.token) == Success(f.suggestions)
  }

  /** Flags `fs` are the flags for spans `u`, one each and in order. */
  predicate FlagsMatch(env: Env, text: string, fs: seq<Flag>, u: seq<Span>)
  {
    && |fs| == |u|
    && InText(text, u)
    && forall j :: 0 <= j < |u| ==> FlagsSpan(env, text, fs[j], u[j])
  }

  lemma {:induction false} FlagsMatchAppend(env: Env, text: string, fs: seq<Flag>, u: seq<Span>, f: Flag, sp: Span)
    requires FlagsMatch(env, text, fs, u)
    requires sp.start <= sp.end <= |text| && FlagsSpan(env, text, f, sp)
    ensures FlagsMatch(env, text, fs + [f], u + [sp])
  {
    forall j | 0 <= j < |u| + 1
      ensures (u + [sp])[j].start <= (u + [sp])[j].end <= |text|
              && FlagsSpan(env, text, (fs + [f])[j], (u + [sp])[j])
    {
      if j < |u| {
        assert (fs + [f])[j] == fs[j] && (u + [sp])[j] == u[j];
      }
    }
  }

  /** Without a failure, the flags are exactly the unknown tokens, one
      each and in text order, each carrying the suggestions for it. */
  lemma {:induction false} FlagsAreUnknownTokens(env: Env, text: string, sps: seq<Span>, n: nat)
    requires n <= |sps| && InText(text, sps)
    ensures var r := FlagsUpTo(env, text, sps, n);
            r.Success? ==> FlagsMatch(env, text, r.value, UnknownSpans(env, text, sps, n))
  {
    if n > 0 {
      FlagsAreUnknownTokens(env, text, sps, n - 1);
      var r := FlagsUpTo(env, text, sps, n - 1);
      var u := UnknownSpans(env, text, sps, n - 1);
      if r.Success? {
        var sp := sps[n - 1];
        var one := FlagFor(env, text, sp);
        if one.Success? && one.value.Some? {
          assert FlagsUpTo(env, text, sps, n).value == r.value + [one.value.value];
          assert UnknownSpans(env, text, sps, n) == u + [sp];
          FlagsMatchAppend(env, text, r.value, u, one.value.value, sp);
        }
      }
    }
  }

  /** The flags are in text order, do not overlap, and end by `bound`. */
  predicate OrderedBefore(fs: seq<Flag>, bound: nat)
  {
    && (forall j :: 0 <= j < |fs| ==> fs[j].charStart < fs[j].charEnd <= bound)
    && (forall i, j :: 0 <= i < j < |fs| ==> fs[i].charEnd <= fs[j].charStart)
  }

  lemma {:induction false} OrderedAppend(fs: seq<Flag>, f: Flag, bound: nat, bound': nat)
    requires OrderedBefore(fs, bound)
    requires bound <= f.charStart < f.charEnd <= bound'
    ensures OrderedBefore(fs + [f], bound')
  {
    assert forall j :: 0 <= j < |fs| ==> (fs + [f])[j] == fs[j];
  }

  /** In ordered spans, span `n - 1` lies between the gap before it and
      the gap after it. */
  lemma {:induction false} OrderedGap(sps: seq<Span>, n: nat)
    requires Ordered(sps) && 0 < n <= |sps|
    ensures GapStart(sps, 0, n - 1) <= sps[n - 1].start < sps[n - 1].end == GapStart(sps, 0, n)
  {
    if n > 1 {
      assert sps[n - 2].end <= sps[n - 1].start;
    }
  }

  /** A step of the loop keeps the flags ordered when the token lies
      after the previous flags. */
  lemma {:induction false} OrderedThen(acc: Result<seq<Flag>, string>, one: Outcome, g: nat, sp: Span)
    requires acc.Success? ==> OrderedBefore(acc.value, g)
    requires g <= sp.start < sp.end
    requires one.Success? && one.value.Some? ==>
               one.value.value.charStart == sp.start && one.value.value.charEnd == sp.end
    ensures Then(acc, one).Success? ==> OrderedBefore(Then(acc, one).value, sp.end)
  {
    if acc.Success? && one.Success? && one.value.Some? {
      OrderedAppend(acc.value, one.value.value, g, sp.end);
    }
  }

  /** A flag in the outcome, if any, covers exactly the span. */
  predicate Covers(one: Outcome, sp: Span)
  {
    one.Success? && one.value.Some? ==>
      one.value.value.charStart == sp.start && one.value.value.charEnd == sp.end
  }

  /** The loop over outcomes whose flags cover ordered spans yields
      ordered flags. */
  lemma {:induction false} CollectOrdered(outs: seq<Outcome>, sps: seq<Span>)
    requires Ordered(sps) && |outs| <= |sps|
    requires forall j :: 0 <= j < |outs| ==> Covers(outs[j], sps[j])
    ensures Collect(outs).Success? ==> OrderedBefore(Collect(outs).value, GapStart(sps, 0, |outs|))
  {
    var n := |outs|;
    if n > 0 {
      var init := outs[..n - 1];
      assert forall j :: 0 <= j < |init| ==> init[j] == outs[j];
      CollectOrdered(init, sps);
      OrderedGap(sps, n);
      OrderedThen(Collect(init), outs[n - 1], GapStart(sps, 0, n - 1), sps[n - 1]);
    }
  }

  /** Without a failure, the flags are in text order and do not overlap,
      and all lie before where the next token's search would start. */
  lemma {:induction false} FlagsOrdered(env: Env, text: string, sps: seq<Span>, n: nat)
    requires n <= |sps| && Ordered(sps) && InText(text, sps)
    ensures var r := FlagsUpTo(env, text, sps, n);
            r.Success? ==> OrderedBefore(r.value, GapStart(sps, 0, n))
  {
    var outs := Outcomes(env, text, sps, n);
    CollectOutcomes(env, text, sps, n);
    forall j | 0 <= j < n
      ensures Covers(outs[j], sps[j])
    {
      OutcomeAt(env, text, sps, n, j);
    }
    CollectOrdered(outs, sps);
  }

  /** The report's flags are exactly the unknown tokens of the text, in
      order, without overlap, each with the exact character range of its
      raw token; an error report has no flags and needs a non-positive
      `max_suggestions`. */
  lemma {:induction false} CheckReportsUnknownTokens(c: SpellChecker, text: string, k: int)
    ensures var rep, sps := CheckSpec(c, text, k), Spans(text);
            InText(text, sps) &&
            var u := UnknownSpans(EnvFor(c, text, k), text, sps, |sps|);
            && InText(text, u)
            && (rep.error.None? ==>
                  && |rep.flags| == |u|
                  && (forall j :: 0 <= j < |u| ==>
                        && rep.flags[j].charStart == u[j].start && rep.flags[j].charEnd == u[j].end
                        && rep.flags[j].token == NormalizeToken(RawToken(text, u[j]))
                        && Suggest(c, text, rep.flags[j].token, k) == Success(rep.flags[j].suggestions))
                  && OrderedBefore(rep.flags, |text|))
            && (k >= 1 ==> rep.error.None?)
  {
    var sps, env := Spans(text), EnvFor(c, text, k);
    UnknownSpansInText(env, text, sps, |sps|);
    FlagsAreUnknownTokens(env, text, sps, |sps|);
    SplitOrdered(text, 0, sps);
    FlagsOrdered(env, text, sps, |sps|);
    FailureNeedsNonPositive(c, text, k);
  }

  /** Whatever branch produced them, each flag's suggestions number at
      most `max_suggestions` (one when it is not positive), are dictionary
      words and repeat no candidate. */
  lemma {:induction false} FlagSuggestionsWellFormed(c: SpellChecker, text: string, k: int)
    requires c.MatcherContract()
    ensures var fs := CheckSpec(c, text, k).flags;
            forall j :: 0 <= j < |fs| ==>
              && |fs[j].suggestions| <= Cap(k)
              && Distinct(Candidates(fs[j].suggestions))
              && forall a :: 0 <= a < |fs[j].suggestions| ==> fs[j].suggestions[a].candidate in c.dictionary
  {
    CheckReportsUnknownTokens(c, text, k);
    var fs := CheckSpec(c, text, k).flags;
    forall j | 0 <= j < |fs|
      ensures && |fs[j].suggestions| <= Cap(k)
              && Distinct(Candidates(fs[j].suggestions))
              && forall a :: 0 <= a < |fs[j].suggestions| ==> fs[j].suggestions[a].candidate in c.dictionary
    {
      SuggestWellFormed(c, text, fs[j].token, k);
    }
  }

  /** A text whose tokens all normalise to nothing or to dictionary words
      gets no flags and no error. */
  lemma {:induction false} KnownTextHasNoFlags(c: SpellChecker, text: string, k: int)
    requires forall j :: 0 <= j < |Spans(text)| ==>
               var clean := NormalizeToken(RawToken(text, Spans(text)[j]));
               clean == [] || c.IsValidWord(clean)
    ensures CheckSpec(c, text, k) == Report(text, [], None)
  {
    var sps := Spans(text);
    AllKnownUpTo(EnvFor(c, text, k), text, sps, |sps|);
  }

  lemma {:induction false} AllKnownUpTo(env: Env, text: string, sps: seq<Span>, n: nat)
    requires n <= |sps| && InText(text, sps)
    requires forall j :: 0 <= j < n ==> !IsUnknown(env, text, sps[j])
    ensures FlagsUpTo(env, text, sps, n) == Success([])
  {
    if n > 0 {
      AllKnownUpTo(env, text, sps, n - 1);
    }
  }
}
