# Uzbek spell checker — lexical engine in Dafny

This project models the lexical core of an Uzbek spell checker.

- **Token normalisation.** The checker's `normalize_token` lowercases a token, unifies the typographic apostrophes ’ ‘ ʻ ʼ into `'`, strips edge punctuation and drops stray symbols. The word-list builder's variant does the same without lowercasing, and also rejects tokens shorter than two characters or made only of digits and symbols.
- **Edit distance.** The row-by-row Levenshtein computation.
- **Document check.** The text is split on whitespace. Each token is located in the text and normalised. A token that is neither empty nor in the dictionary is flagged with its exact character span and a list of suggestions.
- **Suggestions.** The word is located as a whole word. The 40 characters on each side of it, fewer at the ends of the text, are kept as context with surrounding whitespace stripped. The word is replaced by the fill-mask placeholder and the oracle's predictions are filtered:
  - score at least 0.001;
  - in the dictionary, not yet seen, and 1 to 3 edits from the word.
  
  Each kept prediction's score is scaled by `1 - dist/3`. The loop stops once `k` suggestions exist. When the oracle fails or nothing survives, the `difflib` fuzzy fallback is used.
- **Batch checking.** `check_batch` maps `check` over a list of texts.
- **Word-list builder.** Only articles from allowed source domains are counted. Each text is tokenised and the token counts are summed. The final list keeps the words that meet all of these:
  - seen at least 3 times;
  - at least 2 characters long;
  - starting with a letter;
  - containing no run of three digits.

  The list is sorted.

Modules follow the program's structure:

| file | module | models |
|---|---|---|
| `wrappers.dfy` | `Wrappers` | `Option` and `Result` |
| `chars.dfy` | `CharClass` | the character classes the regexes use (`\s`, `\w`, `\d`, `isalpha`, the apostrophe set), plus `lower` on one character |
| `text.dfy` | `Text` | `str.strip`, `str.find`, `in` on strings, string ordering |
| `normalize.dfy` | `Normalize` | `normalize_token` of `spell_checker/utils.py` |
| `levenshtein.dfy` | `EditDistance` | `levenshtein` of `spell_checker/utils.py` |
| `split.dfy` | `WhitespaceSplit` | `str.split()` with no separator, plus the character span of every token |
| `ranker.dfy` | `Ranker` | `is_valid_word`, `fuzzy_match_from_dict`, `suggest_for_word` |
| `checker.dfy` | `DocumentCheck` | `check`, `check_batch`; the loop is stated over an `Env` that supplies `is_valid_word`, the normaliser and the suggester, and `EnvFor` fixes them to `SpellChecker.IsValidWord`, `normalize_token` and `suggest_for_word` |
| `wordlist.dfy` | `Wordlist` | `normalize_token`, `tokenize`, `is_allowed_source`, the counting loop and `final_words` of `build_wordlist.py` |

Notes on how the model reads the code:

- **Ranking order.** Suggestions keep the oracle's order. They are not re-sorted by the blended score, so a later suggestion can score higher than an earlier one (`Ranker.RankNotSortedByScore`).
- **Whole-word search.** The `\b…\b` search for the word is case-sensitive against the original sentence. The word is already normalised (lowercased, apostrophes unified), so a capitalised or curly-quoted occurrence is not found and the fuzzy fallback answers. `Ranker.Suggest` states that fallback. `\b` depends only on whether the neighbouring characters are word characters. For a word that begins or ends in `'`, no boundary may exist at all.
- **Masking check.** The `mask_token not in masked_sentence` branch can never be taken. The masked sentence is built around the mask, so it always contains it (`Ranker.MaskedQuery`). `Ranker.OracleRanking` keeps the branch, and its contract shows the branch never yields the result.
- **Non-positive `k`.**
  - `get_close_matches` rejects a non-positive `n`, and the `except` handler's own call to `fuzzy_match_from_dict` raises the same error.
  - `check` therefore returns its error report: the text, no flags and the message. The flags collected before the failure are dropped, as the code does.
  - The oracle loop with `k <= 0` still stops only after the first prediction above the score floor, so it may return one suggestion. `Ranker.Cap` accounts for that.
- **Offsets.** `text.find(word, char_pos)` always finds the token exactly where `split` cut it. The reported spans are the token's real position (`WhitespaceSplit.FindLocatesToken`).
- **Hyphens.** A hyphen is not in the edge class `[a-zA-Z0-9ʻʼ']`, so leading and trailing hyphens are stripped. Inner hyphens survive the final `[^\w'ʻʼ-]` filter.
- **Builder `normalize_token`.**
  - It removes leading and trailing junk with one alternation regex. The model strips the leading run, then the trailing run, which gives the same result.
  - It never lowercases, so capitalised tokens reach the word list. The checker looks words up only after lowercasing, so such an entry can never match (`Wordlist.CapitalisedEntryUnreachable`).

## Model

| member | source | states |
|---|---|---|
| CharClass.UnifyQuote | spell_checker/utils.py:6 | no fancy quote survives; the result is `'` exactly when the input was `'` or one of ’ ‘ ʻ ʼ; every other character is unchanged |
| CharClass.LowerChar | spell_checker/utils.py:5 | no ASCII capital survives, and a capital maps to its lowercase letter; apostrophe-ness and ASCII alphanumeric-ness are unchanged |
| CharClass.LowerCharIdempotent | spell_checker/utils.py:5 | lowering twice is lowering once |
| Text.LeadingSpaces | spell_checker/core.py:99-100 | the length of the maximal whitespace prefix |
| Text.StripShape | spell_checker/core.py:99-100 | `strip()` returns a contiguous slice that starts right after the leading whitespace, has only whitespace after it, and neither starts nor ends with whitespace |
| Text.TrimLeftShape | spell_checker/utils.py:7 | trimming from the left yields a suffix that starts at a stop character (or is empty), and every removed character fails the stop test |
| Text.TrimRightShape | spell_checker/utils.py:8 | the mirror image: a prefix that ends at a stop character, and every removed character fails the stop test |
| Text.Find | spell_checker/core.py:153 | `str.find` from a start position: -1 when there is no occurrence at or after the start, otherwise the first such occurrence |
| Text.FindFirst | spell_checker/core.py:153 | the first occurrence at or after the start is what `Find` returns |
| Text.Contains | build_wordlist.py:19 | substring test: true iff the pattern occurs at some index |
| Text.ContainsMiddle | build_wordlist.py:19 | a string always contains a piece spliced into its middle |
| Text.LexLessIrreflexive | build_wordlist.py:51 | the string order used by `sorted` is irreflexive |
| Text.LexLessTransitive | build_wordlist.py:51 | the string order is transitive |
| Text.LexLessTotal | build_wordlist.py:51 | any two distinct strings are ordered one way or the other |
| Normalize.Lower | spell_checker/utils.py:5 | no ASCII capital remains and lowering the result again changes nothing; each position keeps its ASCII-alphanumeric class and its quote-mark class |
| Normalize.UnifyQuotes | spell_checker/utils.py:6 | no fancy quote remains; the result has `'` exactly where the input had a quote mark of any kind, and every other character is unchanged |
| Normalize.StripLeadingShape | spell_checker/utils.py:7 | the leading run of characters outside `[a-zA-Z0-9ʻʼ']` is removed and nothing else |
| Normalize.StripTrailingShape | spell_checker/utils.py:8 | the trailing run of such characters is removed and nothing else |
| Normalize.KeepOnlyKept | spell_checker/utils.py:9 | only characters of `[\w'ʻʼ-]` remain |
| Normalize.KeepOnlyAppend | spell_checker/utils.py:9 | the character filter distributes over concatenation |
| Normalize.KeepOnlyOfKept | spell_checker/utils.py:9 | the filter leaves an all-kept string unchanged |
| Normalize.KeepOnlyEnds | spell_checker/utils.py:9 | a kept first or last character stays first or last |
| Normalize.CleanCoreShape | spell_checker/utils.py:7-9 | after both strips and the filter, every character is kept and both ends are edge characters; the result is empty iff the input had no edge character |
| Normalize.CleanCoreFixpoint | spell_checker/utils.py:7-9 | an already clean string passes through unchanged |
| Normalize.LowerUnifiedShape | spell_checker/utils.py:5-6 | after lowering and quote unification no capital and no fancy quote remains, and the edge characters are exactly those that were ASCII alphanumerics or apostrophes |
| Normalize.NormalizeToken | spell_checker/utils.py:4-10 | a normal form holds only word characters, `'` and `-`, with no ASCII capital, no fancy quote and nothing lowering would change; a non-empty one begins and ends with `[a-z0-9']` |
| Normalize.NormalizeTokenEmptyIff | spell_checker/utils.py:4-10 | the result is empty iff the token had no ASCII letter or digit and no apostrophe of any kind |
| Normalize.NormalizeTokenIdempotent | spell_checker/utils.py:4-10 | normalising twice is normalising once |
| Normalize.NormalizePlainWord | spell_checker/utils.py:4-10 | a lowercase ASCII word is its own normal form |
| EditDistance.Min3 | spell_checker/utils.py:23 | the minimum of three values: no larger than any, equal to one |
| EditDistance.Levenshtein | spell_checker/utils.py:12-25 | the two-row algorithm with its early exits returns the recursive edit distance |
| EditDistance.FirstRow | spell_checker/utils.py:16 | `range(len(b)+1)` is the distance row for the empty prefix of `a` |
| EditDistance.NextRow | spell_checker/utils.py:18-23 | one inner loop turns the row for `a[..i]` into the row for `a[..i+1]` |
| EditDistance.DistCell | spell_checker/utils.py:20-23 | each cell is the minimum of insert, delete and replace |
| EditDistance.DistSelf | spell_checker/utils.py:13 | a string's distance to itself is 0 |
| EditDistance.DistEmpty | spell_checker/utils.py:14-15 | the distance to the empty string is the other length |
| EditDistance.DistSymmetric | spell_checker/utils.py:12-25 | the distance is symmetric |
| EditDistance.Dist | spell_checker/utils.py:12-25 | the reference edit distance lies between the length difference and the longer length |
| EditDistance.DistZeroIff | spell_checker/utils.py:13 | the distance is 0 exactly for equal strings |
| EditDistance.DistTriangle | spell_checker/utils.py:12-25 | the triangle inequality |
| WhitespaceSplit.SkipSpaces | spell_checker/core.py:147 | the first non-space position at or after `p` |
| WhitespaceSplit.WordEnd | spell_checker/core.py:147 | the end of the non-space run starting at `p` |
| WhitespaceSplit.SpansFrom | spell_checker/core.py:147 | the spans cover the text as whitespace gaps separating maximal non-space tokens |
| WhitespaceSplit.SplitAt | spell_checker/core.py:147 | each token is preceded by whitespace only since the previous token's end |
| WhitespaceSplit.Split | spell_checker/core.py:147 | `split()` returns exactly the slices the spans delimit, in order, and every token is non-empty and whitespace-free |
| WhitespaceSplit.SpanTokens | spell_checker/core.py:147 | every span is a non-empty, whitespace-free stretch inside the text |
| WhitespaceSplit.SplitUnique | spell_checker/core.py:147 | the split of a text is unique |
| WhitespaceSplit.FindLocatesToken | spell_checker/core.py:153-155 | `text.find(word, char_pos)` returns the token's own start |
| WhitespaceSplit.SpanAfterGap | spell_checker/core.py:153-155 | each token starts at or after the previous token's end, and its end becomes the new `char_pos` |
| WhitespaceSplit.SplitOrdered | spell_checker/core.py:147 | tokens are ordered and disjoint |
| Ranker.FuzzyMatch | spell_checker/core.py:86-89 | fails exactly for non-positive `k`; otherwise the matcher's words, each scored 0.001, so a matcher that keeps its documented contract yields at most `k` distinct dictionary words |
| Ranker.SearchWholeWord | spell_checker/core.py:93 | the first position where the word occurs with a `\b` boundary on both sides, or none |
| Ranker.LeftContext | spell_checker/core.py:99 | at most 40 characters, drawn from the 40 before the word and stripped |
| Ranker.LeftContextExact | spell_checker/core.py:99 | the left context is the whole window `sentence[max(0,start-40):start]` minus its leading and trailing whitespace |
| Ranker.RightContext | spell_checker/core.py:100 | at most 40 characters, drawn from the 40 after the word and stripped |
| Ranker.RightContextExact | spell_checker/core.py:100 | the right context is the whole window `sentence[end:end+40]`, cut at the sentence end, minus its leading and trailing whitespace |
| Text.StripSliceShape | spell_checker/core.py:99-100 | `strip()` of a slice, stated in positions of the whole string |
| Ranker.MaskedQuery | spell_checker/core.py:101-105 | left context, space, mask, space, right context; it always contains the mask |
| Ranker.QueryFor | spell_checker/core.py:93-105 | a query exists exactly when the whole-word search succeeds, and it contains the mask |
| Ranker.BlendedScore | spell_checker/core.py:124 | the blended score lies between 0 and the raw score, is 0 at three edits, and is strictly lower for any edit |
| Ranker.Consider | spell_checker/core.py:116-126 | the accumulator only grows, by at most one suggestion, which is the scored form of this acceptable prediction; it never gains a repeated candidate; the prediction is appended exactly when it is acceptable and its candidate is unseen |
| Ranker.RankFromFacts | spell_checker/core.py:112-129 | the loop keeps its invariant: at most `max(k,1)` suggestions, distinct candidates, each traced to an acceptable prediction at an increasing position |
| Ranker.Rank | spell_checker/core.py:112-129 | at most `max(k,1)` suggestions with distinct candidates, each the scored form of an acceptable prediction, in increasing oracle position rather than re-sorted by score |
| Ranker.RankWellFormed | spell_checker/core.py:112-129 | at most `max(k,1)` suggestions with distinct candidates; each is in the dictionary, 1 to 3 edits from the word, with a non-negative score |
| Ranker.RankFromNoneAcceptable | spell_checker/core.py:119-126 | with no acceptable prediction left, nothing is added |
| Ranker.RankFromFindsAcceptable | spell_checker/core.py:112-129 | with `k >= 1`, any acceptable prediction guarantees a non-empty result |
| Ranker.RankIsReference | spell_checker/core.py:112-129 | for `k >= 1` the suggestions are exactly the first `k` of an independent reference list: for each candidate, the scored form of its first acceptable prediction, in oracle order. So every acceptable unseen candidate is taken until `k` are held, and a repeated candidate keeps its first score |
| Ranker.RankComplete | spell_checker/core.py:112-129 | for `k >= 1`, a ranking shorter than `k` holds the candidate of every acceptable prediction |
| Ranker.RankEmptyIff | spell_checker/core.py:112-131 | for `k >= 1` the oracle branch is empty iff no prediction is acceptable |
| Ranker.RankNotSortedByScore | spell_checker/core.py:112-135 | a concrete answer whose suggestions come out with increasing scores |
| Ranker.RankTwoAcceptable | spell_checker/core.py:112-129 | two acceptable, distinct predictions are both returned, in oracle order |
| Ranker.DistExtension | spell_checker/utils.py:12-25 | appending two or one characters costs exactly two or one edits |
| Ranker.OracleRanking | spell_checker/core.py:93-129 | no ranking exactly when the word has no whole-word occurrence or the oracle fails, so the masking-failed case never decides the result; otherwise the ranking of the oracle's predictions |
| Ranker.Suggest | spell_checker/core.py:91-139 | succeeds for `k >= 1`; a failure is the fuzzy fallback's; a word not found falls back to fuzzy matching |
| Ranker.SuggestOracleBranch | spell_checker/core.py:107-139 | oracle failure and an empty ranking fall back to fuzzy matching; otherwise the ranking is returned |
| Ranker.SuggestWellFormed | spell_checker/core.py:91-139 | suggestions number at most `max(k,1)`, are distinct and come from the dictionary |
| DocumentCheck.FlagFor | spell_checker/core.py:152-161 | a token is flagged iff its normal form is non-empty and `is_valid_word` rejects it; a flag records the normal form, the raw token's span and the suggester's answer for that normal form; a failure is the suggester's |
| DocumentCheck.ReportFor | spell_checker/core.py:163-173 | the report echoes the text, and an error report has no flags |
| DocumentCheck.CheckSpec | spell_checker/core.py:145-173 | the report echoes the text; an error report has no flags and needs `k <= 0` |
| DocumentCheck.Check | spell_checker/core.py:145-173 | `check` computes the specified report |
| DocumentCheck.CheckLoop | spell_checker/core.py:146-166 | the loop with its `char_pos` cursor computes the report for the given `is_valid_word`, normaliser and suggester |
| DocumentCheck.CheckToken | spell_checker/core.py:151-161 | one iteration advances `char_pos` past the token and extends the flags, or stops with the error the whole text would give |
| DocumentCheck.CheckWord | spell_checker/core.py:152-161 | one iteration's cursor update and flag decision |
| DocumentCheck.CollectSticks | spell_checker/core.py:167-173 | once a token raises, the whole check fails with that error |
| DocumentCheck.CheckBatch | spell_checker/core.py:141-143 | the batch result is the list of per-text reports |
| DocumentCheck.ReportAt | spell_checker/core.py:141-143 | one report per text, the i-th being that text's check |
| DocumentCheck.FailureNeedsFailingCall | spell_checker/core.py:160 | the loop fails only where a suggestion call fails |
| DocumentCheck.FailureNeedsNonPositive | spell_checker/core.py:160 | only a non-positive `k` can make the check fail |
| DocumentCheck.UnknownSpansInText | spell_checker/core.py:157-158 | the spans of unknown tokens lie inside the text |
| DocumentCheck.FlagsAreUnknownTokens | spell_checker/core.py:151-161 | the flags correspond one-to-one, in order, to the unknown tokens, each carrying the suggester's answer for its normal form |
| DocumentCheck.FlagsOrdered | spell_checker/core.py:151-161 | flag spans are non-empty, increasing and non-overlapping |
| DocumentCheck.CheckReportsUnknownTokens | spell_checker/core.py:145-173 | an error-free report flags exactly the unknown tokens, in order, inside the text, each flag carrying `suggest_for_word`'s answer for its normal form; `k >= 1` never errors |
| DocumentCheck.FlagSuggestionsWellFormed | spell_checker/core.py:160-161 | with a matcher that keeps its contract, every flag's suggestions number at most `max(k,1)`, are distinct and are dictionary words |
| DocumentCheck.KnownTextHasNoFlags | spell_checker/core.py:157-158 | a text of known or empty tokens gets an empty report |
| Wordlist.NormalizeToken | build_wordlist.py:25-29 | the result is empty, or at least 2 characters of `[\w'ʻʼ-]` with no fancy quote, starting and ending with `[a-zA-Z0-9']`, with a character that is neither a digit nor a symbol |
| Wordlist.DigitsAndSymbolsDropped | build_wordlist.py:29 | a token with no letter-like character normalises to empty |
| Wordlist.LetterWordKept | build_wordlist.py:25-29 | an ASCII word of two or more letters is kept as it is, capitals included |
| Wordlist.NormalizeTokenIdempotent | build_wordlist.py:25-29 | normalising twice is normalising once |
| Wordlist.CapitalisedEntryUnreachable | build_wordlist.py:25-29 | a word with an ASCII capital is never the checker's normal form of any token |
| Wordlist.NonEmptyImagesAppend | build_wordlist.py:32 | the filtered map distributes over concatenation |
| Wordlist.NonEmptyImagesMembers | build_wordlist.py:32 | a string is in the filtered map iff it is non-empty and the image of some element |
| Wordlist.NonEmptyImagesIndexed | build_wordlist.py:32 | the filtered map over the first `n` words holds, in order, the image of exactly those positions whose image is non-empty |
| Wordlist.Tokenize | build_wordlist.py:31-32 | tokenize yields the non-empty normal forms of the whitespace tokens in order, one per such token, so repeats are kept (the witness is the increasing list of positions whose normal form is non-empty); each is a builder token, a fixpoint and whitespace-free |
| Wordlist.IsAllowedSource | build_wordlist.py:18-19 | allowed iff some domain occurs as a substring of the source |
| Wordlist.AllowedSourceFacts | build_wordlist.py:18-19 | a source containing a listed domain is allowed; with no domains nothing is |
| Wordlist.CountTokensAdditive | build_wordlist.py:41-46 | the counter over a concatenation of article lists is the sum of the two counters, and one article adds exactly the multiset of its tokens if its source is allowed and nothing otherwise, so a word's count is its number of occurrences in the tokens of the allowed articles |
| Wordlist.CountTokens | build_wordlist.py:41-46 | every token of an allowed article is counted at least as often as it occurs there, and every counted word comes from the tokens of an allowed article |
| Wordlist.InsertMembers | build_wordlist.py:51 | ordered insertion adds exactly the new word |
| Wordlist.InsertSorted | build_wordlist.py:51 | ordered insertion keeps the list strictly sorted |
| Wordlist.FinalWords | build_wordlist.py:51-57 | the list is strictly sorted; a word is in it iff it was counted and passes the count, length, alphabetic-first and digit-run filters |
| Wordlist.SortedUnique | build_wordlist.py:51 | two strictly sorted lists with the same words are equal, so the final list is determined |

## Left out

- Loading the fill-mask model and its `mask_token`, the dictionary file, settings and logging are left out. These are I/O. The model, the mask placeholder, `MODEL_TOP_K` and the dictionary are fields of `Ranker.SpellChecker`.
- The oracle's internals are left out. It is a function parameter that returns predictions or a failure; a missing `score` key is such a failure.
- `difflib.get_close_matches` is left out: its ratio and 0.8 cutoff are a foreign algorithm on floating point. It is the `closeMatches` parameter, and `Ranker.MatcherContract` states its documented guarantee.
- `lru_cache` on `fuzzy_match_from_dict` is left out. It changes no result.
- Floating point is modelled with `real`. That covers the scores and `1 - dist/3`. `round(score, 4)` in `as_dict` only affects serialisation and is left out.
- The `as_dict` dictionaries are left out. `Report` and `Flag` carry the same fields as datatypes.
- Exception message texts are left out. A failure carries a string, but its wording is not modelled.
- Python's Unicode tables are left out. `\w`, `\d`, `str.isalpha`, `\s` and `str.lower` are approximated in `CharClass`:
  - ASCII, Latin-1, Latin Extended and the modifier letters ʻ ʼ;
  - the Cyrillic blocks;
  - `lower` maps one code point to one code point and covers ASCII A–Z, Latin-1 À–Þ except ×, Cyrillic Ѐ–Я and Ғ Қ Ҳ. Python's `str.lower` has more mappings, including two that change what the regexes see: the Kelvin sign K (U+212A) becomes `k`, and İ (U+0130) becomes two code points.
- CharClass.LowerChar: the one-to-one table above, so its facts (capitals removed, ASCII-alphanumeric and quote classes kept) hold of the approximation. On the Kelvin sign, Python yields an ASCII letter and the model keeps a non-ASCII one.
- Normalize.NormalizeTokenEmptyIff: holds of the approximate `lower`. A token made only of Kelvin signs normalises to `k…` in Python but to the empty string here.
- In `build_wordlist.py` the dataset download, the CSV read of the domains and the JSON write are left out (lines 15, 35-40 and 59-62), and so are the progress prints. The domain list is a `set<string>` parameter and the articles are a `seq<Article>`.
- The `Counter` is a `multiset<string>`, so its iteration order plays no part.
- `tokenize` calls `normalize_token` twice per token. The model calls it once; the function is pure, so the results agree.
- Wordlist.Keep: `word[0].isalpha()` uses the approximate `CharClass.IsAlpha`, not Python's full Unicode table.
- DocumentCheck.CheckBatch: the batch is stated against the per-text `CheckSpec` through `Reports`. It is not restated per field.
- Ranker.Suggest: the masking-failed branch (lines 103-105) is the `!Contains(q, c.maskToken)` case of `Ranker.OracleRanking`. It is unreachable, since `Ranker.QueryFor` guarantees the mask is present. Its fuzzy fallback therefore never appears as its own outcome.
