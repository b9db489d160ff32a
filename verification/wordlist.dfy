/** The offline word-list builder of build_wordlist.py: its own token
    normaliser (quotes unified, case kept), the tokenizer, the source
    filter, the token count over the allowed articles, and the final filter
    and sort that produce the dictionary. */
module Wordlist {
  import opened CharClass
  import opened Text
  import Normalize
  import opened WhitespaceSplit

  /** `MIN_COUNT`: a word seen fewer times is dropped. */
  const MinCount: nat := 3

  /** `MIN_LENGTH`: the shortest word kept in the final list. */
  const MinLength: nat := 2

  /** The shortest token `normalize_token` lets through (a literal `2`
      there, independent of `MIN_LENGTH`). */
  const MinTokenLength: nat := 2

  // ---------------------------------------------------------------------
  // normalize_token

  /** A character outside `[\d\W]`: a word character that is not a digit. */
  predicate IsLetterLike(c: char)
  {
    IsWordChar(c) && !IsDigit(c)
  }

  /** `re.fullmatch(r"[\d\W]+", s)` fails on a non-empty `s`. */
  predicate HasLetterLike(s: string)
  {
    exists i :: 0 <= i < |s| && IsLetterLike(s[i])
  }

  /** The shape of a token the builder keeps: at least two characters, one
      of them a letter-like word character, only kept characters and no
      fancy quote, starting and ending with `[a-zA-Z0-9']`. */
  predicate IsBuilderToken(r: string)
  {
    && |r| >= MinTokenLength
    && HasLetterLike(r)
    && (forall i :: 0 <= i < |r| ==> IsKeptChar(r[i]) && !IsFancyQuote(r[i]))
    && IsEdgeChar(r[0]) && IsEdgeChar(r[|r| - 1])
  }

  /** `normalize_token`: the four quote replacements, one substitution
      stripping non-`[a-zA-Z0-9ʻʼ']` runs at both ends, removal of
      characters outside `[\w a-zA-Z0-9ʻʼ'-]`, and then `""` unless the
      result has at least two characters and one of them is a non-digit
      word character. No lowercasing. The output is empty or a builder
      token. */
  function NormalizeToken(t: string): (r: string)
    ensures r == [] || IsBuilderToken(r)
  {
    var u := Normalize.UnifyQuotes(t);
    var r := Normalize.CleanCore(u);
    Normalize.CleanCoreShape(u);
    Normalize.CleanCoreCarries(u, c => !IsFancyQuote(c));
    if |r| >= MinTokenLength && HasLetterLike(r) then r else []
  }

  /** A token made only of digits and non-word characters normalises to
      `""`: the `[\d\W]+` rule, stated on the raw token. */
  lemma {:induction false} DigitsAndSymbolsDropped(t: string)
    requires forall i :: 0 <= i < |t| ==> !IsLetterLike(t[i])
    ensures NormalizeToken(t) == []
  {
    var u := Normalize.UnifyQuotes(t);
    assert forall i :: 0 <= i < |u| ==> !IsLetterLike(u[i]);
    Normalize.CleanCoreCarries(u, c => !IsLetterLike(c));
  }

  /** A word of at least two ASCII letters is kept as it is, capitals
      included: unlike the spell checker's normaliser, this one does not
      lowercase. */
  lemma {:induction false} LetterWordKept(w: string)
    requires |w| >= MinTokenLength
    requires forall i :: 0 <= i < |w| ==> IsAsciiUpper(w[i]) || IsAsciiLower(w[i])
    ensures NormalizeToken(w) == w
  {
    assert Normalize.UnifyQuotes(w) == w;
    Normalize.CleanCoreFixpoint(w);
    assert IsLetterLike(w[0]);
  }

  /** Normalising a builder token changes nothing, so normalising twice is
      normalising once. */
  lemma {:induction false} NormalizeTokenIdempotent(t: string)
    ensures NormalizeToken(NormalizeToken(t)) == NormalizeToken(t)
  {
    var r := NormalizeToken(t);
    if r == [] {
      Normalize.CleanCoreShape([]);
    } else {
      assert Normalize.UnifyQuotes(r) == r;
      Normalize.CleanCoreFixpoint(r);
    }
  }

  /** No kept character is whitespace. */
  lemma {:induction false} KeptNotSpace(c: char)
    requires IsKeptChar(c)
    ensures !IsSpace(c)
  {
  }

  /** A word the builder writes with an ASCII capital in it can never be
      found by the spell checker: every token the checker looks up is
      lowercased first. */
  lemma {:induction false} CapitalisedEntryUnreachable(w: string, t: string)
    requires exists i :: 0 <= i < |w| && IsAsciiUpper(w[i])
    ensures Normalize.NormalizeToken(t) != w
  {
  }

  // ---------------------------------------------------------------------
  // tokenize

  /** The comprehension of `tokenize` over a list of raw tokens, for
      any normaliser `f`: each token mapped, the empty results left out,
      order kept. */
  function NonEmptyImages(f: string -> string, ws: seq<string>): (r: seq<string>)
    ensures |r| <= |ws|
  {
    if |ws| == 0 then []
    else (if f(ws[0]) == [] then [] else [f(ws[0])]) + NonEmptyImages(f, ws[1..])
  }

  /** `tokenize(text)`: exactly the non-empty normal forms of the words of
      `text.split()`, each a builder token without whitespace that
      normalises to itself. */
  function Tokenize(text: string): (r: seq<string>)
    ensures ImagesAt(NormalizeToken, Split(text), |Split(text)|,
                     NonEmptyPositions(NormalizeToken, Split(text), |Split(text)|), r)
    ensures forall x :: x in r <==>
              x != [] && exists i :: 0 <= i < |Split(text)| && NormalizeToken(Split(text)[i]) == x
    ensures forall j :: 0 <= j < |r| ==>
              && IsBuilderToken(r[j])
              && NormalizeToken(r[j]) == r[j]
              && forall i :: 0 <= i < |r[j]| ==> !IsSpace(r[j][i])
  {
    var ws := Split(text);
    NormalizedWords(ws);
    NonEmptyImagesIndexed(NormalizeToken, ws, |ws|);
    assert ws[..|ws|] == ws;
    NonEmptyImages(NormalizeToken, ws)
  }

  /** `idx` lists in increasing order exactly the positions below `n` of
      `ws` whose image under `f` is non-empty, and `r` holds those images:
      `r` is the non-empty images in order, each as often as it arises. */
  ghost predicate ImagesAt(f: string -> string, ws: seq<string>, n: nat, idx: seq<nat>, r: seq<string>)
    requires n <= |ws|
  {
    && |idx| == |r|
    && (forall a, b :: 0 <= a < b < |idx| ==> idx[a] < idx[b])
    && (forall a :: 0 <= a < |idx| ==> idx[a] < n && r[a] == f(ws[idx[a]]) && r[a] != [])
    && (forall i :: 0 <= i < n && f(ws[i]) != [] ==> i in idx)
  }

  /** The positions below `n` of the words with a non-empty image, in
      increasing order. */
  function NonEmptyPositions(f: string -> string, ws: seq<string>, n: nat): seq<nat>
    requires n <= |ws|
  {
    if n == 0 then []
    else NonEmptyPositions(f, ws, n - 1) + (if f(ws[n - 1]) == [] then [] else [n - 1])
  }

  /** The comprehension over the first `n` words keeps every non-empty
      image, in order, and nothing else. */
  lemma {:induction false} NonEmptyImagesIndexed(f: string -> string, ws: seq<string>, n: nat)
    requires n <= |ws|
    ensures ImagesAt(f, ws, n, NonEmptyPositions(f, ws, n), NonEmptyImages(f, ws[..n]))
  {
    if n == 0 {
      assert ws[..0] == [];
      assert NonEmptyImages(f, ws[..0]) == [];
    } else {
      NonEmptyImagesSnoc(f, ws, n);
      NonEmptyImagesIndexed(f, ws, n - 1);
      ImagesAtExtend(f, ws, n - 1, n, NonEmptyImages(f, ws[..n - 1]), NonEmptyImages(f, ws[..n]));
    }
  }

  /** The comprehension over one more word adds that word's image when
      it is non-empty. */
  lemma {:induction false} NonEmptyImagesSnoc(f: string -> string, ws: seq<string>, n: nat)
    requires 0 < n <= |ws|
    ensures NonEmptyImages(f, ws[..n])
            == NonEmptyImages(f, ws[..n - 1]) + (if f(ws[n - 1]) == [] then [] else [f(ws[n - 1])])
  {
    var w := ws[n - 1];
    assert ws[..n] == ws[..n - 1] + [w];
    NonEmptyImagesAppend(f, ws[..n - 1], [w]);
    assert NonEmptyImages(f, [w]) == (if f(w) == [] then [] else [f(w)]) + NonEmptyImages(f, []);
  }

  /** The position witness grows with the word list. */
  lemma {:induction false} ImagesAtExtend(f: string -> string, ws: seq<string>, m: nat, n: nat,
                                          prev: seq<string>, r: seq<string>)
    requires n == m + 1 <= |ws| && ImagesAt(f, ws, m, NonEmptyPositions(f, ws, m), prev)
    requires r == prev + (if f(ws[m]) == [] then [] else [f(ws[m])])
    ensures ImagesAt(f, ws, n, NonEmptyPositions(f, ws, n), r)
  {
    var idx0 := NonEmptyPositions(f, ws, m);
    var tail: seq<nat> := if f(ws[m]) == [] then [] else [m];
    assert NonEmptyPositions(f, ws, n) == idx0 + tail;
    ExtendOrdered(idx0, m, tail);
    ExtendImages(f, ws, m, idx0, prev, tail, r);
    ExtendCovers(f, ws, m, idx0, tail);
    assert ImagesAt(f, ws, n, idx0 + tail, r);
  }

  lemma {:induction false} ExtendOrdered(idx0: seq<nat>, m: nat, tail: seq<nat>)
    requires forall a, b :: 0 <= a < b < |idx0| ==> idx0[a] < idx0[b]
    requires forall a :: 0 <= a < |idx0| ==> idx0[a] < m
    requires tail == [] || tail == [m]
    ensures forall a, b :: 0 <= a < b < |idx0 + tail| ==> (idx0 + tail)[a] < (idx0 + tail)[b]
  {
    var idx := idx0 + tail;
    forall a, b | 0 <= a < b < |idx|
      ensures idx[a] < idx[b]
    {
      if b < |idx0| {
        assert idx[a] == idx0[a] && idx[b] == idx0[b];
      } else {
        assert idx[a] == idx0[a] && idx[b] == m;
      }
    }
  }

  lemma {:induction false} ExtendImages(f: string -> string, ws: seq<string>, m: nat,
                                        idx0: seq<nat>, prev: seq<string>, tail: seq<nat>, r: seq<string>)
    requires m < |ws| && |idx0| == |prev|
    requires forall a :: 0 <= a < |idx0| ==> idx0[a] < m && prev[a] == f(ws[idx0[a]]) && prev[a] != []
    requires tail == if f(ws[m]) == [] then [] else [m]
    requires r == prev + (if f(ws[m]) == [] then [] else [f(ws[m])])
    ensures |idx0 + tail| == |r|
    ensures forall a :: 0 <= a < |idx0 + tail| ==>
              (idx0 + tail)[a] < m + 1 && r[a] == f(ws[(idx0 + tail)[a]]) && r[a] != []
  {
    var idx := idx0 + tail;
    forall a | 0 <= a < |idx|
      ensures idx[a] < m + 1 && r[a] == f(ws[idx[a]]) && r[a] != []
    {
      if a < |idx0| {
        assert idx[a] == idx0[a] && r[a] == prev[a];
      } else {
        assert idx[a] == m && r[a] == f(ws[m]);
      }
    }
  }

  lemma {:induction false} ExtendCovers(f: string -> string, ws: seq<string>, m: nat, idx0: seq<nat>, tail: seq<nat>)
    requires m < |ws|
    requires forall i :: 0 <= i < m && f(ws[i]) != [] ==> i in idx0
    requires tail == if f(ws[m]) == [] then [] else [m]
    ensures forall i :: 0 <= i < m + 1 && f(ws[i]) != [] ==> i in idx0 + tail
  {
    forall i | 0 <= i < m + 1 && f(ws[i]) != []
      ensures i in idx0 + tail
    {
      if i < m {
        assert i in idx0;
      } else {
        assert (idx0 + tail)[|idx0|] == i;
      }
    }
  }

  /** The comprehension distributes over concatenation: the tokens of
      consecutive pieces come out in the same order. */
  lemma {:induction false} NonEmptyImagesAppend(f: string -> string, ws: seq<string>, vs: seq<string>)
    ensures NonEmptyImages(f, ws + vs) == NonEmptyImages(f, ws) + NonEmptyImages(f, vs)
  {
    if |ws| == 0 {
      assert ws + vs == vs;
    } else {
      var h := if f(ws[0]) == [] then [] else [f(ws[0])];
      assert (ws + vs)[0] == ws[0];
      assert (ws + vs)[1..] == ws[1..] + vs;
      NonEmptyImagesAppend(f, ws[1..], vs);
      assert h + (NonEmptyImages(f, ws[1..]) + NonEmptyImages(f, vs))
          == (h + NonEmptyImages(f, ws[1..])) + NonEmptyImages(f, vs);
    }
  }

  /** A string is among the results exactly when it is non-empty and
      the image of some raw token. */
  lemma {:induction false} NonEmptyImagesMembers(f: string -> string, ws: seq<string>, x: string)
    ensures x in NonEmptyImages(f, ws) <==> x != [] && exists i :: 0 <= i < |ws| && f(ws[i]) == x
  {
    if |ws| > 0 {
      NonEmptyImagesMembers(f, ws[1..], x);
      if x != [] && f(ws[0]) != x && x in NonEmptyImages(f, ws) {
        var i :| 0 <= i < |ws[1..]| && f(ws[1..][i]) == x;
        assert f(ws[i + 1]) == x;
      }
      if x != [] && (exists i :: 0 <= i < |ws| && f(ws[i]) == x) && f(ws[0]) != x {
        var i :| 0 <= i < |ws| && f(ws[i]) == x;
        assert ws[1..][i - 1] == ws[i];
      }
    }
  }

  /** The normalised words of any word list: builder tokens without
      whitespace and fixed points of the normaliser, each normalised from
      one of the words, and every non-empty normalised word among them. */
  lemma {:induction false} NormalizedWords(ws: seq<string>)
    ensures forall x :: x in NonEmptyImages(NormalizeToken, ws) <==>
              x != [] && exists i :: 0 <= i < |ws| && NormalizeToken(ws[i]) == x
    ensures forall j :: 0 <= j < |NonEmptyImages(NormalizeToken, ws)| ==>
              && IsBuilderToken(NonEmptyImages(NormalizeToken, ws)[j])
              && NormalizeToken(NonEmptyImages(NormalizeToken, ws)[j]) == NonEmptyImages(NormalizeToken, ws)[j]
              && forall i :: 0 <= i < |NonEmptyImages(NormalizeToken, ws)[j]| ==>
                   !IsSpace(NonEmptyImages(NormalizeToken, ws)[j][i])
  {
    var ts := NonEmptyImages(NormalizeToken, ws);
    forall x
      ensures x in ts <==> x != [] && exists i :: 0 <= i < |ws| && NormalizeToken(ws[i]) == x
    {
      NonEmptyImagesMembers(NormalizeToken, ws, x);
    }
    forall j | 0 <= j < |ts|
      ensures IsBuilderToken(ts[j]) && NormalizeToken(ts[j]) == ts[j]
      ensures forall i :: 0 <= i < |ts[j]| ==> !IsSpace(ts[j][i])
    {
      var x := ts[j];
      assert x in ts;
      var i :| 0 <= i < |ws| && NormalizeToken(ws[i]) == x;
      NormalizeTokenIdempotent(ws[i]);
      forall m | 0 <= m < |x|
        ensures !IsSpace(x[m])
      {
        KeptNotSpace(x[m]);
      }
    }
  }

  // ---------------------------------------------------------------------
  // is_allowed_source

  /** `any(domain in source for domain in domain_prefixes)`, walking the
      set of domains until one is found in the source. */
  method IsAllowedSource(domains: set<string>, source: string) returns (allowed: bool)
    ensures allowed <==> exists d :: d in domains && exists i :: OccursAt(source, d, i)
  {
    var rest := domains;
    allowed := false;
    while rest != {} && !allowed
      invariant rest <= domains
      invariant allowed <==> exists d :: d in domains - rest && Contains(source, d)
      decreases |rest|
    {
      var d :| d in rest;
      allowed := Contains(source, d);
      rest := rest - {d};
    }
    assert allowed <==> exists d :: d in domains && Contains(source, d);
  }

  /** The source filter as a predicate. */
  predicate AllowedSource(domains: set<string>, source: string)
  {
    exists d :: d in domains && Contains(source, d)
  }

  /** A source is allowed when it is any text around an allowed domain,
      and never when there are no domains. */
  lemma {:induction false} AllowedSourceFacts(domains: set<string>, x: string, d: string, y: string)
    ensures d in domains ==> AllowedSource(domains, x + d + y)
    ensures !AllowedSource({}, x)
  {
    ContainsMiddle(x, d, y);
  }

  // ---------------------------------------------------------------------
  // Counting

  /** One entry of the news split: `article["source"]`, `article["text"]`. */
  datatype Article = Article(source: string, text: string)

  /** The bags `f` gives for each element, added up. */
  function SumBags<T>(f: T -> multiset<string>, xs: seq<T>): multiset<string>
  {
    if |xs| == 0 then multiset{} else SumBags(f, xs[..|xs| - 1]) + f(xs[|xs| - 1])
  }

  lemma {:induction false} SumBagsHolds<T>(f: T -> multiset<string>, xs: seq<T>, j: nat)
    requires j < |xs|
    ensures f(xs[j]) <= SumBags(f, xs)
  {
    var init := xs[..|xs| - 1];
    if j < |init| {
      SumBagsHolds(f, init, j);
      assert init[j] == xs[j];
    }
  }

  lemma {:induction false} SumBagsFrom<T>(f: T -> multiset<string>, xs: seq<T>, w: string)
    requires w in SumBags(f, xs)
    ensures exists j :: 0 <= j < |xs| && w in f(xs[j])
  {
    var init := xs[..|xs| - 1];
    if w in SumBags(f, init) {
      SumBagsFrom(f, init, w);
      var j :| 0 <= j < |init| && w in f(init[j]);
      assert init[j] == xs[j];
    }
  }

  /** The tokens one article adds to the counter: all of them when its
      source is allowed, none otherwise. */
  function ArticleTokens(domains: set<string>, a: Article): multiset<string>
  {
    if AllowedSource(domains, a.source) then multiset(Tokenize(a.text)) else multiset{}
  }

  /** Every bag is contained in the sum, and every element of the sum
      comes from one of the bags. */
  lemma {:induction false} SumBagsParts<T>(f: T -> multiset<string>, xs: seq<T>)
    ensures forall j :: 0 <= j < |xs| ==> f(xs[j]) <= SumBags(f, xs)
    ensures forall w :: w in SumBags(f, xs) ==> exists j :: 0 <= j < |xs| && w in f(xs[j])
  {
    forall j | 0 <= j < |xs|
      ensures f(xs[j]) <= SumBags(f, xs)
    {
      SumBagsHolds(f, xs, j);
    }
    forall w | w in SumBags(f, xs)
      ensures exists j :: 0 <= j < |xs| && w in f(xs[j])
    {
      SumBagsFrom(f, xs, w);
    }
  }

  /** `word_counter` after the loop over the articles: every token of an
      allowed article is counted at least as often as it occurs there, and
      every counted word is a token of some allowed article. */
  function CountTokens(domains: set<string>, articles: seq<Article>): (r: multiset<string>)
    ensures forall j :: 0 <= j < |articles| && AllowedSource(domains, articles[j].source) ==>
              multiset(Tokenize(articles[j].text)) <= r
    ensures forall w :: w in r ==>
              exists j :: 0 <= j < |articles| && AllowedSource(domains, articles[j].source)
                          && w in Tokenize(articles[j].text)
  {
    SumBagsParts(ArticleBags(domains), articles);
    SumBags(ArticleBags(domains), articles)
  }

  /** `ArticleTokens` as the function the counter is summed over. */
  function ArticleBags(domains: set<string>): Article -> multiset<string>
  {
    a => ArticleTokens(domains, a)
  }

  /** Adding up distributes over concatenation. */
  lemma {:induction false} SumBagsAppend<T>(f: T -> multiset<string>, xs: seq<T>, ys: seq<T>)
    ensures SumBags(f, xs + ys) == SumBags(f, xs) + SumBags(f, ys)
    decreases |ys|
  {
    if |ys| > 0 {
      var init := ys[..|ys| - 1];
      assert (xs + ys)[..|xs + ys| - 1] == xs + init;
      assert (xs + ys)[|xs + ys| - 1] == ys[|ys| - 1];
      SumBagsAppend(f, xs, init);
    } else {
      assert xs + ys == xs;
    }
  }

  /** The counter is additive over the articles, and one article adds the
      multiset of its tokens when its source is allowed and nothing
      otherwise: each word's count is the number of its occurrences in
      the tokens of the allowed articles. */
  lemma {:induction false} CountTokensAdditive(domains: set<string>, xs: seq<Article>, ys: seq<Article>, a: Article)
    ensures CountTokens(domains, xs + ys) == CountTokens(domains, xs) + CountTokens(domains, ys)
    ensures CountTokens(domains, [a])
            == if AllowedSource(domains, a.source) then multiset(Tokenize(a.text)) else multiset{}
  {
    SumBagsAppend(ArticleBags(domains), xs, ys);
    assert [a][..0] == [];
    assert SumBags(ArticleBags(domains), [a]) == multiset{} + ArticleBags(domains)(a);
    assert ArticleBags(domains)(a) == ArticleTokens(domains, a);
  }

  // ---------------------------------------------------------------------
  // final_words

  /** `re.search(r"\d{3,}", word)`: three digits in a row somewhere. */
  predicate HasDigitRun(w: string)
  {
    exists i :: 0 <= i && i + 3 <= |w| && IsDigit(w[i]) && IsDigit(w[i + 1]) && IsDigit(w[i + 2])
  }

  /** The condition of the `final_words` comprehension. */
  predicate Keep(w: string, count: nat)
  {
    count >= MinCount && |w| >= MinLength && IsAlpha(w[0]) && !HasDigitRun(w)
  }

  /** Ascending in Python's string order, hence also free of duplicates. */
  predicate StrictlySorted(xs: seq<string>)
  {
    forall i, j :: 0 <= i < j < |xs| ==> LexLess(xs[i], xs[j])
  }

  /** `w` put in its place in a sorted list, unless already there. */
  function Insert(xs: seq<string>, w: string): seq<string>
  {
    if |xs| == 0 then [w]
    else if w == xs[0] then xs
    else if LexLess(w, xs[0]) then [w] + xs
    else [xs[0]] + Insert(xs[1..], w)
  }

  lemma {:induction false} InsertMembers(xs: seq<string>, w: string)
    ensures forall x :: x in Insert(xs, w) <==> x in xs || x == w
  {
    if |xs| > 0 && w != xs[0] && !LexLess(w, xs[0]) {
      InsertMembers(xs[1..], w);
      assert xs == [xs[0]] + xs[1..];
    }
  }

  /** Inserting into a sorted list keeps it sorted. */
  lemma {:induction false} InsertSorted(xs: seq<string>, w: string)
    requires StrictlySorted(xs)
    ensures StrictlySorted(Insert(xs, w))
  {
    if |xs| == 0 || w == xs[0] {
    } else if LexLess(w, xs[0]) {
      var r := [w] + xs;
      forall i, j | 0 <= i < j < |r|
        ensures LexLess(r[i], r[j])
      {
        if i == 0 && j > 1 {
          LexLessTransitive(w, xs[0], xs[j - 1]);
        }
      }
    } else {
      LexLessTotal(w, xs[0]);
      var tail := Insert(xs[1..], w);
      InsertSorted(xs[1..], w);
      InsertMembers(xs[1..], w);
      var r := [xs[0]] + tail;
      forall i, j | 0 <= i < j < |r|
        ensures LexLess(r[i], r[j])
      {
        if i == 0 {
          assert r[j] in tail;
          if r[j] != w {
            var m :| 0 <= m < |xs[1..]| && xs[1..][m] == r[j];
            assert xs[m + 1] == r[j];
          }
        } else {
          assert r[i] == tail[i - 1] && r[j] == tail[j - 1];
        }
      }
    }
  }

  /** `sorted([word for word, count in word_counter.items() if ...])`:
      each distinct counted word is checked once, and the kept ones are
      collected in ascending order. */
  method FinalWords(counts: multiset<string>) returns (words: seq<string>)
    ensures StrictlySorted(words)
    ensures forall w :: w in words <==> w in counts && Keep(w, counts[w])
  {
    var keys := set w | w in counts;
    var rest := keys;
    words := [];
    while rest != {}
      invariant rest <= keys
      invariant StrictlySorted(words)
      invariant forall w :: w in words <==> w in keys - rest && Keep(w, counts[w])
      decreases |rest|
    {
      var w :| w in rest;
      rest := rest - {w};
      if Keep(w, counts[w]) {
        InsertSorted(words, w);
        InsertMembers(words, w);
        words := Insert(words, w);
      }
    }
  }

  /** A strictly sorted list is determined by its elements: the list
      `FinalWords` returns is the one `sorted` would give. */
  lemma {:induction false} SortedUnique(xs: seq<string>, ys: seq<string>)
    requires StrictlySorted(xs) && StrictlySorted(ys)
    requires forall w :: w in xs <==> w in ys
    ensures xs == ys
    decreases |xs|
  {
    if |xs| > 0 {
      assert xs[0] in ys;
    }
    if |ys| > 0 {
      assert ys[0] in xs;
    }
    if |xs| > 0 && |ys| > 0 {
      var a, b := xs[0], ys[0];
      assert a in ys && b in xs;
      if a != b {
        var i :| 0 <= i < |ys| && ys[i] == a;
        var j :| 0 <= j < |xs| && xs[j] == b;
        assert LexLess(b, a) by { if i == 0 { assert false; } }
        assert LexLess(a, b) by { if j == 0 { assert false; } }
        LexLessTransitive(a, b, a);
        LexLessIrreflexive(a);
      }
      forall w
        ensures w in xs[1..] <==> w in ys[1..]
      {
        if w in xs[1..] {
          var m :| 0 <= m < |xs[1..]| && xs[1..][m] == w;
          assert LexLess(xs[0], xs[m + 1]);
          LexLessIrreflexive(w);
          assert w != a && w in ys;
          assert w in ys[1..] by { assert ys == [ys[0]] + ys[1..]; }
        }
        if w in ys[1..] {
          var m :| 0 <= m < |ys[1..]| && ys[1..][m] == w;
          assert LexLess(ys[0], ys[m + 1]);
          LexLessIrreflexive(w);
          assert w != b && w in xs;
          assert w in xs[1..] by { assert xs == [xs[0]] + xs[1..]; }
        }
      }
      assert StrictlySorted(xs[1..]) by {
        forall i, j | 0 <= i < j < |xs[1..]| ensures LexLess(xs[1..][i], xs[1..][j]) {
          assert xs[1..][i] == xs[i + 1] && xs[1..][j] == xs[j + 1];
        }
      }
      assert StrictlySorted(ys[1..]) by {
        forall i, j | 0 <= i < j < |ys[1..]| ensures LexLess(ys[1..][i], ys[1..][j]) {
          assert ys[1..][i] == ys[i + 1] && ys[1..][j] == ys[j + 1];
        }
      }
      SortedUnique(xs[1..], ys[1..]);
      assert xs == [a] + xs[1..] && ys == [b] + ys[1..];
    }
  }
}
