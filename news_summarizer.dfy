/**
  The extractive summariser of `NewsSummarizer`: count the non-stopword
  tokens of the document, score every sentence by the counts of its tokens,
  keep the highest-scoring sentences and put them back in document order.

  The tokenisers are parameters: `tokenize` stands for
  `word_tokenize(s.lower())` and `splitSentences` for `sent_tokenize`.
  Because `tokenize` is a function, two equal sentence texts always have the
  same tokens, as they do in the original.
 */
module NewsSummarizer {
  import opened Seqs
  import opened Heapq

  type Token = string
  type Sentence = string

  // ---------------------------------------------------------------------
  // get_word_frequency
  // ---------------------------------------------------------------------

  /** The frequency table of a token sequence: each non-stopword token with its number of occurrences. */
  ghost function Frequencies(tokens: seq<Token>, stopwords: set<Token>): map<Token, nat> {
    map w | w in tokens && w !in stopwords :: Count(tokens, w)
  }

  /** The non-stopword tokens, in document order. */
  ghost function Content(tokens: seq<Token>, stopwords: set<Token>): (r: seq<Token>)
    ensures |r| <= |tokens|
    ensures forall w :: w in r <==> w in tokens && w !in stopwords
  {
    if tokens == [] then []
    else
      var w := tokens[|tokens| - 1];
      assert tokens == tokens[..|tokens| - 1] + [w];
      Content(tokens[..|tokens| - 1], stopwords) + (if w in stopwords then [] else [w])
  }

  /** `Content` keeps every occurrence of a non-stopword token and no occurrence of a stopword. */
  lemma {:induction false} ContentCount(tokens: seq<Token>, stopwords: set<Token>, w: Token)
    ensures Count(Content(tokens, stopwords), w) == if w in stopwords then 0 else Count(tokens, w)
  {
    if tokens != [] {
      var p, x := tokens[..|tokens| - 1], tokens[|tokens| - 1];
      assert tokens == p + [x];
      ContentCount(p, stopwords, w);
      CountAppend(p, x, w);
      if x in stopwords {
        assert Content(tokens, stopwords) == Content(p, stopwords);
      } else {
        assert Content(tokens, stopwords) == Content(p, stopwords) + [x];
        CountAppend(Content(p, stopwords), x, w);
      }
    }
  }

  /**
    `get_word_frequency`: one pass over the tokens, adding one to the entry of
    every token that is not a stopword (a `defaultdict(int)`).
   */
  method WordFrequency(tokens: seq<Token>, stopwords: set<Token>) returns (freq: map<Token, nat>)
    ensures forall w :: w in freq <==> w in tokens && w !in stopwords
    ensures forall w :: w in freq ==> freq[w] == Count(tokens, w) && freq[w] >= 1
    ensures freq == Frequencies(tokens, stopwords)
  {
    freq := map[];
    var i := 0;
    while i < |tokens|
      invariant 0 <= i <= |tokens|
      invariant forall w :: w in freq <==> w in tokens[..i] && w !in stopwords
      invariant forall w :: w in freq ==> freq[w] == Count(tokens[..i], w)
    {
      var w := tokens[i];
      assert tokens[..i + 1] == tokens[..i] + [w];
      assert tokens[..i + 1][..i] == tokens[..i];
      if w !in stopwords {
        freq := freq[w := (if w in freq then freq[w] else 0) + 1];
      }
      i := i + 1;
    }
    assert tokens[..i] == tokens;
  }

  /** Sum of the values of a map. */
  ghost function Total<K>(m: map<K, nat>): nat
    decreases m.Keys
  {
    if m == map[] then 0
    else
      var k :| k in m;
      assert (m - {k}).Keys < m.Keys;
      m[k] + Total(m - {k})
  }

  /** The sum does not depend on which key is taken out first. */
  lemma {:induction false} TotalPick<K>(m: map<K, nat>, k: K)
    requires k in m
    ensures Total(m) == m[k] + Total(m - {k})
    decreases m.Keys
  {
    var j :| j in m && Total(m) == m[j] + Total(m - {j});
    if j != k {
      assert (m - {j}).Keys < m.Keys && (m - {k}).Keys < m.Keys;
      TotalPick(m - {j}, k);
      TotalPick(m - {k}, j);
      assert m - {j} - {k} == m - {k} - {j};
    }
  }

  /** Adding one to an entry (a missing entry counting as 0) adds one to the sum. */
  lemma TotalIncrement<K>(m: map<K, nat>, k: K, c: nat)
    requires if k in m then m[k] == c else c == 0
    ensures Total(m[k := c + 1]) == Total(m) + 1
  {
    var m' := m[k := c + 1];
    TotalPick(m', k);
    if k in m {
      TotalPick(m, k);
      assert m' - {k} == m - {k};
    } else {
      assert m' - {k} == m;
    }
  }

  /** A further stopword leaves the frequency table as it was. */
  lemma FrequenciesAppendStopword(p: seq<Token>, w: Token, stopwords: set<Token>)
    requires w in stopwords
    ensures Frequencies(p + [w], stopwords) == Frequencies(p, stopwords)
  {
    var before, after := Frequencies(p, stopwords), Frequencies(p + [w], stopwords);
    forall v | v in after ensures after[v] == before[v] {
      CountAppend(p, w, v);
    }
    assert after.Keys == before.Keys;
  }

  /** A further non-stopword token adds one to its count. */
  lemma FrequenciesAppendWord(p: seq<Token>, w: Token, stopwords: set<Token>)
    requires w !in stopwords
    ensures Frequencies(p + [w], stopwords) == Frequencies(p, stopwords)[w := Count(p, w) + 1]
  {
    var after, expected := Frequencies(p + [w], stopwords), Frequencies(p, stopwords)[w := Count(p, w) + 1];
    forall v | v in after ensures after[v] == expected[v] {
      CountAppend(p, w, v);
    }
    assert after.Keys == expected.Keys;
  }

  /** The counts of the frequency table add up to the number of non-stopword tokens. */
  lemma {:induction false} FrequencyTotal(tokens: seq<Token>, stopwords: set<Token>)
    ensures Total(Frequencies(tokens, stopwords)) == |Content(tokens, stopwords)|
  {
    if tokens == [] {
      assert Frequencies(tokens, stopwords) == map[];
    } else {
      var p, w := tokens[..|tokens| - 1], tokens[|tokens| - 1];
      assert tokens == p + [w];
      FrequencyTotal(p, stopwords);
      FrequencyTotalStep(p, w, stopwords);
    }
  }

  /** The induction step of `FrequencyTotal`: one token more. */
  lemma FrequencyTotalStep(p: seq<Token>, w: Token, stopwords: set<Token>)
    requires Total(Frequencies(p, stopwords)) == |Content(p, stopwords)|
    ensures Total(Frequencies(p + [w], stopwords)) == |Content(p + [w], stopwords)|
  {
    assert (p + [w])[..|p|] == p;
    if w in stopwords {
      assert Content(p + [w], stopwords) == Content(p, stopwords);
      FrequenciesAppendStopword(p, w, stopwords);
    } else {
      assert Content(p + [w], stopwords) == Content(p, stopwords) + [w];
      var n := Total(Frequencies(p, stopwords));
      assert Total(Frequencies(p + [w], stopwords)) == n + 1 by {
        FrequenciesAppendWord(p, w, stopwords);
        TotalIncrement(Frequencies(p, stopwords), w, Count(p, w));
      }
    }
  }

  // ---------------------------------------------------------------------
  // score_sentences
  // ---------------------------------------------------------------------

  /** Sum of `freq[w]` over the tokens `w` of a sentence that are keys of `freq`. */
  function Weight(words: seq<Token>, freq: map<Token, nat>): nat {
    if words == [] then 0
    else
      var w := words[|words| - 1];
      Weight(words[..|words| - 1], freq) + (if w in freq then freq[w] else 0)
  }

  /** Some token of the sentence is a key of `freq`. */
  predicate Counted(words: seq<Token>, freq: map<Token, nat>) {
    exists i :: 0 <= i < |words| && words[i] in freq
  }

  /** A sentence with no counted token weighs nothing. */
  lemma {:induction false} UncountedWeight(words: seq<Token>, freq: map<Token, nat>)
    requires !Counted(words, freq)
    ensures Weight(words, freq) == 0
  {
    if words != [] {
      var p := words[..|words| - 1];
      assert !Counted(p, freq) by {
        forall i | 0 <= i < |p| ensures p[i] !in freq {
          assert p[i] == words[i];
        }
      }
      UncountedWeight(p, freq);
    }
  }

  /** With every count at least 1, a sentence weighs something exactly when it has a counted token. */
  lemma {:induction false} CountedWeight(words: seq<Token>, freq: map<Token, nat>)
    requires forall w :: w in freq ==> freq[w] >= 1
    ensures Counted(words, freq) <==> Weight(words, freq) >= 1
  {
    if words != [] {
      var p := words[..|words| - 1];
      CountedWeight(p, freq);
      if Counted(p, freq) {
        var i :| 0 <= i < |p| && p[i] in freq;
        assert words[i] in freq;
      }
      if Counted(words, freq) && words[|words| - 1] !in freq {
        var i :| 0 <= i < |words| && words[i] in freq;
        assert p[i] in freq;
      }
    } else {
      assert !Counted(words, freq);
    }
  }

  /** The sentences that get an entry in the score table. */
  ghost function Scored(sentences: seq<Sentence>, tokenize: Sentence -> seq<Token>, freq: map<Token, nat>): set<Sentence> {
    set t | t in sentences && Counted(tokenize(t), freq)
  }

  /** The score of a sentence text: the weights of all its occurrences, added up. */
  function Score(sentences: seq<Sentence>, tokenize: Sentence -> seq<Token>, freq: map<Token, nat>, t: Sentence): nat {
    if sentences == [] then 0
    else
      var s := sentences[|sentences| - 1];
      Score(sentences[..|sentences| - 1], tokenize, freq, t) + (if s == t then Weight(tokenize(s), freq) else 0)
  }

  /** A repeated sentence text scores its weight times the number of its occurrences. */
  lemma {:induction false} ScoreRepeats(sentences: seq<Sentence>, tokenize: Sentence -> seq<Token>,
                                        freq: map<Token, nat>, t: Sentence)
    ensures Score(sentences, tokenize, freq, t) == Count(sentences, t) * Weight(tokenize(t), freq)
  {
    if sentences != [] {
      var p, s := sentences[..|sentences| - 1], sentences[|sentences| - 1];
      ScoreRepeats(p, tokenize, freq, t);
      var c, w := Count(p, t), Weight(tokenize(t), freq);
      if s == t {
        assert Count(sentences, t) == c + 1;
        assert (c + 1) * w == c * w + w;
      } else {
        assert Count(sentences, t) == c;
      }
    }
  }

  /**
    `(order, scores)` is the dictionary `score_sentences` returns: `scores`
    holds exactly the sentences with a counted token, each with its score, and
    `order` lists the same keys in insertion order, which is the order of
    their first occurrence.
   */
  ghost predicate IsScoreTable(sentences: seq<Sentence>, tokenize: Sentence -> seq<Token>, freq: map<Token, nat>,
                               order: seq<Sentence>, scores: map<Sentence, nat>)
  {
    && (forall t :: t in scores <==> t in sentences && Counted(tokenize(t), freq))
    && (forall t :: t in scores ==> scores[t] == Score(sentences, tokenize, freq, t))
    && (forall t :: t in order <==> t in scores)
    && (forall a, b :: 0 <= a < b < |order| ==>
          IndexOf(sentences, order[a]) < IndexOf(sentences, order[b]))
  }

  /**
    `score_sentences`: for every sentence, for every token of it that is a key
    of `freq`, add `freq[token]` to the sentence's entry. An entry is created
    only by such an addition, so a sentence with no counted token gets none,
    and repeated sentence texts add into one entry.
   */
  method ScoreSentences(sentences: seq<Sentence>, tokenize: Sentence -> seq<Token>, freq: map<Token, nat>)
    returns (order: seq<Sentence>, scores: map<Sentence, nat>)
    ensures IsScoreTable(sentences, tokenize, freq, order, scores)
  {
    order, scores := [], map[];
    var i := 0;
    while i < |sentences|
      invariant 0 <= i <= |sentences|
      invariant KeysUpTo(sentences, i, tokenize, freq, scores)
      invariant ValuesUpTo(sentences, i, tokenize, freq, scores)
      invariant OrderUpTo(sentences, i, order, scores)
    {
      var s := sentences[i];
      var order', scores' := AddSentence(s, tokenize(s), freq, order, scores);
      KeysStep(sentences, i, tokenize, freq, scores, scores');
      ValuesStep(sentences, i, tokenize, freq, scores, scores');
      OrderStep(sentences, i, tokenize, freq, order, scores, order', scores');
      order, scores := order', scores';
      i := i + 1;
    }
    assert sentences[..i] == sentences;
  }

  /** The keys of the table are the sentences among the first `i` with a counted token. */
  ghost predicate KeysUpTo(sentences: seq<Sentence>, i: nat, tokenize: Sentence -> seq<Token>,
                           freq: map<Token, nat>, scores: map<Sentence, nat>)
    requires i <= |sentences|
  {
    forall t :: t in scores <==> t in sentences[..i] && Counted(tokenize(t), freq)
  }

  /** Every entry of the table is its sentence's score over the first `i` sentences. */
  ghost predicate ValuesUpTo(sentences: seq<Sentence>, i: nat, tokenize: Sentence -> seq<Token>,
                             freq: map<Token, nat>, scores: map<Sentence, nat>)
    requires i <= |sentences|
  {
    forall t :: t in scores ==> scores[t] == Score(sentences[..i], tokenize, freq, t)
  }

  /** `order` lists the keys of the table, all first occurring before `i`, by first occurrence. */
  ghost predicate OrderUpTo(sentences: seq<Sentence>, i: nat, order: seq<Sentence>, scores: map<Sentence, nat>) {
    && (forall t :: t in order <==> t in scores)
    && (forall x :: x in order ==> x in sentences && IndexOf(sentences, x) < i)
    && (forall a, b :: 0 <= a < b < |order| ==>
          IndexOf(sentences, order[a]) < IndexOf(sentences, order[b]))
  }

  /** The keys after adding sentence `i`: it joins them exactly when it has a counted token. */
  lemma KeysStep(sentences: seq<Sentence>, i: nat, tokenize: Sentence -> seq<Token>, freq: map<Token, nat>,
                 scores: map<Sentence, nat>, scores': map<Sentence, nat>)
    requires i < |sentences|
    requires KeysUpTo(sentences, i, tokenize, freq, scores)
    requires var s := sentences[i];
      scores'.Keys == scores.Keys + (if Counted(tokenize(s), freq) then {s} else {})
    ensures KeysUpTo(sentences, i + 1, tokenize, freq, scores')
  {
    assert sentences[..i + 1] == sentences[..i] + [sentences[i]];
  }

  /** The values after adding sentence `i`: its weight goes into its own entry and nowhere else. */
  lemma ValuesStep(sentences: seq<Sentence>, i: nat, tokenize: Sentence -> seq<Token>, freq: map<Token, nat>,
                   scores: map<Sentence, nat>, scores': map<Sentence, nat>)
    requires i < |sentences|
    requires KeysUpTo(sentences, i, tokenize, freq, scores)
    requires ValuesUpTo(sentences, i, tokenize, freq, scores)
    requires var s := sentences[i];
      && scores'.Keys == scores.Keys + (if Counted(tokenize(s), freq) then {s} else {})
      && (forall t :: t in scores && t != s ==> scores'[t] == scores[t])
      && (s in scores' ==> scores'[s] == (if s in scores then scores[s] else 0) + Weight(tokenize(s), freq))
    ensures ValuesUpTo(sentences, i + 1, tokenize, freq, scores')
  {
    var s, prefix, r := sentences[i], sentences[..i], sentences[..i + 1];
    assert r[..|r| - 1] == prefix && r[|r| - 1] == s;
    if s in scores' {
      assert scores'[s] == Score(r, tokenize, freq, s) by {
        if s !in scores {
          assert s !in prefix;
          ScoreRepeats(prefix, tokenize, freq, s);
        }
      }
    }
    forall t | t in scores' && t != s ensures scores'[t] == Score(r, tokenize, freq, t) {
      assert t in scores;
    }
  }

  /** The insertion order after adding sentence `i`: it is appended when it creates an entry. */
  lemma OrderStep(sentences: seq<Sentence>, i: nat, tokenize: Sentence -> seq<Token>, freq: map<Token, nat>,
                  order: seq<Sentence>, scores: map<Sentence, nat>,
                  order': seq<Sentence>, scores': map<Sentence, nat>)
    requires i < |sentences|
    requires KeysUpTo(sentences, i, tokenize, freq, scores)
    requires OrderUpTo(sentences, i, order, scores)
    requires var s, counted := sentences[i], Counted(tokenize(sentences[i]), freq);
      && scores'.Keys == scores.Keys + (if counted then {s} else {})
      && order' == if s in scores || !counted then order else order + [s]
    ensures OrderUpTo(sentences, i + 1, order', scores')
  {
    var s := sentences[i];
    if s !in scores && Counted(tokenize(s), freq) {
      assert s !in sentences[..i];
      IndexOfFirst(sentences, i);
      forall x | x in order ensures IndexOf(sentences, x) < i {
        IndexOfBefore(sentences, x, i);
      }
      AppendOrdered(sentences, order, s);
    }
  }

  /** Appending an element whose first position follows all others keeps the order increasing. */
  lemma AppendOrdered(sentences: seq<Sentence>, order: seq<Sentence>, s: Sentence)
    requires s in sentences
    requires forall x :: x in order ==> x in sentences && IndexOf(sentences, x) < IndexOf(sentences, s)
    requires forall a, b :: 0 <= a < b < |order| ==>
               IndexOf(sentences, order[a]) < IndexOf(sentences, order[b])
    ensures forall a, b :: 0 <= a < b < |order + [s]| ==>
              IndexOf(sentences, (order + [s])[a]) < IndexOf(sentences, (order + [s])[b])
  {
    var r := order + [s];
    forall a, b | 0 <= a < b < |r|
      ensures IndexOf(sentences, r[a]) < IndexOf(sentences, r[b])
    {
      assert r[a] == order[a] && order[a] in order;
      if b < |order| {
        assert r[b] == order[b];
      }
    }
  }

  /**
    The inner loop of `score_sentences`: the tokens of one sentence `s` added
    into its entry. The entry is created at the first counted token, so it
    exists afterwards exactly when it did before or `s` has a counted token,
    and only then does `s` join the insertion order.
   */
  method AddSentence(s: Sentence, words: seq<Token>, freq: map<Token, nat>,
                     order0: seq<Sentence>, scores0: map<Sentence, nat>)
    returns (order: seq<Sentence>, scores: map<Sentence, nat>)
    ensures scores.Keys == scores0.Keys + (if Counted(words, freq) then {s} else {})
    ensures forall t :: t in scores0 && t != s ==> scores[t] == scores0[t]
    ensures s in scores ==> scores[s] == (if s in scores0 then scores0[s] else 0) + Weight(words, freq)
    ensures order == if s in scores0 || !Counted(words, freq) then order0 else order0 + [s]
  {
    order, scores := order0, scores0;
    var j := 0;
    while j < |words|
      invariant 0 <= j <= |words|
      invariant scores.Keys == scores0.Keys + (if Counted(words[..j], freq) then {s} else {})
      invariant forall t :: t in scores0 && t != s ==> scores[t] == scores0[t]
      invariant s in scores ==> scores[s] == (if s in scores0 then scores0[s] else 0) + Weight(words[..j], freq)
      invariant order == if s in scores0 || !Counted(words[..j], freq) then order0 else order0 + [s]
    {
      var w := words[j];
      assert words[..j + 1][..j] == words[..j];
      assert words[..j + 1][j] == w;
      assert Weight(words[..j + 1], freq) == Weight(words[..j], freq) + (if w in freq then freq[w] else 0);
      assert Counted(words[..j + 1], freq) <==> Counted(words[..j], freq) || w in freq by {
        if Counted(words[..j], freq) {
          var k :| 0 <= k < j && words[..j][k] in freq;
          assert words[..j + 1][k] in freq;
        }
        if Counted(words[..j + 1], freq) && w !in freq {
          var k :| 0 <= k < j + 1 && words[..j + 1][k] in freq;
          assert words[..j][k] in freq;
        }
      }
      if w in freq {
        if s !in scores {
          UncountedWeight(words[..j], freq);
          order := order + [s];
          scores := scores[s := freq[w]];
        } else {
          scores := scores[s := scores[s] + freq[w]];
        }
      }
      j := j + 1;
    }
    assert words[..j] == words;
  }

  /** With every count at least 1, every entry of the score table is at least 1. */
  lemma ScoresPositive(sentences: seq<Sentence>, tokenize: Sentence -> seq<Token>, freq: map<Token, nat>, t: Sentence)
    requires forall w :: w in freq ==> freq[w] >= 1
    requires t in Scored(sentences, tokenize, freq)
    ensures Score(sentences, tokenize, freq, t) >= 1
  {
    CountedWeight(tokenize(t), freq);
  }

  // ---------------------------------------------------------------------
  // summarize_text
  // ---------------------------------------------------------------------

  /** `x` ranks above `y`: a higher score, or the same score and an earlier first occurrence. */
  predicate Beats(sentences: seq<Sentence>, tokenize: Sentence -> seq<Token>, freq: map<Token, nat>, x: Sentence, y: Sentence)
    requires x in sentences && y in sentences
  {
    var sx, sy := Score(sentences, tokenize, freq, x), Score(sentences, tokenize, freq, y);
    sx > sy || (sx == sy && IndexOf(sentences, x) < IndexOf(sentences, y))
  }

  /** The number of sentences `summarize_text` asks `nlargest` for: `min(n, len(sentences))`. */
  function Requested(n: int, sentences: seq<Sentence>): (k: int)
    ensures k <= n && k <= |sentences|
    ensures k == n || k == |sentences|
  {
    if n < |sentences| then n else |sentences|
  }

  /**
    `chosen` is the list of sentences `summarize_text` joins: as many scored
    sentences as `nlargest` returns, each ranked above every scored sentence
    left out, listed in document order.
   */
  ghost predicate IsSummary(sentences: seq<Sentence>, tokenize: Sentence -> seq<Token>, freq: map<Token, nat>,
                            n: int, chosen: seq<Sentence>)
  {
    var scored := Scored(sentences, tokenize, freq);
    && |chosen| == Quota(Requested(n, sentences), |scored|)
    && (forall x :: x in chosen ==> x in scored)
    && StrictlyOrderedByIndex(chosen, sentences)
    && (forall x, y :: x in chosen && y in scored && y !in chosen ==> Beats(sentences, tokenize, freq, x, y))
  }

  /** Total length of the parts. */
  function Lengths(parts: seq<string>): nat {
    if parts == [] then 0 else |parts[0]| + Lengths(parts[1..])
  }

  /** `' '.join(parts)`. */
  function JoinSpaces(parts: seq<string>): (r: string)
    ensures parts == [] ==> r == ""
    ensures parts != [] ==> |r| == Lengths(parts) + |parts| - 1 && parts[0] <= r
  {
    if parts == [] then ""
    else if |parts| == 1 then parts[0]
    else parts[0] + " " + JoinSpaces(parts[1..])
  }

  /** Joining one more part appends a space and that part. */
  lemma {:induction false} JoinAppend(parts: seq<string>, x: string)
    ensures JoinSpaces(parts + [x]) == if parts == [] then x else JoinSpaces(parts) + " " + x
  {
    if |parts| >= 2 {
      assert (parts + [x])[1..] == parts[1..] + [x];
      JoinAppend(parts[1..], x);
    } else if |parts| == 1 {
      assert (parts + [x])[1..] == [x];
    }
  }

  /**
    `summarize_text`: nothing for an empty text; otherwise the sentences
    `nlargest(min(numSentences, len(sentences)), scores, key=scores.get)`
    picks, re-sorted by `sentences.index` and joined with single spaces.
   */
  method SummarizeText(text: string, splitSentences: string -> seq<Sentence>, tokenize: string -> seq<Token>,
                       stopwords: set<Token>, numSentences: int)
    returns (summary: string)
    ensures text == "" ==> summary == ""
    ensures text != "" ==> exists chosen ::
              && IsSummary(splitSentences(text), tokenize, Frequencies(tokenize(text), stopwords), numSentences, chosen)
              && summary == JoinSpaces(chosen)
  {
    if text == "" {
      return "";
    }
    var sentences := splitSentences(text);
    var freq := WordFrequency(tokenize(text), stopwords);
    var order, scores := ScoreSentences(sentences, tokenize, freq);
    TableShape(sentences, tokenize, freq, order, scores);
    var k := Requested(numSentences, sentences);
    var top := NLargest(k, order, scores);
    var chosen := SortByIndex(top, sentences);
    SelectionIsSummary(sentences, tokenize, freq, numSentences, order, scores, top, chosen);
    summary := JoinSpaces(chosen);
  }

  /** The insertion order lists every scored sentence once, and every entry has a key. */
  lemma TableShape(sentences: seq<Sentence>, tokenize: Sentence -> seq<Token>, freq: map<Token, nat>,
                   order: seq<Sentence>, scores: map<Sentence, nat>)
    requires IsScoreTable(sentences, tokenize, freq, order, scores)
    ensures Distinct(order) && Keyed(order, scores)
    ensures |order| == |Scored(sentences, tokenize, freq)|
  {
    forall a, b | 0 <= a < b < |order| ensures order[a] != order[b] {
      assert IndexOf(sentences, order[a]) < IndexOf(sentences, order[b]);
    }
    assert (set x | x in order) == Scored(sentences, tokenize, freq);
    DistinctCardinality(order);
  }

  /** In the insertion order, earlier means an earlier first occurrence in the document. */
  lemma InsertionOrder(sentences: seq<Sentence>, order: seq<Sentence>, x: Sentence, y: Sentence)
    requires forall t :: t in order ==> t in sentences
    requires forall a, b :: 0 <= a < b < |order| ==>
               IndexOf(sentences, order[a]) < IndexOf(sentences, order[b])
    requires x in order && y in order
    ensures IndexOf(order, x) < IndexOf(order, y) <==> IndexOf(sentences, x) < IndexOf(sentences, y)
  {
    var a, b := IndexOf(order, x), IndexOf(order, y);
    if b < a {
      assert IndexOf(sentences, order[b]) < IndexOf(sentences, order[a]);
    }
  }

  /**
    What `summarize_text` computes is a summary: the `nlargest` selection from
    the score table, stably sorted by first occurrence.
   */
  lemma SelectionIsSummary(sentences: seq<Sentence>, tokenize: Sentence -> seq<Token>, freq: map<Token, nat>, n: int,
                           order: seq<Sentence>, scores: map<Sentence, nat>, top: seq<Sentence>, chosen: seq<Sentence>)
    requires IsScoreTable(sentences, tokenize, freq, order, scores)
    requires Keyed(order, scores)
    requires IsTopK(Requested(n, sentences), order, scores, top)
    requires multiset(chosen) == multiset(top)
    requires OrderedByIndex(chosen, sentences)
    requires Distinct(top) ==> Distinct(chosen)
    ensures IsSummary(sentences, tokenize, freq, n, chosen)
  {
    TableShape(sentences, tokenize, freq, order, scores);
    assert |chosen| == |multiset(chosen)| == |top|;
    assert forall x :: x in chosen <==> x in top by {
      forall x ensures x in chosen <==> x in top {
        assert x in chosen <==> x in multiset(chosen);
        assert x in top <==> x in multiset(top);
      }
    }
    forall a, b | 0 <= a < b < |chosen|
      ensures IndexOf(sentences, chosen[a]) < IndexOf(sentences, chosen[b])
    {
      assert chosen[a] != chosen[b];
    }
    var scored := Scored(sentences, tokenize, freq);
    forall x, y | x in chosen && y in scored && y !in chosen
      ensures Beats(sentences, tokenize, freq, x, y)
    {
      assert x in top && y in order && y !in top;
      assert Precedes(order, scores, x, y);
      InsertionOrder(sentences, order, x, y);
    }
  }

  /**
    The number of sentences kept: none when `n <= 0`, otherwise `n` or every
    scored sentence, whichever is fewer; never more than the document has.
   */
  lemma SummaryCount(sentences: seq<Sentence>, tokenize: Sentence -> seq<Token>, freq: map<Token, nat>,
                     n: int, chosen: seq<Sentence>)
    requires IsSummary(sentences, tokenize, freq, n, chosen)
    ensures n <= 0 ==> chosen == []
    ensures var m := |Scored(sentences, tokenize, freq)|;
      n > 0 ==> |chosen| == if n < m then n else m
    ensures |chosen| <= |sentences|
  {
    var all, scored := (set x | x in sentences), Scored(sentences, tokenize, freq);
    CardinalityBound(sentences);
    assert all == scored + (all - scored);
  }

  /** A sentence scoring strictly more than every other scored sentence is in any non-empty summary. */
  lemma BestSentenceChosen(sentences: seq<Sentence>, tokenize: Sentence -> seq<Token>, freq: map<Token, nat>,
                           n: int, chosen: seq<Sentence>, best: Sentence)
    requires IsSummary(sentences, tokenize, freq, n, chosen)
    requires n >= 1
    requires best in Scored(sentences, tokenize, freq)
    requires forall y :: y in Scored(sentences, tokenize, freq) && y != best ==>
               Score(sentences, tokenize, freq, y) < Score(sentences, tokenize, freq, best)
    ensures best in chosen
  {
    SummaryCount(sentences, tokenize, freq, n, chosen);
    assert chosen[0] in chosen;
  }

  /** When `n` covers every scored sentence, the summary is all of them. */
  lemma AllScoredChosen(sentences: seq<Sentence>, tokenize: Sentence -> seq<Token>, freq: map<Token, nat>,
                        n: int, chosen: seq<Sentence>)
    requires IsSummary(sentences, tokenize, freq, n, chosen)
    requires n >= |Scored(sentences, tokenize, freq)|
    ensures forall t :: t in chosen <==> t in Scored(sentences, tokenize, freq)
  {
    var cs, scored := (set x | x in chosen), Scored(sentences, tokenize, freq);
    SummaryDistinct(sentences, tokenize, freq, n, chosen);
    DistinctCardinality(chosen);
    SummaryCount(sentences, tokenize, freq, n, chosen);
    assert scored == cs + (scored - cs);
    assert scored - cs == {};
  }

  /** The summary is determined by its inputs: there is exactly one list of sentences `summarize_text` can return. */
  lemma SummaryUnique(sentences: seq<Sentence>, tokenize: Sentence -> seq<Token>, freq: map<Token, nat>,
                      n: int, c1: seq<Sentence>, c2: seq<Sentence>)
    requires IsSummary(sentences, tokenize, freq, n, c1)
    requires IsSummary(sentences, tokenize, freq, n, c2)
    ensures c1 == c2
  {
    var s1, s2 := (set x | x in c1), (set x | x in c2);
    SummaryDistinct(sentences, tokenize, freq, n, c1);
    SummaryDistinct(sentences, tokenize, freq, n, c2);
    DistinctCardinality(c1);
    DistinctCardinality(c2);
    forall x, y | x in s1 && x !in s2 && y in s2 ensures y in s1 {
    }
    Comparable(s1, s2);
    ComparableEqualSize(s1, s2);
    forall x ensures x in c1 <==> x in c2 {
      assert x in c1 <==> x in s1;
      assert x in c2 <==> x in s2;
    }
    StrictlyOrderedUnique(c1, c2, sentences);
  }

  /** A summary names no sentence twice. */
  lemma SummaryDistinct(sentences: seq<Sentence>, tokenize: Sentence -> seq<Token>, freq: map<Token, nat>,
                        n: int, chosen: seq<Sentence>)
    requires IsSummary(sentences, tokenize, freq, n, chosen)
    ensures Distinct(chosen)
  {
    forall a, b | 0 <= a < b < |chosen| ensures chosen[a] != chosen[b] {
      assert IndexOf(sentences, chosen[a]) < IndexOf(sentences, chosen[b]);
    }
  }

  /** Every sentence of a summary built from `get_word_frequency`'s table scores at least 1. */
  lemma ChosenScorePositive(sentences: seq<Sentence>, tokenize: Sentence -> seq<Token>, tokens: seq<Token>,
                            stopwords: set<Token>, n: int, chosen: seq<Sentence>, t: Sentence)
    requires IsSummary(sentences, tokenize, Frequencies(tokens, stopwords), n, chosen)
    requires t in chosen
    ensures Score(sentences, tokenize, Frequencies(tokens, stopwords), t) >= 1
  {
    ScoresPositive(sentences, tokenize, Frequencies(tokens, stopwords), t);
  }
}
