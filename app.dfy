/**
  The summary length the `/summarize` route asks for: a quarter of the
  document's sentences, but never fewer than three.
 */
module App {
  import opened NewsSummarizer

  /** `max(3, n // 4)` for a document of `n` sentences. */
  function TargetSentences(n: nat): (k: int)
    ensures k >= 3 && k >= n / 4
    ensures k == 3 || k == n / 4
    ensures n >= 12 ==> k == n / 4
    ensures n < 12 ==> k == 3
  {
    if n / 4 > 3 then n / 4 else 3
  }

  /**
    With the target as `num_sentences`, the summary keeps the target number
    of scored sentences, or all of them when there are fewer; for a document
    of twelve sentences or more that is at most a quarter of it.
   */
  lemma TargetSummaryLength(sentences: seq<Sentence>, tokenize: Sentence -> seq<Token>, freq: map<Token, nat>,
                            chosen: seq<Sentence>)
    requires IsSummary(sentences, tokenize, freq, TargetSentences(|sentences|), chosen)
    ensures var k, m := TargetSentences(|sentences|), |Scored(sentences, tokenize, freq)|;
      |chosen| == if k < m then k else m
    ensures |chosen| <= |sentences|
    ensures |sentences| >= 12 ==> |chosen| <= |sentences| / 4
    ensures |chosen| >= 3 || forall t :: t in chosen <==> t in Scored(sentences, tokenize, freq)
  {
    var k := TargetSentences(|sentences|);
    SummaryCount(sentences, tokenize, freq, k, chosen);
    if |Scored(sentences, tokenize, freq)| <= k {
      AllScoredChosen(sentences, tokenize, freq, k, chosen);
    }
  }
}
