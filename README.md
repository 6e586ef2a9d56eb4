# News summariser: a verified model

This project models the extractive summariser in `app.py`. `NewsSummarizer`
works in three steps:

1. It counts every lower-cased token of the document that is not a stopword (`get_word_frequency`).
2. It scores every sentence by adding up the counts of its counted tokens (`score_sentences`).
3. It asks `heapq.nlargest` for `min(num_sentences, len(sentences))` entries of the score table, and
   gets at most as many as there are scored sentences. It puts them back in document order with
   `sentences.index`, and joins them with single spaces (`summarize_text`).

The `/summarize` route asks for `max(3, n // 4)` sentences, where `n` is the document's sentence count.

Modules:

- `Seqs` (`seqs.dfy`): occurrence counts, Python's `list.index`, distinctness, and
  `list.sort(key=within.index)`, written as a stable insertion sort.
- `Heapq` (`heapq.dfy`): `heapq.nlargest`, specified by its documented result
  `sorted(items, key=key, reverse=True)[:n]`. It is implemented as a selection loop in which the first
  maximal entry wins.
- `NewsSummarizer` (`news_summarizer.dfy`): the three methods of the class.
- `App` (`app.py` → `app.dfy`): the target-length rule of the route.

The foreign calls become parameters:

- `splitSentences` stands for `sent_tokenize`.
- `tokenize` stands for `word_tokenize(s.lower())`. It is one function, used for the document and
  for each sentence, so equal sentence texts always get equal tokens.
- `stopwords` stands for the English stopword list together with `string.punctuation`.

A Python dictionary that is read in iteration order is modelled as a pair:

- `order` is the insertion order;
- `scores` is the map.

Two consequences of the code that the model keeps:

- A sentence with no counted token gets no entry, not an entry with score 0. The code creates an
  entry only when it adds a counted token's frequency (app.py:38-39).
- The summary has `min(k, distinct scored sentences)` sentences. That can be fewer than
  `min(k, len(sentences))`, because repeated texts share one key and unscored sentences have none
  (app.py:36-39, 48-49).

## Model

| member | source | states |
|---|---|---|
| NewsSummarizer.WordFrequency | app.py:27-32 | the keys are exactly the tokens that are not stopwords (so no stopword is a key); each count is the token's number of occurrences and at least 1; the table equals `Frequencies` |
| NewsSummarizer.Content | app.py:29-30 | the tokens the counting loop keeps are exactly the non-stopword tokens, and there are at most as many as tokens |
| NewsSummarizer.ContentCount | app.py:29-30 | the kept tokens hold every non-stopword token exactly as often as the document does, and no stopword |
| NewsSummarizer.FrequenciesAppendStopword | app.py:29-30 | one more stopword token leaves the frequency table unchanged |
| NewsSummarizer.FrequenciesAppendWord | app.py:29-31 | one more non-stopword token raises its count by one and changes no other entry |
| NewsSummarizer.TotalIncrement | app.py:31 | `word_freq[word] += 1` (a missing entry reading as 0) raises the sum of the counts by exactly one |
| NewsSummarizer.FrequencyTotal | app.py:28-31 | the counts of the frequency table add up to the number of non-stopword tokens |
| NewsSummarizer.FrequencyTotalStep | app.py:29-31 | the sum-of-counts property is kept by each further token |
| NewsSummarizer.UncountedWeight | app.py:37-39 | a sentence with no token that is a key of `freq` adds nothing |
| NewsSummarizer.CountedWeight | app.py:37-39 | when all counts are at least 1, a sentence adds something exactly when it has a counted token |
| NewsSummarizer.ScoreRepeats | app.py:36-39 | a sentence text occurring c times scores c times the weight of one occurrence: repeated texts add into one entry |
| NewsSummarizer.AddSentence | app.py:37-39 | the inner loop creates the entry exactly when the sentence has a counted token, adds the sentence's weight to its entry only, and appends the sentence to the insertion order only when it creates the entry |
| NewsSummarizer.ScoreSentences | app.py:34-40 | the table holds exactly the sentences with a counted token, each with its summed score, and the insertion order lists those keys by first occurrence |
| NewsSummarizer.KeysStep | app.py:36-39 | after sentence i the keys are the sentences among the first i+1 with a counted token |
| NewsSummarizer.ValuesStep | app.py:36-39 | after sentence i every entry is its sentence's score over the first i+1 sentences |
| NewsSummarizer.OrderStep | app.py:38-39 | after sentence i the insertion order lists exactly the keys, each first occurring before i+1, by first occurrence |
| NewsSummarizer.ScoresPositive | app.py:38-39 | when all counts are at least 1, every scored sentence's score is at least 1 |
| NewsSummarizer.TableShape | app.py:34-40 | the dictionary's key list has no repeats, every entry has a score, and there are as many keys as distinct scored sentences |
| NewsSummarizer.InsertionOrder | app.py:48-49 | for two keys, earlier in the dictionary's insertion order means earlier first occurrence in the document, and conversely |
| NewsSummarizer.Requested | app.py:48 | the number asked of `nlargest` is the smaller of `num_sentences` and the sentence count |
| Heapq.Quota | app.py:48-49 | `nlargest` returns nothing for n ≤ 0; otherwise it returns n entries or all of them, never more than either |
| Heapq.NLargest | app.py:48-49 | the result has `Quota` entries, no repeats, taken from the keys, in descending key order with ties broken by insertion order, and each ranks above every key left out |
| Seqs.IndexOf | app.py:50 | `sentences.index(x)` is a position holding x |
| Seqs.IndexOfEarliest | app.py:50 | no occurrence of x comes before `sentences.index(x)` |
| Seqs.InsertionPoint | app.py:50 | the scan stops after the last element whose position is not later than the new one's |
| Seqs.InsertByIndex | app.py:50 | one insertion step adds the element once, keeps the order by position, and keeps the list free of repeats |
| Seqs.SortByIndex | app.py:50 | `sort(key=sentences.index)` yields a permutation of the selection, ordered by first position, still free of repeats |
| NewsSummarizer.JoinSpaces | app.py:51 | `' '.join` of no parts is empty; otherwise its length is the parts' lengths plus one space between each pair, and it starts with the first part |
| NewsSummarizer.JoinAppend | app.py:51 | joining one more part appends a single space and that part |
| NewsSummarizer.SummarizeText | app.py:42-51 | an empty text gives ""; otherwise the result is the space-join of a summary (`IsSummary`) of the text's sentences under its frequency table |
| NewsSummarizer.SelectionIsSummary | app.py:45-50 | the `nlargest` selection from the score table, re-sorted by `sentences.index`, is a summary: the right number of scored sentences, each ranked above every scored sentence left out, in document order |
| NewsSummarizer.SummaryCount | app.py:48-49 | the summary has no sentence for `num_sentences` ≤ 0; otherwise it has `min(num_sentences, distinct scored sentences)`, never more than the document has |
| NewsSummarizer.BestSentenceChosen | app.py:48-49 | a sentence scoring strictly more than every other scored sentence is in every summary of at least one sentence |
| NewsSummarizer.AllScoredChosen | app.py:48-50 | when `num_sentences` covers all scored sentences, the summary consists of exactly the scored sentences |
| NewsSummarizer.SummaryDistinct | app.py:48-50 | a summary repeats no sentence |
| NewsSummarizer.SummaryUnique | app.py:42-51 | two summaries of the same input are equal, so the result of `summarize_text` is determined by its inputs |
| NewsSummarizer.ChosenScorePositive | app.py:27-49 | every sentence of a summary built from `get_word_frequency`'s table has a score of at least 1 |
| App.TargetSentences | app.py:67 | `max(3, n // 4)` is at least 3 and at least n // 4; it is 3 below twelve sentences and n // 4 from twelve on |
| App.TargetSummaryLength | app.py:67-68 | with the target as `num_sentences`, the summary has `min(target, scored)` sentences (at most a quarter of a document of twelve sentences or more), and it has at least three or contains every scored sentence |

## Left out

- The Flask application, its routes, form handling and `render_template` (app.py:11, 55-81): web I/O. Only the target expression of `summarize_news` (app.py:67) is modelled.
- The NLTK data download at import time (app.py:14-21): network and file-system side effects.
- `sent_tokenize`, `word_tokenize`, `stopwords.words('english')` and `string.punctuation` (app.py:4-6, 25): foreign library code. They become the parameters `splitSentences`, `tokenize` and `stopwords`.
- `str.lower` (app.py:29, 37): Unicode case folding is treated as part of `tokenize`.
- The word counts of the original text and of the summary (app.py:71-72): they only wrap the foreign tokeniser.
- Turning exceptions into error pages (app.py:80-81), and the unused `requests` import (app.py:9).
- The default `num_sentences=10` (app.py:42): `numSentences` is always passed explicitly.
- Seqs.SortByIndex: builds a new sequence instead of sorting the Python list in place. The result is the one the in-place stable sort leaves in the list; aliasing of the list is not modelled.
- Seqs.SortByIndex: requires every item to occur in `within`. Python raises `ValueError` otherwise, which cannot happen here, because the selected keys all come from `sentences`.
- Heapq.NLargest: modelled by the documented result of `nlargest` (a stable descending sort cut to n), not by its heap-based code paths. It requires distinct items, which dictionary keys always are.

