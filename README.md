# questions: a verified model of the retrieval engine

`questions.py` answers a question against a corpus of text files. It:

1. tokenizes every file;
2. computes an inverse document frequency (idf) for every word;
3. ranks the files by the TF-IDF sum of the query words and keeps the best
   `FILE_MATCHES`;
4. splits those files into sentences and keeps only the sentences that
   tokenize to a non-empty list;
5. computes idfs over the sentences;
6. ranks the sentences by the sum of the idfs of the query words they
   contain, breaking ties by query-term density, and returns the best
   `SENTENCE_MATCHES`.

This project models that engine in Dafny and proves what it computes.

Modules:

- `Collections` (collections.dfy): shared vocabulary.
  - A Python dict is modelled as the sequence of its `(key, value)` items in
    iteration order, with distinct keys. `Lookup` is `d[k]`.
  - `Get` is `Counter(m)[k]`.
  - `Occurs` is `w in s` on two strings.
- `Tokenizer` (tokenize.dfy): the filter comprehension of `tokenize`. It
  drops every token that is a substring of `string.punctuation`, and every
  stop word.
- `Idf` (idf.dfy): `compute_idfs`, as a method with the source's three
  loops. It is proved against `IdfOf(w) = ln(N / df(w))`, where `df` is the
  number of documents whose list contains the word.
- `Ranking` (ranking.dfy): what both rankers share.
  - `AddCounters` is `Counter(a) + Counter(b)`, which keeps only the keys
    whose sum is strictly positive.
  - `SortDesc`, `Take` and `KeysOf` are the tail
    `[x[0] for x in sorted(items, key, reverse=True)[:n]]`. The sort is a
    stable insertion sort, proved sorted and a permutation.
- `DocumentRanker` (documents.dfy): `top_files`, as a method with the
  source's nested loops. It is proved equal to the reference function
  `RankFiles`, and `RankFiles` is proved correct against the reference score
  `FileScore`.
- `SentenceRanker` (sentences.dfy): `top_sentences`, as a method with the
  source's nested loops. It includes the in-place density table. It is
  proved equal to `RankSentences`, and `RankSentences` is proved correct
  against `IdfSum` and `Density`.
- `Pipeline` (pipeline.dfy): the sentence loop of `main` with its
  non-empty-token guard, and `Answer`, the chain of calls `main` makes. The
  guard establishes the precondition of `TopSentences`, so the density
  division never divides by zero.

Foreign calls are parameters of the model:

- `segment` stands for `nltk.word_tokenize(document.lower())`.
- `stopWords` stands for NLTK's English stop-word list.
- `split` stands for `str.split("\n")` followed by `nltk.sent_tokenize`.
- `ln` stands for `math.log(x, e)`.

Facts about the logarithm are assumed through `Idf.IsNaturalLog`:
`ln(1) = 0`, and `ln` is strictly increasing from 1 on.

Two behaviours of the code are easy to misread; the model follows the code:

- **A query that matches nothing returns `[]`.** One might expect such a
  query still to return `n` files in some deterministic order. The code does
  not: `Counter` addition drops every file and every sentence whose running
  sum is not strictly positive (`NoMatchNoFiles`, `NoMatchNoSentences`).
- **More than single punctuation marks are dropped.** One might expect only
  tokens that are exactly one punctuation character to be dropped. The
  code's `word not in string.punctuation` is a substring test, so it also
  drops the empty token and runs of adjacent marks such as `"()"`
  (`PunctuationBlockDropped`).

## Model

| member | source | states |
|---|---|---|
| Collections.OccursIff | questions.py:82 | The substring test `w in s` holds exactly when `w` equals the block of `s` that starts at some index. |
| Tokenizer.FilterTokens | questions.py:82 | The output is an order-preserving subsequence of the tokens. Every output token is kept: it is not a substring of the punctuation string and not a stop word. Every kept token occurs as often in the output as in the input. |
| Tokenizer.Tokenize | questions.py:79-85 | `tokenize` returns an order-preserving subsequence of the segmenter's tokens, containing no punctuation block and no stop word. |
| Tokenizer.FilterIdempotent | questions.py:82 | Filtering an already filtered list returns it unchanged. |
| Tokenizer.FilterUnique | questions.py:82 | Any subsequence that keeps exactly the occurrences of the kept tokens is the filter's output, so the filter's contract determines its result. |
| Tokenizer.PunctuationBlockDropped | questions.py:82 | Every contiguous block of the punctuation string is dropped, whatever the stop words are: the empty token, a single mark, and runs such as "()". |
| Idf.DocFreqRange | questions.py:107-112 | The document frequency is at most N. A word is in the vocabulary exactly when its document frequency is at least 1. |
| Idf.DocFreqPositive | questions.py:107-112 | The document frequency is positive exactly when some document's list contains the word (presence, not frequency). |
| Idf.DocFreqAll | questions.py:107-112 | The document frequency equals N exactly when every document's list contains the word. |
| Idf.IdfRange | questions.py:114-117 | With a natural logarithm, `log(N/df)` lies in [0, log N]. It is 0 exactly when every document contains the word, and log N exactly when exactly one document does. |
| Idf.IdfsNonNegative | questions.py:114-117 | Every value in a table that `compute_idfs` produces is non-negative. |
| Idf.CollectWords | questions.py:102-105 | The first loop makes the keys of `counts` exactly the words occurring in some document, each with count 0. The order in which the keys arrive is recorded without repeats. |
| Idf.ComputeIdfs | questions.py:89-119 | The keys of the result are exactly the words occurring in at least one document. Each value is `log(N / df)`, with `df` the number of documents containing the word. An empty collection gives an empty table. |
| Ranking.AddCounters | questions.py:142 | `Counter(a) + Counter(b)` keeps only strictly positive sums, and only keys of `a` or `b`. |
| Ranking.Insert | questions.py:144 | Inserting into a non-increasing list keeps it non-increasing. It adds exactly the new entry, and keeps keys distinct when the new key is new. |
| Ranking.SortDesc | questions.py:144 | `sorted(..., reverse=True)` returns a non-increasing permutation of its input and keeps keys distinct. |
| Ranking.Take | questions.py:144 | The slice `[:n]` has min(n, length) entries. |
| Ranking.TopSelection | questions.py:144-145 | The sorted, sliced selection has min(n, #candidates) entries, all taken from the candidates, in non-increasing order, with no repeated key when the candidates repeat none. |
| Ranking.TopSelectionLeavesNoBetter | questions.py:144-145 | No candidate left out of the selection ranks strictly above an entry the selection keeps. |
| Ranking.Candidates | questions.py:144 | The items handed to `sorted` are ranked keys that are dict keys, each with its sort key (score, tie-break value). They repeat no key when the dict's keys are distinct. |
| Ranking.CandidatesTieAgree | questions.py:177 | The items to sort depend on the tie-break table only at the ranked keys. |
| Ranking.CandidateKeys | questions.py:144 | The items to sort are exactly the dict keys whose item satisfies the ranking predicate, in dict order. |
| DocumentRanker.TopFiles | questions.py:124-146 | `top_files`, with its two nested loops and the `Counter` merge, returns exactly `RankFiles`: the best `n` ranked files by score. |
| DocumentRanker.FileScoreNonNegative | questions.py:138-139 | With non-negative idfs, no file's TF-IDF sum is negative. |
| DocumentRanker.WordTfidfsKeys | questions.py:136-140 | The per-word dict has exactly the file names as keys. |
| DocumentRanker.WordTfidfsAt | questions.py:136-140 | With distinct file names, each file's entry in the per-word dict is its count of the word times the word's idf. |
| DocumentRanker.WordTfidfsZero | questions.py:136-140 | If the word's idf is 0, or no file contains the word, every entry of the per-word dict is 0. |
| DocumentRanker.RankedKeys | questions.py:142 | Only file names are ever ranked. |
| DocumentRanker.RankedIsScore | questions.py:131-142 | With distinct names and non-negative idfs, each file's entry in the accumulated `Counter` is its reference TF-IDF sum over the query, or 0 when absent. Query words without an idf contribute nothing. |
| DocumentRanker.RankedScoreOf | questions.py:142 | A file is ranked exactly when its score is strictly positive, and then with that score. |
| DocumentRanker.FileCandidatesScored | questions.py:142-144 | The items sorted are the positive-score files in file order, none twice, each ranked by its score. |
| DocumentRanker.TopFilesAreFiles | questions.py:144-146 | Whatever the inputs, `top_files` returns at most `n` names, each the name of a file. |
| DocumentRanker.TopFilesChosen | questions.py:142-146 | `top_files` returns min(n, #positive-score files) distinct names. Each is a file name with a strictly positive score. |
| DocumentRanker.TopFilesOrdered | questions.py:144-145 | The returned names come in non-increasing score order. |
| DocumentRanker.TopFilesNoneBetter | questions.py:144-145 | No positive-score file left out scores strictly higher than any returned file. |
| DocumentRanker.NoMatchNoFiles | questions.py:142-146 | If every query word with an idf either has idf 0 or occurs in no file, nothing is ranked and `top_files` returns []. |
| SentenceRanker.TopSentences | questions.py:149-181 | `top_sentences`, with its nested loops, the density write and the `Counter` merge, returns exactly `RankSentences`, given non-empty token lists. |
| SentenceRanker.WordIdfsAt | questions.py:165-171 | With distinct sentences, each sentence's entry in the per-word dict is the word's idf when it contains the word, and 0 (absent) otherwise. |
| SentenceRanker.WordIdfsMissing | questions.py:165-171 | A key of no sentence never enters the per-word dict. |
| SentenceRanker.WordIdfsValue | questions.py:169-171 | Every entry of the per-word dict is the word's idf, for a sentence containing the word. |
| SentenceRanker.IdfSumNonNegative | questions.py:170 | With non-negative idfs, no idf sum is negative. |
| SentenceRanker.IdfSumPositive | questions.py:169-173 | A positive idf sum needs a query word that has an idf and occurs in the sentence. |
| SentenceRanker.RankedSentencesIsSum | questions.py:159-173 | With distinct sentences and non-negative idfs, each sentence's entry in the accumulated `Counter` is its reference idf sum over the query, or 0 when absent. |
| SentenceRanker.RankedSentencesKeys | questions.py:173 | Only sentences are ever ranked. |
| SentenceRanker.RankedSentencesScoreOf | questions.py:173 | A sentence is ranked exactly when its idf sum is strictly positive, and then with that sum. |
| SentenceRanker.SentenceCandidatesScored | questions.py:173-177 | The items sorted are the matched sentences in dict order, none twice, each with sort key (idf sum, density) and a positive idf sum. |
| SentenceRanker.TopSentencesAtMost | questions.py:177-181 | Whatever the inputs, `top_sentences` returns at most `n` keys, each a sentence. |
| SentenceRanker.TopSentencesChosen | questions.py:173-181 | `top_sentences` returns min(n, #matched sentences) distinct sentences, each a key of the dict with a strictly positive idf sum. |
| SentenceRanker.TopSentencesOrdered | questions.py:177 | Consecutive results are lexicographically non-increasing in (idf sum, density). Between equal idf sums, the density does not increase. |
| SentenceRanker.TopSentencesDensityFirst | questions.py:177 | Of two returned sentences with equal idf sums, the one with strictly higher density comes first. |
| SentenceRanker.TopSentencesNoneBetter | questions.py:177 | No matched sentence left out ranks above a returned one by (idf sum, density). |
| SentenceRanker.NoMatchNoSentences | questions.py:173-181 | If every query word with an idf either has idf 0 or occurs in no sentence, `top_sentences` returns []. |
| SentenceRanker.DensityRange | questions.py:167-168 | For a query of distinct words and a non-empty sentence, the density lies in [0, 1]. It is positive exactly when some query word occurs in the sentence. |
| SentenceRanker.MatchCountBound | questions.py:167 | For a query of distinct words, the matched count is at most the sentence's token count, and positive exactly when some query word occurs in the sentence. |
| SentenceRanker.MatchCountIsCard | questions.py:167 | For a query of distinct words, the matched count is the number of distinct query words occurring in the sentence. |
| Pipeline.BuildSentences | questions.py:34-40 | The sentence dict has distinct keys and non-empty token lists. Each value is the sentence's tokenization. Its keys are exactly the candidate sentences whose tokenization is non-empty. |
| Pipeline.FileWordsKeys | questions.py:21-24 | `file_words` is keyed by exactly the file names. |
| Pipeline.SentencesOfFrom | questions.py:35-37 | Every gathered sentence comes from one of the returned files. |
| Pipeline.MatchSharesQueryWord | questions.py:173-181 | With non-negative idfs, every returned sentence is a dict key and holds a query word that has an idf. |
| Pipeline.Answer | questions.py:20-46 | `main`'s chain returns at most `FILE_MATCHES` names, each a file of the corpus, and at most `SENTENCE_MATCHES` sentences; the sentence dict it builds meets `top_sentences`' requirement of non-empty token lists, so no density divides by zero. With a natural logarithm, each answer is a sentence of a returned file, and its tokenization shares a word with the query. |

## Left out

- `load_files` (questions.py:51-64): listing a directory and reading files are I/O. The model starts from the dict of file contents.
- `main`'s argument check, `input()` prompt and `print` (questions.py:15-17, 28, 47-48) are I/O. The query is a parameter of `Answer`.
- `nltk.word_tokenize`, `str.lower`, `nltk.sent_tokenize`, `str.split("\n")` and the NLTK stop-word list are foreign calls. They are the parameters `segment`, `split` and `stopWords`. Stop words are a set; membership in NLTK's list is the same test.
- `math.log` and float arithmetic: scores are exact reals, and the logarithm is the parameter `ln`. Facts about it are assumed only through `IsNaturalLog`. Rounding, and `math.log`'s division by `log(e)`, are not modelled.
- Set iteration order: the query set is a sequence in its iteration order. Only `DensityRange`, `MatchCountBound` and `MatchCountIsCard` use its having no repeats.
- Order among equal sort keys: the items to sort are taken in dict order. Python takes them in the `Counter`'s insertion order, so items with exactly equal keys may come out in a different order. Only non-increasing order and the density tie-break are stated.
- Negative `n`: `n` is a `nat`. Python's negative-slice behaviour is not modelled.
- SentenceRanker.TopSentences: requires every token list to be non-empty. Python raises `ZeroDivisionError` at questions.py:168 on an empty list when some query word has an idf. `main`'s guard at questions.py:39 rules that case out, and `BuildSentences` proves the guard establishes the requirement.
- Python dicts have distinct keys. The lemmas about rankings, and `TopSentences`, require `DistinctKeys`.
