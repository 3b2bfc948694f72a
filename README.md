# Question-answerer recommendation: scoring, question filtering and text preprocessing

This project models the parts of a recommender that carry ordinary logic. The
recommender suggests, for each question, up to 20 users likely to answer it.
The three modelled parts are:

- **Score** (`score.dfy`): precision@k and recall@k of the recommended user
  lists. Integer ids, Dafny sets and exact `real` ratios stand in for Python
  lists, `set` and numpy's mean. Both methods are loops that append one ratio
  per question. Each is proved against the per-question ratio list, and the
  result is shown to lie in [0, 1]. The source's failure modes (the length
  assertion, a division by an empty list, the NaN mean of no questions) are
  `Failure` results.
- **Data** (`data.dfy`): `filter_top_questions` and the header of
  `save_results_csv`. A pandas frame is a sequence of rows, each with its index
  label. The question frame is a class whose `rows` the method replaces: the
  source writes `n_answers` into the caller's frame. The groupby count is
  built row by row and proved equal to its definition. A missing count (NaN)
  is `None`, so a question with no answer rows fails every threshold.
- **Text** and **Embedder** (`text.dfy`, `embedder.dfy`): stop-word removal
  (Python's `str.split()`, an ASCII lower-case, `" ".join`), the layer
  selection of `BertEmbedder`, the alignment of words with sub-word tokens,
  and the "no embedding" result. The tokenizer's `word_ids()` and the number
  of hidden states the model returns are inputs. Stop words are a parameter.
  The method returns a `Pooling`: which layers are summed and which sub-token
  positions are averaged for each word. That is everything the embedding is
  computed from, except the numbers.

`common.dfy` holds the `Option` and `Result` datatypes.

Three behaviours of the code shape the model:

- An empty prediction or truth list makes the code raise `ZeroDivisionError`
  at the first such question, because it divides a Python `int` by
  `len(...)`. The model returns `Failure(ZeroDivision(i))` with that first
  index `i`.
- The answer count per question counts non-missing `answer_id` values
  (`count()` skips NaN) and is compared with `k_answer`. So a question whose
  answer rows all lack an id has count 0, not NaN. `Answer.answerId` is an
  `Option` for this reason.
- Both score functions take lists and convert each side with `set(...)`.
  Recall divides by the length of the truth list, duplicates included, and
  so does the model.

## Model

| member | source | states |
|---|---|---|
| Score.Hits | src/score.py:13 | the size of the intersection of the two id sets is at most the length of either list |
| Score.Distinct | src/score.py:13 | `set(ids)` holds every id of the list and nothing else |
| Score.Precision | src/score.py:13 | a question's precision, hits over the prediction length, lies in [0, 1] when the prediction is non-empty |
| Score.Recall | src/score.py:27 | a question's recall, hits over the truth length, lies in [0, 1] when the truth is non-empty |
| Score.Precisions | src/score.py:11-14 | the list of per-question precisions has one entry per question |
| Score.Recalls | src/score.py:25-28 | the list of per-question recalls has one entry per question |
| Score.PrecisionsAt | src/score.py:12-14 | entry k of the precision list is the precision of question k |
| Score.RecallsAt | src/score.py:26-28 | entry k of the recall list is the recall of question k |
| Score.MeanBounds | src/score.py:15 | the mean of ratios in [0, 1] lies in [0, 1] |
| Score.Mean | src/score.py:15 | the exact mean of a non-empty list times its length is the list's sum (line 29 for recall) |
| Score.PrecisionK | src/score.py:4-15 | unequal lengths fail (the assertion); else the first empty prediction list raises a zero division; no questions give the NaN mean; otherwise the result is the mean of the per-question precisions and lies in [0, 1]; each outcome holds exactly when its condition does |
| Score.RecallK | src/score.py:18-29 | the same for recall, where the first empty truth list raises |
| Score.OrderInsensitive | src/score.py:13 | reordering a prediction list or a truth list (same multiset) changes neither precision nor recall (line 27 for recall) |
| Score.PrecisionIsRecallOnEqualLengths | src/score.py:13 | a prediction and truth of equal length have equal precision and recall |
| Score.DisjointScoresZero | src/score.py:13 | with no common id, precision and recall are 0 |
| Score.IdenticalScoresOne | src/score.py:13 | a prediction equal to its truth, with distinct ids, has precision and recall 1 |
| Score.ExampleTwoThirds | src/score.py:13 | [1,2,3] against [2,3,4] gives 2/3 precision and 2/3 recall |
| Score.ExampleOneHalf | src/score.py:12-15 | [[1,2],[3,4]] against [[1,2],[5,6]] gives mean precision and mean recall 0.5 |
| Data.GroupCount | src/data.py:32 | the groupby count built row by row; no count exceeds the number of answer rows, and `GroupCountCorrect` pins every key and value |
| Data.GroupCountCorrect | src/data.py:32 | the groupby count map has a key exactly for question ids that some answer row refers to; its value is the number of those rows whose answer id is present |
| Data.Lookup | src/data.py:33 | `Series.map` gives a question id's count when the id is a key and NaN otherwise |
| Data.QuestionFrame.constructor | src/data.py:31 | the caller's question frame holds the given rows; `FilterTopQuestions` replaces them in place |
| Data.Annotate | src/data.py:33 | annotation keeps one row per question row |
| Data.AnnotateCounts | src/data.py:32-33 | after annotation each row keeps its label, id and text, and its `n_answers` is its answer count, NaN when no answer row refers to it |
| Data.Keep | src/data.py:35 | every selected row has a present count of at least `k_answer` |
| Data.KeptPositions | src/data.py:35 | the selected positions ascend, and a position is selected exactly when its row's count is present and at least `k_answer` |
| Data.KeepAtPositions | src/data.py:35 | the selection is the subsequence of the rows at the selected positions, in order |
| Data.ResetIndex | src/data.py:35 | the renumbered rows are labelled 0..n-1 in order |
| Data.ResetIndexRoundTrip | src/data.py:35 | renumbering keeps the old label as column `index`: restoring it gives back the rows |
| Data.FilterTopQuestions | src/data.py:31-35 | the caller's frame is replaced by its annotated form, and the result is the renumbered selection of the annotated rows |
| Data.TopQuestionsAreQualifying | src/data.py:31-35 | the result holds exactly the questions whose answer count is present and at least `k_answer`, in input order, numbered 0..n-1, each with its old label, id, text and count |
| Data.UnansweredNeverKept | src/data.py:33-35 | a question that no answer row refers to is never kept, for any threshold, and every kept row has an answer row |
| Data.DefaultThresholdKeepsAnswered | src/data.py:31-35 | with the default threshold 1, a question is kept exactly when it has an answer row with a present answer id |
| Data.Decimal | src/data.py:39 | the decimal form of a number is non-empty, made of digits, and starts with 0 only for 0 (no leading zeros) |
| Data.DecimalRoundTrip | src/data.py:39 | reading the decimal form of a number back gives the number |
| Data.UserColumn | src/data.py:39 | the name is `user`, the decimal form of the rank, then `_id`; with `UserColumnInjective` distinct ranks give distinct names |
| Data.UserColumns | src/data.py:39 | the comprehension over `range(lo, hi)` yields `hi - lo` names, `user{lo + k}_id` at position k |
| Data.ResultColumns | src/data.py:39 | the header has 21 entries: `question_id`, then `user{k}_id` at position k for k = 1..20 |
| Data.ResultColumnsSpelled | src/data.py:39 | the first user column is `user1_id` and the last is `user20_id` |
| Data.ResultColumnsDistinct | src/data.py:39 | no two header entries are equal |
| Text.WordLength | src/embedder.py:22 | the measured prefix is whitespace-free and ends at whitespace or at the end of the text |
| Text.Split | src/embedder.py:22 | every token of `str.split()` is non-empty and contains no whitespace |
| Text.SplitAtSpace | src/embedder.py:22 | a whitespace character separates: splitting around it is splitting each side and concatenating the tokens |
| Text.SplitWord | src/embedder.py:22 | a whitespace-free non-empty text splits into itself, so with `SplitAtSpace` the tokens are exactly the maximal whitespace-free runs, in order |
| Text.Join | src/embedder.py:22 | `" ".join` starts with its first word, and joining words is empty exactly when there are none |
| Text.SplitJoin | src/embedder.py:34 | splitting words joined by single spaces gives back the words |
| Text.Lower | src/embedder.py:22 | lower-casing keeps the length and lower-cases each character (ASCII) |
| Text.KeepTokens | src/embedder.py:22 | the kept tokens come from the input and none is a stop word |
| Text.KeepTokensOne | src/embedder.py:22 | a single token is kept exactly when its lowercase form is not a stop word |
| Text.KeepTokensAppend | src/embedder.py:22 | filtering a concatenation filters each part, so with `KeepTokensOne` every non-stop token survives, in order and with its multiplicity |
| Text.SplitFiltered | src/embedder.py:22 | re-splitting the filtered text gives exactly the input's tokens minus the stop words, in order, and none of them is a stop word (line 34 re-splits) |
| Text.RemoveStopWords | src/embedder.py:22 | the filtered text is empty exactly when no token is kept; `SplitFiltered` gives its tokens |
| Text.NothingKept | src/embedder.py:22 | no token is kept exactly when every token of the text is a stop word |
| Text.RemoveStopWordsIdempotent | src/embedder.py:22 | filtering already filtered text returns it unchanged |
| Text.KeepTokensEmpty | src/embedder.py:22 | no token is kept exactly when every token is a stop word |
| Embedder.ChooseLayers | src/embedder.py:15 | no argument gives [-4, -3, -2, -1]; an argument is used unchanged |
| Embedder.ResolveIndex | src/embedder.py:31 | Python indexing into `n` states succeeds exactly for -n <= i < n, and picks the state counted from the end for a negative index |
| Embedder.ResolveAll | src/embedder.py:31 | the comprehension over `self.layers` succeeds exactly when every index is in range, then picks one state per index; otherwise it raises at the first out-of-range index |
| Embedder.SelectLayers | src/embedder.py:31 | stacking succeeds exactly when the layer list is non-empty and every index is in range, and then picks one state per layer; an empty list is the stacking error, and otherwise the first out-of-range index raises its index error |
| Embedder.DefaultLayersAreLastFour | src/embedder.py:15 | with at least four hidden states, the default layers are the last four, in order |
| Embedder.IndexOf | src/embedder.py:37 | `tokens.index(t)` is the first position holding `t` |
| Embedder.Positions | src/embedder.py:38 | the selected sub-token positions are exactly those whose word id is the given index, in ascending order |
| Embedder.Alignment | src/embedder.py:34-43 | there is one per-word entry per word |
| Embedder.AlignmentOfWord | src/embedder.py:37-40 | a word's index holds the same word, is not after it and is its first occurrence; its entry holds exactly the positions mapped to that index, and never a special token's |
| Embedder.RepeatedWordsShareAlignment | src/embedder.py:36-38 | a later occurrence of a word gets the entry of its first occurrence |
| Embedder.RepeatedWordExample | src/embedder.py:36-38 | for "a a" with sub-token word ids [None, 0, 1, None], both words are pooled from position 1 only |
| Embedder.BertEmbedder.constructor | src/embedder.py:14-15 | the embedder's layers are the chosen layers |
| Embedder.BertEmbedder.GetEmbeddings | src/embedder.py:19-47 | a bad layer selection raises its error; otherwise there is no embedding exactly when every token of the text is a stop word; otherwise the layers are the selected ones and there is one entry per remaining word, aligned by first occurrence |

## Left out

- Loading the tokenizer and the model, sub-word tokenization and the forward pass are foreign calls. `word_ids()` and the number of hidden states enter only as parameters of `GetEmbeddings`.
- Embedder.BertEmbedder.GetEmbeddings: the tokenizer and model calls are assumed to return, so their exceptions are not modelled (for example the forward pass failing on a filtered text of more than 512 sub-tokens); the only modelled errors are the layer errors.
- Python float division and numpy's float64 mean become exact `real` arithmetic, so rounding is not modelled: `Score.Precision`, `Score.Recall` and `Score.Mean` are exact ratios.
- Tensor numerics are floating point and are not modelled: the layer sum, the per-word and sentence means, and the NaN of a word with no sub-tokens. The model describes only which layers and positions feed them.
- The NLTK stop-word download and the concrete English list are left out. The stop set is a parameter.
- Python's Unicode `str.lower()` is left out. `Text.Lower` maps only ASCII upper-case letters.
- `load_data` and the CSV writing in `save_results_csv` are file I/O.
- `split_questions` calls scikit-learn's random `train_test_split`. That is a black-box library call with randomness.
- `print` logging is left out.
- pandas details are left out: the float dtype of a column holding NaN, NaN question ids among the answers, an existing `index` column on `reset_index`, and the question table's other columns.
