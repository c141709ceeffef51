# CommonLit readability pipeline: stratified split and linguistic features

This project models the two pieces of the CommonLit readability pipeline that hold their own logic. Both are written in Dafny and come with proofs.

- **Stratified train/dev split.** This is the `stratified` branch of `split` in `src/preparation/train_dev_split.py`.
  - The table is sorted by its target column.
  - The code computes `desired = round(N * test_size)` and `bin_size = round(N / desired)`. Python's `round` rounds half to even.
  - It walks the sorted index labels in contiguous windows of `bin_size`.
  - Before each draw it re-seeds the random generator with the same seed, then draws one label from the window.
  - The drawn rows become the dev part and all other rows the train part.
- **Linguistic feature schema.** These are `extract_linguistic_features` and `process_texts_linguistic` in `src/feature_generation/linguistic_parsing.py`.
  - Six base statistics are computed from a tagged text: length, token count, distinct lemmas, unique ratio, sentences and tokens per sentence.
  - For every glossary tag name `L` there is a `count_L` and a `ratio_L`. `count_L` counts `L` in the concatenated pos, tag, dep and entity labels. `ratio_L` is `count_L` over the token count.
  - A list of texts is mapped to one feature map per text.

Files:

- `wrappers.dfy` holds the Python exceptions the core can raise, and a `Result` type.
- `py_round.dfy` holds `round` (half to even) on reals.
- `train_dev_split.dfy` holds the split.
- `linguistic_parsing.dfy` holds the feature schema.

Modelling choices:

- **Table and rows.** A data frame is a sequence of `Row(id, target)`.
  - `drop(labels)` removes every row whose label is listed and keeps the row order.
  - `loc[labels, :]` gives, for each label in turn, every row that carries it.
  - With distinct index labels, `loc` gives exactly one row per label (`LocUnique`).
- **Sorting.** `sort_values` is an input, `order`: any permutation of the rows sorted by target. The default sort is not stable, so ties may come out in any order. `SortByTarget` shows that every table has such an order.
- **Random draw.** `random.seed(s); random.sample(bin, k = 1)` is an abstract deterministic `pick(seed, len)` that returns an offset below `len`. The generator is re-seeded before every draw, so the offset depends only on the seed and the window length.
- **Split outcome.** The split returns either an exception or the (train, dev) pair:
  - `desired == 0` raises ZeroDivisionError. This includes the empty table.
  - `bin_size == 0` raises ValueError, because `range` rejects a zero step.
  - A negative `bin_size` gives an empty `range`, so the dev part is empty and the train part is the whole table.
- **Tagger output.** Only what the code reads from the spaCy document is modelled: lemmas, pos/tag/dep per token, the sentence count and the entity labels. It forms the `Doc` input. The tag glossary is a parameter.
- **Values.**
  - Counts are integers and ratios are reals.
  - Zero tokens or zero sentences raise ZeroDivisionError.
  - A failure on any text makes the whole `process_texts_linguistic` call fail.
- **Inputs are not changed.** The model works on values, so the input table and the texts are never changed. The same holds in the source, where `sort_values`, `drop` and `loc` return new frames.

Two points where the code behaves differently from what one might expect. The model follows the code:

- **`ratio_L` can exceed 1.** One might expect `0 <= ratio_L <= 1`. The code allows more, because one token can carry the same name as both its coarse and its fine tag (spaCy tags a symbol `SYM` in both). `RatioCanExceedOne` proves that a one-token text can get `ratio_L = 2`. `RatioAtMostOne` proves the bound under the condition that makes it hold.
- **Base keys can be overwritten.** The glossary loop runs after the dict literal. A glossary name `of_tokens`, `unique_tokens` or `sentences` would therefore overwrite a base statistic. The properties of those base values assume `NoShadowing`. `text_length` and `tokens_per_sentence` hold without that assumption.

The dev size is the number of windows, `ceil(N / bin_size)`, and can differ from `desired`. For example, with 25 rows and `test_size = 0.1`:

- `desired = round(2.5) = 2` and `bin_size = round(12.5) = 12`;
- the windows have sizes 12, 12 and 1, so there are 3 dev rows (`DevCountDrift`).

## Model

| member | source | states |
|---|---|---|
| PyRound.RoundHalfEven | src/preparation/train_dev_split.py:29-30 | `round(x)` lies within 0.5 of `x`, and is even when `x` is exactly halfway between two integers |
| PyRound.RoundHalfEvenUnique | src/preparation/train_dev_split.py:29-30 | those two properties determine the rounded value: any integer that has them is `round(x)` |
| PyRound.RoundOfInteger | src/preparation/train_dev_split.py:29-30 | rounding an integral value gives it back |
| TrainDevSplit.DesiredDevCount | src/preparation/train_dev_split.py:29 | `desired = round(N * test_size)` lies within one half of `N * test_size` |
| TrainDevSplit.BinSize | src/preparation/train_dev_split.py:30 | `bin_size = round(N / desired)` lies within one half of `N / desired` |
| TrainDevSplit.StratifiedSplit | src/preparation/train_dev_split.py:25-41 | the split raises ZeroDivisionError exactly when `desired` rounds to 0; when it returns, every row of the table is in exactly one of train and dev, and both hold only rows of the table |
| TrainDevSplit.SplitStratified | src/preparation/train_dev_split.py:25-41 | the stratified branch computes `desired` and `bin_size`, raises on a zero divisor or a zero step, samples the windows and splits with `drop`/`loc`; its result equals the loop-free `StratifiedSplit` |
| TrainDevSplit.SampleBins | src/preparation/train_dev_split.py:32-38 | the sampling loop returns exactly one draw, `bin[pick(seed, len(bin))]`, from each window of the sorted labels, in window order |
| TrainDevSplit.DrawsFromWindows | src/preparation/train_dev_split.py:33-38 | the loop's draws from position `i` on are the draws from the windows of the suffix starting at `i` |
| TrainDevSplit.DrawsFrom | src/preparation/train_dev_split.py:33-38 | the draws the loop makes from position `i` on are all labels of the sorted list |
| TrainDevSplit.SortByTarget | src/preparation/train_dev_split.py:26 | every table has a `sort_values` result: a permutation of its rows in ascending target order |
| TrainDevSplit.Ids | src/preparation/train_dev_split.py:27 | `list(sorted_df.index)` has one label per row, the row's own label at each position |
| TrainDevSplit.Drop | src/preparation/train_dev_split.py:40 | a row is kept exactly when it is in the table and its label is not among the dropped labels |
| TrainDevSplit.DropConcat | src/preparation/train_dev_split.py:40 | `drop` keeps the original row order: dropping from a concatenation gives the concatenation of the two drops |
| TrainDevSplit.DropNothing | src/preparation/train_dev_split.py:40 | dropping no labels returns the table unchanged |
| TrainDevSplit.DropKeepsDistinct | src/preparation/train_dev_split.py:40 | dropping rows from a table with distinct labels leaves distinct labels |
| TrainDevSplit.Select | src/preparation/train_dev_split.py:41 | `loc` for one label returns exactly the rows of the table that carry that label: each such row as often as it occurs in the table, and no other row |
| TrainDevSplit.SelectUnique | src/preparation/train_dev_split.py:41 | with distinct labels, `loc` of a present label is exactly one row |
| TrainDevSplit.SelectAbsent | src/preparation/train_dev_split.py:41 | `loc` of a label that is not in the index selects no row |
| TrainDevSplit.Loc | src/preparation/train_dev_split.py:41 | `loc[labels, :]` holds a row exactly when the row is in the table and its label is listed |
| TrainDevSplit.LocUnique | src/preparation/train_dev_split.py:41 | with distinct labels, `loc[labels, :]` has one row per listed label, in list order, each carrying that label |
| TrainDevSplit.Windows | src/preparation/train_dev_split.py:33-34 | the windows `df_indexes[i:i+bin_size]` for `i` in `range(0, N, bin_size)` are all non-empty |
| TrainDevSplit.WindowSizes | src/preparation/train_dev_split.py:33-34 | every window has between 1 and `bin_size` labels, and every window except the last has exactly `bin_size` |
| TrainDevSplit.WindowAt | src/preparation/train_dev_split.py:33-34 | window `k` starts at `k * bin_size`, below `N`, and is the slice of that length at that position |
| TrainDevSplit.StartIsMultiple | src/preparation/train_dev_split.py:33 | the `k`-th start of `range(0, N, bin_size)` is `k * bin_size` |
| TrainDevSplit.StartAfter | src/preparation/train_dev_split.py:33-34 | a later window starts at least `bin_size` after an earlier one, so windows do not overlap |
| TrainDevSplit.WindowCount | src/preparation/train_dev_split.py:33 | the windows cover positions up to `N`, and the last window starts below `N` |
| TrainDevSplit.CeilingCount | src/preparation/train_dev_split.py:33 | that number of windows is `ceil(N / bin_size)` |
| TrainDevSplit.WindowsCover | src/preparation/train_dev_split.py:33-34 | the windows concatenated in order give back the whole sorted label list |
| TrainDevSplit.Draws | src/preparation/train_dev_split.py:33-38 | one draw per window |
| TrainDevSplit.DevLabels | src/preparation/train_dev_split.py:32-38 | `dev_indexes` holds `ceil(N / bin_size)` labels |
| TrainDevSplit.DrawsAt | src/preparation/train_dev_split.py:36-38 | the `k`-th draw is taken from window `k` at offset `pick(seed, len(window))` |
| TrainDevSplit.DrawCount | src/preparation/train_dev_split.py:33-38 | exactly one label is drawn per window, so `ceil(N / bin_size)` labels in all |
| TrainDevSplit.DrawPositions | src/preparation/train_dev_split.py:33-38 | the `k`-th drawn label sits in the sorted list at a position inside window `k` |
| TrainDevSplit.DrawPositionAt | src/preparation/train_dev_split.py:33-38 | the same for one given window `k` |
| TrainDevSplit.DrawsIncreasing | src/preparation/train_dev_split.py:33-38 | draws from later windows come from strictly later positions of the sorted list |
| TrainDevSplit.DevLabelsPresent | src/preparation/train_dev_split.py:34-38 | every drawn label is a label of the sorted frame |
| TrainDevSplit.SortedLabelsPresent | src/preparation/train_dev_split.py:26-27 | every label of the sorted frame is a label of the original frame, so `loc` never raises KeyError |
| TrainDevSplit.DevLabelsDistinct | src/preparation/train_dev_split.py:33-38 | with distinct labels, no label is drawn twice |
| TrainDevSplit.SortKeepsDistinctIds | src/preparation/train_dev_split.py:26 | sorting keeps the labels distinct |
| TrainDevSplit.DistinctRows | src/preparation/train_dev_split.py:40-41 | rows with distinct labels are distinct rows |
| TrainDevSplit.SameIdSameRow | src/preparation/train_dev_split.py:41 | with distinct labels, two rows of the table with the same label are the same row |
| TrainDevSplit.LocAt | src/preparation/train_dev_split.py:26-41 | the row `loc` returns for the label at sorted position `p` is the sorted frame's row at `p` |
| TrainDevSplit.DropLocPartition | src/preparation/train_dev_split.py:40-41 | for distinct drawn labels of the table, `drop` and `loc` are disjoint and together hold every row exactly once |
| TrainDevSplit.Partition | src/preparation/train_dev_split.py:40-41 | a train part of exactly the unlisted rows and a dev part of one row per listed label partition the table |
| TrainDevSplit.SplitFailures | src/preparation/train_dev_split.py:29-33 | the split raises ZeroDivisionError exactly when `desired == 0`, raises ValueError exactly when `bin_size == 0`, and returns a pair otherwise |
| TrainDevSplit.EmptyTableFails | src/preparation/train_dev_split.py:28-30 | an empty table raises ZeroDivisionError whatever `test_size` is |
| TrainDevSplit.SplitPartitions | src/preparation/train_dev_split.py:40-41 | train and dev are disjoint, their multisets add up to the table, their sizes add up to `N`, and train is the table minus dev's labels |
| TrainDevSplit.DevRows | src/preparation/train_dev_split.py:33-41 | the rows `loc` returns for the drawn labels are one per window, each at its draw position in the sorted frame |
| TrainDevSplit.DrawnRows | src/preparation/train_dev_split.py:33-41 | any one-row-per-label selection of the drawn labels has that shape |
| TrainDevSplit.DrawnRowAt | src/preparation/train_dev_split.py:33-41 | dev row `k` is the sorted frame's row at the draw position in window `k`; for a full window that position is `k * bin_size + pick(seed, bin_size)`, the same offset in every full window |
| TrainDevSplit.SplitDraws | src/preparation/train_dev_split.py:25-41 | for a positive `bin_size` the dev part holds one row drawn from each window of the sorted frame, in window order |
| TrainDevSplit.SplitNegativeBin | src/preparation/train_dev_split.py:30-41 | a negative `bin_size` gives an empty dev part and the whole table as train |
| TrainDevSplit.DrawsKeepOrder | src/preparation/train_dev_split.py:26-38 | one draw per window of a sorted frame gives dev rows with distinct labels in ascending target order |
| TrainDevSplit.SplitDevSorted | src/preparation/train_dev_split.py:26-41 | the dev part has distinct labels and is in ascending target order |
| TrainDevSplit.HundredRowsTenthDev | src/preparation/train_dev_split.py:28-41 | 100 rows with `test_size = 0.1` give 10 dev rows and 90 train rows |
| TrainDevSplit.TinyTestSizeFails | src/preparation/train_dev_split.py:29-30 | 5 rows with `test_size = 0.01` give `desired = 0` and raise ZeroDivisionError |
| TrainDevSplit.DevCountDrift | src/preparation/train_dev_split.py:29-41 | 25 rows with `test_size = 0.1` give `desired = 2` but 3 dev rows and 22 train rows |
| LinguisticParsing.Lemmas | src/feature_generation/linguistic_parsing.py:32 | one lemma per token |
| LinguisticParsing.Occurrences | src/feature_generation/linguistic_parsing.py:56 | `list.count(name)` is at most the length, is 0 exactly when `name` is absent, and equals `name`'s multiplicity |
| LinguisticParsing.DistinctCount | src/feature_generation/linguistic_parsing.py:35 | `len(set(tokens))` is at most the number of tokens, and at least 1 when there is a token |
| LinguisticParsing.SetOfSeqSize | src/feature_generation/linguistic_parsing.py:35 | the set of a sequence is no larger than the sequence and non-empty for a non-empty one |
| LinguisticParsing.PosLabels | src/feature_generation/linguistic_parsing.py:39 | one coarse tag per token |
| LinguisticParsing.TagLabels | src/feature_generation/linguistic_parsing.py:40 | one fine tag per token |
| LinguisticParsing.DepLabels | src/feature_generation/linguistic_parsing.py:41 | one dependency label per token |
| LinguisticParsing.TokenLabelsAt | src/feature_generation/linguistic_parsing.py:39-41 | position `i` of the pos, tag and dep lists holds token `i`'s own label |
| LinguisticParsing.AllLabels | src/feature_generation/linguistic_parsing.py:44 | `all_labels` has three labels per token followed by one per entity |
| LinguisticParsing.BaseFeatures | src/feature_generation/linguistic_parsing.py:46-53 | the dict literal has exactly the six base keys |
| LinguisticParsing.WithLabelFeatures | src/feature_generation/linguistic_parsing.py:55-58 | the glossary loop only writes entries: every key present before the loop is still present after it |
| LinguisticParsing.LinguisticFeatures | src/feature_generation/linguistic_parsing.py:32-59 | the extraction raises exactly when there is no token or no sentence, and the exception is ZeroDivisionError |
| LinguisticParsing.ExtractLinguisticFeatures | src/feature_generation/linguistic_parsing.py:32-59 | the method computes the base statistics, then fills in `count_L` and `ratio_L` in a loop over the glossary; the result equals `LinguisticFeatures` |
| LinguisticParsing.MapAll | src/feature_generation/linguistic_parsing.py:72 | a list comprehension over fallible calls succeeds exactly when every call succeeds, then holds each call's value in order; otherwise it fails with the error of the first failing element |
| LinguisticParsing.ProcessTexts | src/feature_generation/linguistic_parsing.py:61-73 | one feature map per text, in input order, each the text's own features; it fails, with ZeroDivisionError, exactly when some text fails |
| LinguisticParsing.LabelFeatureKeys | src/feature_generation/linguistic_parsing.py:55-58 | the glossary loop adds exactly the keys `count_L` and `ratio_L` for the glossary names |
| LinguisticParsing.FeatureKeys | src/feature_generation/linguistic_parsing.py:46-58 | the key set is the six base keys plus `count_L` and `ratio_L` for every glossary name |
| LinguisticParsing.SameKeysForEveryText | src/feature_generation/linguistic_parsing.py:46-58 | any two texts that do not raise get the same key set |
| LinguisticParsing.LabelFeatureValues | src/feature_generation/linguistic_parsing.py:55-58 | after the loop, `count_L` is L's count in the labels and `ratio_L` is that count over the tokens, for every glossary name |
| LinguisticParsing.LabelFeaturesKeep | src/feature_generation/linguistic_parsing.py:46-58 | a key the loop never writes keeps its dict-literal value |
| LinguisticParsing.LabelKeyShape | src/feature_generation/linguistic_parsing.py:57-58 | every key the loop writes is `count_` or `ratio_` followed by a glossary name |
| LinguisticParsing.BaseKeysNotWritten | src/feature_generation/linguistic_parsing.py:46-58 | the loop cannot overwrite `text_length` or `tokens_per_sentence`, and overwrites no base key when no glossary name is `of_tokens`, `unique_tokens` or `sentences` |
| LinguisticParsing.BaseKeyKept | src/feature_generation/linguistic_parsing.py:46-58 | a base key the glossary does not overwrite keeps its dict-literal value in the result |
| LinguisticParsing.BaseFeatureValues | src/feature_generation/linguistic_parsing.py:33-52 | `text_length` is the length of the text whatever the tagger returned, and `tokens_per_sentence` is tokens over sentences |
| LinguisticParsing.UnshadowedFeatureValues | src/feature_generation/linguistic_parsing.py:32-53 | when no glossary name shadows a base key, `count_of_tokens` is the lemma count, `count_unique_tokens` the distinct lemma count, `ratio_unique_tokens` their quotient and `count_sentences` the sentence count |
| LinguisticParsing.UniqueRatioBounds | src/feature_generation/linguistic_parsing.py:34-50 | when no glossary name shadows a base key, 1 <= distinct lemmas <= tokens and `ratio_unique_tokens` lies in (0, 1] |
| LinguisticParsing.GlossaryFeatureValues | src/feature_generation/linguistic_parsing.py:44-58 | `count_L` is the number of occurrences of L in pos ++ tag ++ dep ++ entity labels: 0 when absent and at most the list's length. `ratio_L` is that count over the tokens and is never negative |
| LinguisticParsing.PerTokenCount | src/feature_generation/linguistic_parsing.py:39-56 | when no token carries a name in two of its tag lists, the name occurs at most once per token across pos, tag and dep |
| LinguisticParsing.RatioAtMostOne | src/feature_generation/linguistic_parsing.py:44-58 | `ratio_L <= 1` when no token carries L in two of its tag lists and no entity label is L |
| LinguisticParsing.RatioCanExceedOne | src/feature_generation/linguistic_parsing.py:44-58 | without that condition, a one-token text tagged L as both coarse and fine tag gets `ratio_L = 2` |
| LinguisticParsing.OneTokenLabels | src/feature_generation/linguistic_parsing.py:39-44 | for one token, the label list is its pos, tag and dep followed by the entity labels |

## Left out

- The non-stratified branch (`train_test_split`, src/preparation/train_dev_split.py:43-44) is not modelled. It is a call into sklearn.
- The following are plumbing and are not modelled:
  - every hydra `main`;
  - configuration loading and logging;
  - path handling and folder creation;
  - CSV, JSON, parquet and numpy reading and writing.
- The spaCy model is not modelled (`spacy.load`, `nlp(text)`, `doc.to_json()`). Its output for a text is the `Doc` input, and `process_texts_linguistic` takes the tagger as a function `nlp`. The spaCy glossary is a parameter. The `tqdm` progress bar has no effect on the result and is not modelled.
- The Mersenne Twister behind `random.seed` and `random.sample` is abstracted as `pick`. Which offset a given seed selects is not modelled, only that it depends on the seed and the window length alone.
- `test_size`, the targets and the ratios are reals, not IEEE doubles. The floating-point rounding of `N * test_size` and `N / desired` before `round` is not modelled, and neither are NaN targets.
- `sort_values` is an input constrained to be a sorted permutation. The sort itself is not modelled, nor is the particular order pandas gives to ties.
- The `loc` KeyError for a missing label is not modelled. `split` never passes one (`SortedLabelsPresent`, `DevLabelsPresent`), and `Loc` requires that every label be present.
- TrainDevSplit.SplitPartitions: the multiset and size statements are for tables with distinct index labels. With repeated labels, `loc` returns every row carrying a drawn label, which `Select` and `Loc` state. `StratifiedSplit` still promises that every row lands in exactly one part, but the multiset count is not stated for that case.
- LinguisticParsing.LinguisticFeatures: the feature map is a `map`, which has no key order. In the source the returned dict lists the six base keys first, then `count_L`/`ratio_L` in glossary order, and a base key the glossary overwrites keeps its place. That order becomes the field order of the saved JSON and the column order of the feature table built from it. The model states the key set (`FeatureKeys`, `SameKeysForEveryText`), not this order.
- The rest of the repository is not part of this model:
  - vectorization;
  - feature combination;
  - model training, prediction and evaluation;
  - plotting.
