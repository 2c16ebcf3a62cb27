# Feature transformers of Rubix ML, modelled in Dafny

This project models three fit/transform feature transformers of the Rubix ML
library (PHP) and proves what each promises.

- **OneHotEncoder** (`one_hot_encoder.dfy`, module `OneHotEncoding`).
  `Fit` walks the categorical columns in column order. A single position
  counter, shared by every column, gives each new category the next
  position, in first-seen order. `Transform` replaces every categorical
  column of a sample by a 0/1 indicator block and appends the blocks, in
  fitted column order, after the columns that remain.
- **VarianceThresholdFilter** (`variance_threshold_filter.dfy`, module
  `VarianceThreshold`). `Fit` keeps every non-continuous column. It keeps a
  continuous column only when its population variance is strictly above the
  threshold. `Transform` projects each sample onto the kept columns and
  renumbers it.
- **PolynomialExpander** (`polynomial_expander.dfy`, module
  `PolynomialExpansion`). This transformer has no fitted state. Each column
  x_i becomes x_i^1 … x_i^d, column after column.

`common.dfy` (module `Common`) holds what they share: the value carried in
a column (`Num` or `Cat`), the column type tags, the dataset given to `fit`,
the error kinds and the column filter. That filter is what PHP's `unset` or
`array_intersect_key`, followed by renumbering with `array_merge` or
`array_values`, does to a list.

Each transformer is a class. Its fitted state is an `Option` field, and
`None` means "not fitted". Batches are arrays rewritten in place, because
the PHP code rewrites `$samples` by reference. Each loop of the source is a
method with loop invariants. That method is proved equal to a
prefix-recursive reference function: `Fitted`, `Entry`, `Encode`,
`Selection`, `Expand`. The promised properties are lemmas about those
functions. A throwing constructor is a static `Create` method that returns
`Err(InvalidArgument)`. A `transform` before `fit` returns
`Fail(NotFitted)` and leaves the batch untouched.

Behaviour the code fixes that is easy to misread:

- A one-hot block is keyed in PHP by the column's global positions
  (`array_fill_keys($categories, 0)`), then renumbered. The model keeps
  that keying, and `BlockIndicator` proves that slot i is 1 exactly when
  the sample holds the i-th category of the column.
- The expander takes its column count from the first sample only. Longer
  rows are cut to that count. Rows shorter than the first sample are
  excluded by a precondition.
- A malformed batch (a missing column, a short row) is not a hard failure
  in the code. It triggers PHP notices. The model makes well-formed rows a
  precondition instead of inventing a failure.

## Model

| member | source | states |
|---|---|---|
| `OneHotEncoding.OneHotEncoder.Fit` | src/Transformers/OneHotEncoder.php:36-57 | the fitted state becomes `Some(Fitted(samples, types))`, whatever it held before, so re-fitting discards the old dictionaries; the encoder stays valid |
| `OneHotEncoding.CollectCategories` | src/Transformers/OneHotEncoder.php:44-52 | the inner scan of one column yields that column's categories in first-seen order, and positions that continue the shared counter; the counter has advanced by the number of new categories |
| `OneHotEncoding.DedupSpec` | src/Transformers/OneHotEncoder.php:46-52 | the dictionary lists each value of the column exactly once, and no other value |
| `OneHotEncoding.DedupPrefix` | src/Transformers/OneHotEncoder.php:46-52 | reading more samples only appends categories to the dictionary already built |
| `OneHotEncoding.DedupFirstSeen` | src/Transformers/OneHotEncoder.php:46-52 | of two listed categories, the earlier one was always seen no later than the later one (first-seen order) |
| `OneHotEncoding.PosMapDomain` | src/Transformers/OneHotEncoder.php:49-50 | a category has a position exactly when it has been listed, which is the `isset` test of the scan |
| `OneHotEncoding.PosMapSpec` | src/Transformers/OneHotEncoder.php:49-50 | the i-th new category of a column gets the position base + i (`$position++`) |
| `OneHotEncoding.CategoricalColumnsSpec` | src/Transformers/OneHotEncoder.php:42-43 | the fitted columns are exactly the categorical ones, each once, in ascending order |
| `OneHotEncoding.EntrySpec` | src/Transformers/OneHotEncoder.php:44-52 | the dictionary built for one column belongs to that column, lists its distinct values in first-seen order, is consistent, and gives its i-th category the position base + i, where base is the shared counter's value on entry |
| `OneHotEncoding.FittedEntryAt` | src/Transformers/OneHotEncoder.php:40-55 | the idx-th fitted dictionary is the one built for a declared column, with the counter standing at the number of positions the earlier dictionaries handed out |
| `OneHotEncoding.FittedValid` | src/Transformers/OneHotEncoder.php:38-56 | every fitted dictionary is consistent and names a declared column |
| `OneHotEncoding.FittedColumns` | src/Transformers/OneHotEncoder.php:42-54 | the fitted dictionaries belong exactly to the categorical columns, in column order |
| `OneHotEncoding.FittedDistinct` | src/Transformers/OneHotEncoder.php:42-54 | no two fitted dictionaries belong to the same column |
| `OneHotEncoding.FittedShape` | src/Transformers/OneHotEncoder.php:38-56 | only categorical columns get a dictionary, in column order. Each dictionary holds its column's distinct values in first-seen order, and is consistent. Its positions are consecutive and start where the previous column's positions end |
| `OneHotEncoding.FittedPositions` | src/Transformers/OneHotEncoder.php:40-55 | over all columns, the positions handed out are exactly 0, 1, …, K-1, each once, where K is the total number of distinct categories |
| `OneHotEncoding.FittedWidth` | src/Transformers/OneHotEncoder.php:42-55 | there is one dictionary per categorical column, the fitted columns are distinct, and K positions are handed out |
| `OneHotEncoding.BlockIndicator` | src/Transformers/OneHotEncoder.php:76-84 | a block is as wide as its column's category count. Slot i is 1 exactly when the sample holds the i-th category and 0 otherwise. An unseen value gives all zeros without error, and no block holds two ones |
| `OneHotEncoding.BlockSlot` | src/Transformers/OneHotEncoder.php:80-84 | slot i of a column's block is 1 exactly when the sample's value is that column's i-th category |
| `OneHotEncoding.IndicatorBlock` | src/Transformers/OneHotEncoder.php:76-84 | building the zero-filled block and setting the category's position to 1, when the dictionary holds it, yields `Block(entry, category)` |
| `OneHotEncoding.Blocks` | src/Transformers/OneHotEncoder.php:75-86 | the concatenated blocks of a sample are K values long, whatever the batch |
| `OneHotEncoding.BlocksAt` | src/Transformers/OneHotEncoder.php:75-86 | blocks are laid out in fitted column order, and column idx's block starts at the total width of the columns before it |
| `OneHotEncoding.EncodePassthrough` | src/Transformers/OneHotEncoder.php:86-91 | a transformed sample has (n − #categorical) + K values. It begins with the values of the non-categorical columns: all of them, each once, in their original order |
| `OneHotEncoding.EncodeBlocks` | src/Transformers/OneHotEncoder.php:86-91 | after those values, slot i of column idx's block sits at (n − #categorical) + Width(entries[..idx]) + i |
| `OneHotEncoding.EncodeSlot` | src/Transformers/OneHotEncoder.php:76-91 | when a dictionary's positions continue the counter, the slot of a category's position after the passthrough values is 1 exactly when the sample holds that category |
| `OneHotEncoding.OneHotAt` | src/Transformers/OneHotEncoder.php:50-83 | the position `fit` gives a category is, after the passthrough values, the slot of every transformed sample that is 1 exactly when the sample holds that category |
| `OneHotEncoding.EncodeSample` | src/Transformers/OneHotEncoder.php:73-91 | the per-sample loop (build each block, unset the column, append the blocks) computes `Encode(entries, sample)` |
| `OneHotEncoding.OneHotEncoder.Transform` | src/Transformers/OneHotEncoder.php:66-93 | when not fitted it returns `Fail(NotFitted)` and leaves the batch as it was. Otherwise it returns `Pass`, the batch keeps its length, and every sample k becomes `Encode(categories, old sample k)` |
| `Common.KeptIndicesSpec` | src/Transformers/VarianceThresholdFilter.php:100 | the kept column numbers of a sample are exactly its columns that are in the kept set, in ascending order, one per retained column |
| `Common.KeepColumnsAt` | src/Transformers/VarianceThresholdFilter.php:100 | after projection and renumbering, position i holds the value of the i-th kept column: nothing else, nothing reordered |
| `Common.KeepColumnsLength` | src/Transformers/VarianceThresholdFilter.php:100 | the projected sample is as long as the number of kept columns the sample actually has |
| `Common.DropColumnsLength` | src/Transformers/OneHotEncoder.php:88-91 | unsetting a set of existing columns and renumbering shortens a sample by exactly the size of that set |
| `VarianceThreshold.VarianceThresholdFilter.Create` | src/Transformers/VarianceThresholdFilter.php:43-51 | a negative threshold fails with `InvalidArgument`. Any threshold ≥ 0, including 0, gives a fresh, unfitted filter with that threshold |
| `VarianceThreshold.VarianceThresholdFilter.Selected` | src/Transformers/VarianceThresholdFilter.php:56-59 | before `fit` this is the empty list, not a failure. After `fit` it is the selected columns in the order fit recorded them |
| `VarianceThreshold.VarianceThresholdFilter.Fit` | src/Transformers/VarianceThresholdFilter.php:67-84 | the selection becomes `Some(Selection(samples, types, threshold))`, built from an empty list whatever it held before |
| `VarianceThreshold.SelectionSpec` | src/Transformers/VarianceThresholdFilter.php:71-83 | a column is selected if and only if it is not continuous or its population variance is strictly greater than the threshold; the selection is in ascending column order |
| `VarianceThreshold.VarianceAtThresholdDropped` | src/Transformers/VarianceThresholdFilter.php:77-79 | a continuous column whose variance equals the threshold is dropped |
| `VarianceThreshold.ConstantColumnDropped` | src/Transformers/VarianceThresholdFilter.php:72-79 | with threshold 0, a continuous column holding one value throughout is dropped |
| `VarianceThreshold.VariancePositive` | src/Transformers/VarianceThresholdFilter.php:75-77 | values that are not all equal have a strictly positive population variance |
| `VarianceThreshold.VaryingColumnKept` | src/Transformers/VarianceThresholdFilter.php:72-79 | with threshold 0, a continuous column holding two different values is kept |
| `VarianceThreshold.ZeroThresholdSelection` | src/Transformers/VarianceThresholdFilter.php:72-79 | with threshold 0, a continuous column is kept if and only if two of its values differ: every varying column stays and every constant one goes |
| `VarianceThreshold.VarianceNonNegative` | src/Transformers/VarianceThresholdFilter.php:75 | the population variance of a column is never negative |
| `VarianceThreshold.ConstantVariance` | src/Transformers/VarianceThresholdFilter.php:75 | a column holding one value throughout has variance 0 |
| `VarianceThreshold.VarianceExample` | src/Transformers/VarianceThresholdFilter.php:75 | the column 1, 2, 3, 4 has population variance 1.25 (division by N) |
| `VarianceThreshold.ThresholdEqualExample` | src/Transformers/VarianceThresholdFilter.php:77 | the column 1, 2, 3, 4 has variance exactly 1.25 and is not selected at threshold 1.25 |
| `VarianceThreshold.VarianceThresholdFilter.Transform` | src/Transformers/VarianceThresholdFilter.php:93-102 | when not fitted it returns `Fail(NotFitted)` and leaves the batch as it was. Otherwise every sample becomes its projection onto the selected columns, renumbered from 0 |
| `PolynomialExpansion.PolynomialExpander.Create` | src/Transformers/PolynomialExpander.php:34-42 | a degree below 1 fails with `InvalidArgument`. Any degree ≥ 1 gives a fresh expander of that degree |
| `PolynomialExpansion.Powers` | src/Transformers/PolynomialExpander.php:58-60 | the inner loop's output for one column is d values long, and its (j−1)-th value is x^j: ascending powers |
| `PolynomialExpansion.ExpandLength` | src/Transformers/PolynomialExpander.php:57-61 | an expanded sample has columns × degree values |
| `PolynomialExpansion.ExpandAt` | src/Transformers/PolynomialExpander.php:57-61 | output slot i·d + (j−1) holds sample[i]^j, for 0 ≤ i < columns and 1 ≤ j ≤ d |
| `PolynomialExpansion.ExpandLocal` | src/Transformers/PolynomialExpander.php:54-63 | given the column count, which `transform` takes from the first sample, a sample's expansion depends only on its own first `columns` values and the degree |
| `PolynomialExpansion.DegreeOnePrefix` | src/Transformers/PolynomialExpander.php:57-61 | with degree 1, expanding the first `columns` columns gives exactly those columns back |
| `PolynomialExpansion.DegreeOneIdentity` | src/Transformers/PolynomialExpander.php:57-61 | with degree 1 a sample comes back unchanged |
| `PolynomialExpansion.DegreeTwoExample` | src/Transformers/PolynomialExpander.php:57-61 | with degree 2, [2, 3] becomes [2, 4, 3, 9] |
| `PolynomialExpansion.PolynomialExpander.ExpandSample` | src/Transformers/PolynomialExpander.php:55-63 | the nested power loops compute `Expand(sample, columns, degree)` |
| `PolynomialExpansion.PolynomialExpander.Transform` | src/Transformers/PolynomialExpander.php:50-65 | every sample k of the batch is replaced by `Expand(old sample k, first sample's column count, degree)`. The batch keeps its length, and an empty batch is left alone |

## Left out

- The Hamming distance kernel: only its test (tests/Kernels/Distance/HammingTest.php) is available, not its implementation, and its result is a floating-point ratio.
- The dataset collaborator (`types()`, `column()`, iteration) is not part of this model. A dataset is given as its samples plus one type tag per column, and only the tags categorical and continuous are modelled.
- `Stats::meanVar` is not part of this model. The variance is the exact population variance over reals, not the floating-point result.
- Floating-point arithmetic: `**` in the expander and the variance computation use exact reals, so PHP's int-to-float conversion on overflow and rounding are not modelled.
- PHP array-key coercion: numeric-string keys, float keys cut to ints, `null` keys and `isset` on `null` are not modelled. Categories are `Value`s compared by equality, so `Num(1.0)` and `Cat("1")` are distinct categories.
- Malformed input is a precondition, not a failure path, which leaves out the notices and `null` arithmetic PHP would produce. This covers a sample missing a fitted or declared column (`HasColumns`, `Fits`) and a batch row shorter than the first sample.
- Continuous columns are required to hold numbers. Fitting the filter on an empty dataset that declares a continuous column is excluded, because the behaviour of `Stats::meanVar` on an empty column is not available.
- The expander's `count(reset($samples))` on an empty batch: the model follows PHP 7, where `reset([])` is `false`, `count(false)` is 1 (with a warning from PHP 7.2 on) and the loop then does nothing, so the model returns at once with the batch unchanged. PHP 8 throws a `TypeError` there instead, which is not modelled.
- Exception classes and messages are reduced to the two error kinds `InvalidArgument` and `NotFitted`. The constructors' default arguments (degree 2, threshold 0) are not modelled.
- Aliasing through PHP references is modelled only as an in-place update of the batch array.

## Findings

| source | as written | input that shows it | evidently intended | confidence | as-written member | corrected member |
|---|---|---|---|---|---|---|
| src/Transformers/VarianceThresholdFilter.php:14-15 | The class and property docblocks (lines 14-15 and 25) say that columns with a variance lower than the threshold are removed, and that the threshold is the minimum variance a selected column must have. The test at line 77 keeps a column only when its variance is strictly greater. | A continuous column 1, 2, 3, 4 has variance 1.25. At threshold 1.25 it is dropped, although its variance is not lower than the threshold. | The strict test of the code: a column whose variance is at most the threshold is removed. Under the documented reading the default threshold 0 would keep every constant column. | not executed; the code and the documentation plainly disagree | `VarianceThreshold.ThresholdEqualExample` | `VarianceThreshold.ZeroThresholdSelection` |
