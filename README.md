# molcraft dataset splitter, modelled in Dafny

This project models the group-aware dataset splitter in `molcraft/datasets.py`.

- `split` cuts a dataset into train and test sets, or into train, validation and test sets.
- `cv_split` cuts a dataset into cross-validation folds.

Both functions cut along groups: all rows that share a group label go to the same subset. Both work in the same way:

1. `_prepare_data` normalises the grouping key.
   - With no key, each row is its own group.
   - Labels that are not Python `int`s are renumbered 0, 1, 2, … in the order they first occur.
2. The distinct groups are listed in first-occurrence order.
3. The sizes are resolved (`split`), or the groups are cut into chunks with `np.array_split` (`cv_split`).
4. Rows are selected with `np.isin` masks.

Files:

- `numpy_ops.dfy` (module `NumpyOps`) models the NumPy and Python operations the splitter relies on:
  - `np.arange`, `np.isin` and `~mask`;
  - boolean indexing `data[mask]`;
  - list slicing with negative bounds;
  - `np.array_split`.
- `groups.dfy` (module `Groups`) models the list of distinct groups in first-occurrence order (`unique_groups`). It also models the relabelling done by `dict.fromkeys` and the dict comprehension.
- `datasets.dfy` (module `Datasets`) models the splitter itself:
  - the data model, with Python exceptions as a `Result`;
  - `_prepare_data`;
  - size resolution;
  - `split`;
  - `cv_split`. Its generator loop is a method whose loop builds the sequence of folds.

Behaviour of the code that the model keeps as written:

- A size is "unset" when it is falsy. So `None`, `0` and `0.0` all count as unset in the check at line 42. By lines 68 and 70 every fraction has become an integer, so there "unset" means a count of 0 (`AsCount`).
- A `0.0` fraction passes line 42 only when the other of train and test is truthy. It then goes through the float branch, truncates to 0 and is rejected with its own too-small error, unless a conversion before it already failed.
- Only a negative remainder is rejected. A train or test size that is filled in from the others can be negative, and the splitter goes on with it (`OversizedTestIsNotRejected`).
- When the test size resolves to 0, `unique_groups[-0:]` is the whole list. So every row becomes a test row (`ZeroTestSizeTestsWholeDataset`, `TrainTakingAllGroupsLeavesZeroTest`).
- When `groups` is not given, `np.arange` yields NumPy integers, which are not Python `int`s. So they go through relabelling, which is proved to give back `0 … n-1` (`RelabelDistinct`).
- The model checks the mask length against the number of rows after size resolution, because `data[mask]` raises only there. This check matters only when a separate label array of a different length is passed.

## Model

| member | source | states |
|---|---|---|
| `NumpyOps.Range` | molcraft/datasets.py:153 | `np.arange(n)`: n labels, label i being i |
| `NumpyOps.Not` | molcraft/datasets.py:128 | `~mask`: same length, every entry flipped |
| `NumpyOps.IsIn` | molcraft/datasets.py:80-84 | `np.isin`: a row's mask entry is true exactly when its group occurs in the given slice of groups |
| `NumpyOps.Masked` | molcraft/datasets.py:82-85 | `data[mask]`: row k of the subset is the row at the k-th true mask position. Those positions are strictly increasing, so rows keep their original order |
| `NumpyOps.MaskedComplement` | molcraft/datasets.py:127-129 | `data[mask]` and `data[~mask]` together hold every row exactly once (their multisets add up to the data's) |
| `NumpyOps.MaskedThreeWay` | molcraft/datasets.py:80-85 | three masks that select every row exactly once split the rows into three subsets whose multisets add up to the data's |
| `NumpyOps.MaskedAllTrue` | molcraft/datasets.py:81-83 | a mask selecting every row returns the whole dataset, in order |
| `NumpyOps.MaskedAllFalse` | molcraft/datasets.py:82-84 | a mask selecting no row returns nothing |
| `NumpyOps.Slice` | molcraft/datasets.py:80-84 | Python `s[lo:hi]`: negative bounds count from the end and are clipped; crossing bounds give the empty list |
| `NumpyOps.ArraySplit` | molcraft/datasets.py:123 | `np.array_split(s, n)` gives exactly n chunks. The first `len % n` chunks hold `len / n + 1` items and the others `len / n` |
| `NumpyOps.ArraySplitConcat` | molcraft/datasets.py:123 | the chunks, concatenated in order, give back the list of distinct groups |
| `NumpyOps.SectionsTile` | molcraft/datasets.py:123 | chunk start positions never decrease, and the last chunk ends at the list's length |
| `NumpyOps.SectionOf` | molcraft/datasets.py:123 | every position of the group list lies inside some chunk |
| `NumpyOps.SectionOfUnique` | molcraft/datasets.py:123 | a position lies in chunk k exactly when k is its `SectionOf`, so chunks do not overlap |
| `Groups.FirstOccurrences` | molcraft/datasets.py:38 | `sorted(np.unique(g, return_index=True)[1])`: exactly the positions holding the first occurrence of their label, in strictly increasing order |
| `Groups.Unique` | molcraft/datasets.py:38-39 | `unique_groups` has no duplicates and holds only labels that occur. Entry k is the label at the k-th first-occurrence position |
| `Groups.UniqueListsEachGroupOnce` | molcraft/datasets.py:38-39 | every label that occurs is in `unique_groups`, ordered strictly by the index of its first occurrence |
| `Groups.LabelIndex` | molcraft/datasets.py:156 | `to_int` has every label as a key and maps it to that label's position among the distinct labels in first-occurrence order |
| `Groups.Relabel` | molcraft/datasets.py:157 | every label becomes a number in `[0, #distinct)`. Two rows get the same number iff they had the same label |
| `Groups.RelabelNumbersInFirstOccurrenceOrder` | molcraft/datasets.py:155-157 | after relabelling, the distinct groups in first-occurrence order are exactly 0, 1, 2, … |
| `Groups.RelabelPreservesFirstOccurrenceOrder` | molcraft/datasets.py:155-157 | one row's new number is smaller than another's iff its label first occurs earlier |
| `Groups.RelabelDistinct` | molcraft/datasets.py:152-157 | labels that are already distinct, such as `np.arange(n)`, are relabelled to `0 … n-1`, unchanged |
| `Datasets.PrepareData` | molcraft/datasets.py:137-159 | an unsupported container is rejected. An empty label array fails at `groups[0]`. Every other input succeeds. No key gives one group per row. Python-int labels are kept. Other labels are renumbered, keeping same-label pairs and first-occurrence order |
| `Datasets.Falsy` | molcraft/datasets.py:42 | `not size` for `None`, `0` and `0.0`. Once the line-42 check passes and the conversions before it succeed, a `0.0` is converted as a fraction and rejected with its own too-small error |
| `Datasets.Trunc` | molcraft/datasets.py:48 | `int(x)` truncates toward zero: the result lies within 1 of x, on x's side of 0 |
| `Datasets.FromFraction` | molcraft/datasets.py:47-64 | a fractional size becomes `int(size * f)` and is rejected with that size's error iff this is below 1. Non-fractional sizes pass through unchanged |
| `Datasets.AsCount` | molcraft/datasets.py:47-70 | the number of groups a size stands for: `int(size * f)` for a fraction. For `None` and integers it is 0 exactly when the size is falsy, which is what `not train_size` / `not test_size` test at lines 68 and 70 |
| `Datasets.ResolveSizes` | molcraft/datasets.py:42-78 | each error is raised exactly when its condition holds and the earlier checks passed: both unset, then a fraction below one group for test, train and validation in that order, then train + validation + test above the group count (only when both train and test are given). On success the three sizes add up to the group count, validation is its count (0 when unset), a given test size is kept, a given train size is kept when test is unset and otherwise grows by the leftover |
| `Datasets.ResolveFractionsAsCounts` | molcraft/datasets.py:47-78 | once all three sizes convert, fractional sizes resolve exactly like the counts `int(size * f)` they became |
| `Datasets.ResolveBothGiven` | molcraft/datasets.py:68-78 | train and test both given: rejected iff train + validation + test exceeds the group count. Otherwise test and validation are kept and train absorbs the remainder |
| `Datasets.ResolveTrainOnly` | molcraft/datasets.py:68-78 | only train given: test becomes what train and validation leave, even if that is negative |
| `Datasets.ResolveTestOnly` | molcraft/datasets.py:68-78 | only test given: train becomes what test and validation leave, even if that is negative |
| `Datasets.ResolveFractionTooSmall` | molcraft/datasets.py:47-52 | once train or test is set, a fractional test size that truncates below 1 raises the test-size error, whatever the train and validation sizes are |
| `Datasets.TrainGroups` | molcraft/datasets.py:80 | `unique_groups[:train_size]`: the first `train` groups, all of them when train exceeds the group count, all but the last `-train` when train is negative |
| `Datasets.ValidationGroups` | molcraft/datasets.py:84 | `unique_groups[train_size:-test_size]`: the groups between the first `train` and the last `test`, empty when they overlap, and always empty when test is 0 (`[train:-0]`) |
| `Datasets.TestGroups` | molcraft/datasets.py:81 | `unique_groups[-test_size:]`: the last `test` groups, and the whole list when test is 0 (`[-0:]`) or exceeds the group count |
| `Datasets.SplitMasks` | molcraft/datasets.py:80-84 | the three group masks have one entry per row, and rows of the same group always get the same mask values |
| `Datasets.SlicesCutUniqueGroups` | molcraft/datasets.py:80-84 | with non-negative sizes, a positive test size and a sum equal to the group count, train is the first `train` groups, validation the next `validation` groups and test the last `test` groups |
| `Datasets.GroupRank` | molcraft/datasets.py:39 | the position of a row's group in `unique_groups`: below the group count, and that entry is the row's label |
| `Datasets.SplitMasksAssignEachRowOnce` | molcraft/datasets.py:80-84 | under those sizes a row is a train row iff its group's position in `unique_groups` is below `train`, a validation row iff the position is in `[train, train + validation)`, and a test row iff it is at or above `train + validation`. So each row is selected by exactly one mask, and validation selects nothing when its size is 0 |
| `Datasets.ZeroTestSizeSelectsEveryRow` | molcraft/datasets.py:81-84 | a test size of 0 selects every row for test, and validation (`[train:-0]`) selects none, whatever the train size |
| `Datasets.ZeroTestSizeTestsWholeDataset` | molcraft/datasets.py:81-85 | with a test size of 0 the returned test set is the entire dataset in its original order |
| `Datasets.TrainTakingAllGroupsLeavesZeroTest` | molcraft/datasets.py:65-78 | giving train all groups (as a count or as 1.0) resolves test to 0 without an error |
| `Datasets.OversizedTestIsNotRejected` | molcraft/datasets.py:68-81 | a test size above the group count with train unset is accepted. Train becomes negative, test takes every group, and train drops groups from the end |
| `Datasets.SelectSubsets` | molcraft/datasets.py:80-85 | the result is a pair iff validation is 0, otherwise a triple; every subset keeps the container kind |
| `Datasets.SplitGrouped` | molcraft/datasets.py:38-85 | fails with "both unset" iff both sizes are falsy. When size resolution fails, its error (too small test, train or validation, or sizes exceeding the data) is returned unchanged. Fails with a mask mismatch iff the sizes resolve but the labels and rows differ in number. Succeeds iff the sizes resolve and the numbers agree, returning the subsets for the resolved sizes |
| `Datasets.Split` | molcraft/datasets.py:7-85 | errors of `_prepare_data` come first. With prepared groups, the result (subsets or error) is exactly that of splitting on the prepared labels, so "both unset" is raised iff both sizes are falsy. A successful split comes from a supported, non-empty dataset |
| `Datasets.SplitPartitionsRows` | molcraft/datasets.py:80-85 | with non-negative sizes and a positive test size, the returned subsets hold every row of the data exactly once (multisets add up), whether two or three subsets are returned |
| `Datasets.FoldFor` | molcraft/datasets.py:126-129 | a fold's train and test sets are complementary: together they hold every row exactly once, in the data's container kind |
| `Datasets.TestFoldOf` | molcraft/datasets.py:123-127 | the index of the fold whose test chunk holds a row's group is below the number of folds |
| `Datasets.EachRowTestedOnce` | molcraft/datasets.py:123-129 | across the folds, each row is a test row in exactly one fold (the one holding its group) and a train row in every other fold |
| `Datasets.YieldFolds` | molcraft/datasets.py:125-129 | the loop produces one fold per chunk, in order. Fold k has chunk k's rows as test and the other rows as train |
| `Datasets.CvSplit` | molcraft/datasets.py:87-129 | `_prepare_data` errors come first. Then too many splits (more than the groups), no split, and a mask length mismatch are rejected. Otherwise exactly `num_splits` folds are returned, fold k built from chunk k of `np.array_split(unique_groups, num_splits)` |

## Left out

- Shuffling (molcraft/datasets.py:141-148, `shuffle` and `random_seed`): this is randomness and in-place library calls. The model describes the unshuffled path, or equally a dataset already given in shuffled order. When shuffling is on, `data` is reordered but a separately passed `groups` array is not; the model does not capture that.
- Column lookup (molcraft/datasets.py:150-151): `groups` given as a column name is modelled by passing that column's values as the label array.
- Datasets.PrepareData: only the type of the first label decides whether labels are relabelled. The model assumes every label has the same type as the first, so mixed-type label arrays are not modelled.
- Floating-point arithmetic is left out. `int(size * fraction)` is computed on exact reals, so rounding of the float product is not modelled.
- NaN labels, which are unequal to themselves, and NumPy dtype coercion of label arrays are not modelled.
- Container details are reduced to the kind (`DataFrame`, `ndarray` or other) and the ordered rows. DataFrame index labels, columns and dtypes are left out.
- Datasets.CvSplit: the default `num_splits=10` (molcraft/datasets.py:89) is not modelled. The number of folds is always passed explicitly.
- Datasets.CvSplit: `cv_split` is a lazy generator, so its errors surface on the first `next()`. The model returns either all the folds or the error.
- molcraft/saliency.py, molcraft/descriptors.py and molcraft/__init__.py are not part of this model. They are gradient-based attribution over TensorFlow, RDKit descriptor wrappers and package configuration.
