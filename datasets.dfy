/**
  The group-aware dataset splitter: `split` cuts the distinct groups of a
  dataset into train, validation and test sets, and `cv_split` cuts them into
  cross-validation folds. Both first normalise the grouping key
  (`_prepare_data`) and list the distinct groups in first-occurrence order.
 */
module Datasets {
  import opened NumpyOps
  import opened Groups

  /** The container the rows come in; anything but a DataFrame or an ndarray is rejected. */
  datatype Kind = DataFrame | NdArray | Unsupported

  /** A dataset: its container kind and its rows, in order. */
  datatype Dataset<T> = Dataset(kind: Kind, rows: seq<T>)

  /**
    The `groups` argument: absent, an array whose first element is a Python
    `int` (kept as it is), or an array of any other labels (strings, NumPy
    scalars, ...), which gets relabelled.
   */
  datatype GroupsArg<K> = NoGroups | IntLabels(ints: seq<int>) | OtherLabels(keys: seq<K>)

  /** A size argument: `None`, a Python `int`, or a Python `float` (a fraction of the groups). */
  datatype SizeArg = Unset | Count(n: int) | Fraction(f: real)

  /** Resolved sizes, in number of groups. */
  datatype Sizes = Sizes(train: int, validation: int, test: int)

  /** The exceptions the splitter raises. */
  datatype SplitError =
    | UnsupportedData         // `data` is neither a DataFrame nor an ndarray
    | NoRows                  // `groups[0]` on an empty label array
    | BothSizesUnset          // neither `train_size` nor `test_size` given
    | TestSizeTooSmall        // a fractional size truncated below 1 ...
    | TrainSizeTooSmall
    | ValidationSizeTooSmall
    | SizesExceedData         // the sizes add up to more than the number of groups
    | TooManySplits           // more folds than groups
    | NonPositiveSplits       // `np.array_split` with no section
    | MaskLengthMismatch      // a group mask whose length is not the number of rows

  datatype Result<+R> = Ok(value: R) | Err(error: SplitError) {
    predicate IsFailure() { Err? }
    function PropagateFailure<U>(): Result<U> requires Err? { Err(error) }
    function Extract(): R requires Ok? { value }
  }

  /** The two or three subsets `split` returns. */
  datatype Subsets<T> =
    | TrainTest(train: Dataset<T>, test: Dataset<T>)
    | TrainValidationTest(train: Dataset<T>, validation: Dataset<T>, test: Dataset<T>)

  /** One cross-validation fold. */
  datatype Fold<T> = Fold(train: Dataset<T>, test: Dataset<T>)

  // ---------------------------------------------------------------------
  // _prepare_data

  /** How many labels the grouping key has. */
  function LabelCount<T, K>(data: Dataset<T>, groups: GroupsArg<K>): nat {
    match groups
    case NoGroups => |data.rows|
    case IntLabels(ints) => |ints|
    case OtherLabels(keys) => |keys|
  }

  /**
    `_prepare_data` (without shuffling): checks the container, defaults the
    groups to one group per row (`np.arange`, whose elements are NumPy
    integers and so get relabelled), and relabels labels that are not Python
    ints to 0, 1, 2, ... in first-occurrence order.
   */
  function PrepareData<T, K(==)>(data: Dataset<T>, groups: GroupsArg<K>): (r: Result<seq<int>>)
    ensures r == Err(UnsupportedData) <==> data.kind == Unsupported
    ensures r == Err(NoRows) <==> data.kind != Unsupported && LabelCount(data, groups) == 0
    ensures r.Ok? <==> data.kind != Unsupported && LabelCount(data, groups) > 0
    ensures r.Ok? ==> |r.value| == LabelCount(data, groups) > 0
    ensures r.Ok? && groups.NoGroups? ==> r.value == Range(|data.rows|)
    ensures r.Ok? && groups.IntLabels? ==> r.value == groups.ints
    ensures r.Ok? && groups.OtherLabels? ==>
      && (forall i, j :: 0 <= i < |r.value| && 0 <= j < |r.value| ==>
            (r.value[i] == r.value[j] <==> groups.keys[i] == groups.keys[j]))
      && Unique(r.value) == Range(|Unique(groups.keys)|)
  {
    if data.kind == Unsupported then Err(UnsupportedData)
    else
      match groups
      case NoGroups =>
        var labels := Range(|data.rows|);
        if |labels| == 0 then Err(NoRows)
        else
          RelabelDistinct(labels);
          Ok(Relabel(labels))
      case IntLabels(ints) =>
        if |ints| == 0 then Err(NoRows) else Ok(ints)
      case OtherLabels(keys) =>
        if |keys| == 0 then Err(NoRows)
        else
          RelabelNumbersInFirstOccurrenceOrder(keys);
          Ok(Relabel(keys))
  }

  // ---------------------------------------------------------------------
  // Size resolution in split

  /**
    Python truthiness of a size argument: `None`, `0` and `0.0` are false.
    A falsy `0.0` still counts as a fraction, and no number of groups makes
    it a valid one.
   */
  predicate Falsy(s: SizeArg)
    ensures Falsy(s) && s.Fraction? ==> forall size: nat, e: SplitError :: FromFraction(size, s, e) == Err(e)
  {
    s.Unset? || s == Count(0) || s == Fraction(0.0)
  }

  /** `int(x)`: truncation toward zero. */
  function Trunc(x: real): (n: int)
    ensures 0.0 <= x ==> n as real <= x < n as real + 1.0
    ensures x < 0.0 ==> n as real - 1.0 < x <= n as real
  {
    if x >= 0.0 then x.Floor else -((-x).Floor)
  }

  /** A fractional size turned into a number of groups, `int(size * fraction)`, which must be at least 1. */
  function FromFraction(size: nat, s: SizeArg, tooSmall: SplitError): (r: Result<SizeArg>)
    ensures s.Fraction? ==> (r.Ok? <==> Trunc(size as real * s.f) >= 1)
    ensures s.Fraction? && r.Ok? ==> r.value == Count(Trunc(size as real * s.f))
    ensures !s.Fraction? ==> r == Ok(s)
    ensures r.Err? ==> r.error == tooSmall
  {
    if s.Fraction? then
      var n := Trunc(size as real * s.f);
      if n < 1 then Err(tooSmall) else Ok(Count(n))
    else Ok(s)
  }

  /**
    The number of groups a size argument stands for when there are `size`
    groups: `int(size * f)` for a fraction, the integer for a count, and 0
    for `None`. For `None` and integers, being falsy is exactly standing for
    0 groups, so `not train_size` at lines 68 and 70 is a test for 0.
   */
  function AsCount(size: nat, s: SizeArg): (c: int)
    ensures !s.Fraction? ==> (c == 0 <==> Falsy(s))
    ensures s.Fraction? ==> c == Trunc(size as real * s.f)
  {
    match s
    case Unset => 0
    case Count(n) => n
    case Fraction(f) => Trunc(size as real * f)
  }

  /** A fractional size that `int(size * f)` turns into fewer than one group. */
  predicate TooSmall(size: nat, s: SizeArg) {
    s.Fraction? && AsCount(size, s) < 1
  }

  /**
    Resolves the three sizes against `size` distinct groups: fractions become
    counts (test first, then train, then validation), a missing train or test
    size is what the other two leave, and any leftover goes to train.
   */
  function ResolveSizes(size: nat, train: SizeArg, validation: SizeArg, test: SizeArg): (r: Result<Sizes>)
    ensures r.Err? ==>
      r.error in {BothSizesUnset, TestSizeTooSmall, TrainSizeTooSmall, ValidationSizeTooSmall, SizesExceedData}
    ensures r == Err(BothSizesUnset) <==> Falsy(train) && Falsy(test)
    ensures r == Err(TestSizeTooSmall) <==> !(Falsy(train) && Falsy(test)) && TooSmall(size, test)
    ensures r == Err(TrainSizeTooSmall) <==>
      !(Falsy(train) && Falsy(test)) && !TooSmall(size, test) && TooSmall(size, train)
    ensures r == Err(ValidationSizeTooSmall) <==>
      && !(Falsy(train) && Falsy(test))
      && !TooSmall(size, test) && !TooSmall(size, train) && TooSmall(size, validation)
    ensures r == Err(SizesExceedData) <==>
      && !TooSmall(size, test) && !TooSmall(size, train) && !TooSmall(size, validation)
      && AsCount(size, train) != 0 && AsCount(size, test) != 0
      && AsCount(size, train) + AsCount(size, validation) + AsCount(size, test) > size
    ensures r.Ok? ==> r.value.train + r.value.validation + r.value.test == size
    ensures r.Ok? ==> r.value.validation == AsCount(size, validation)
    ensures r.Ok? && AsCount(size, test) != 0 ==> r.value.test == AsCount(size, test)
    ensures r.Ok? && AsCount(size, train) != 0 ==> r.value.train >= AsCount(size, train)
    ensures r.Ok? && AsCount(size, test) == 0 ==> r.value.train == AsCount(size, train)
  {
    if Falsy(train) && Falsy(test) then Err(BothSizesUnset)
    else
      var test1 :- FromFraction(size, test, TestSizeTooSmall);
      var train1 :- FromFraction(size, train, TrainSizeTooSmall);
      var validation1 :- FromFraction(size, validation, ValidationSizeTooSmall);
      var v := AsCount(size, validation1);
      var tr := if AsCount(size, train1) == 0 then size - AsCount(size, test1) - v else AsCount(size, train1);
      var te := if AsCount(size, test1) == 0 then size - tr - v else AsCount(size, test1);
      var remainder := size - (tr + v + te);
      if remainder < 0 then Err(SizesExceedData)
      else Ok(Sizes(tr + remainder, v, te))
  }

  /**
    Both train and test given as non-zero counts: rejected exactly when the
    three sizes exceed the number of groups; otherwise test and validation are
    kept and train takes the rest.
   */
  lemma ResolveBothGiven(size: nat, a: int, validation: SizeArg, c: int)
    requires a != 0 && c != 0 && !validation.Fraction?
    ensures var v := AsCount(size, validation);
      ResolveSizes(size, Count(a), validation, Count(c)) ==
        if a + v + c > size then Err(SizesExceedData) else Ok(Sizes(size - v - c, v, c))
  {
  }

  /**
    Only train given: test becomes what train and validation leave, with no
    check that it is non-negative.
   */
  lemma ResolveTrainOnly(size: nat, a: int, validation: SizeArg, test: SizeArg)
    requires a != 0 && !validation.Fraction? && (test.Unset? || test == Count(0))
    ensures var v := AsCount(size, validation);
      ResolveSizes(size, Count(a), validation, test) == Ok(Sizes(a, v, size - a - v))
  {
  }

  /**
    Only test given: train becomes what test and validation leave, with no
    check that it is non-negative.
   */
  lemma ResolveTestOnly(size: nat, train: SizeArg, validation: SizeArg, c: int)
    requires c != 0 && !validation.Fraction? && (train.Unset? || train == Count(0))
    ensures var v := AsCount(size, validation);
      ResolveSizes(size, train, validation, Count(c)) == Ok(Sizes(size - c - v, v, c))
  {
  }

  /**
    Fractions only enter through their conversion: once every size converts,
    the sizes resolve as the counts they became would.
   */
  lemma ResolveFractionsAsCounts(size: nat, train: SizeArg, validation: SizeArg, test: SizeArg)
    requires FromFraction(size, train, TrainSizeTooSmall).Ok?
    requires FromFraction(size, validation, ValidationSizeTooSmall).Ok?
    requires FromFraction(size, test, TestSizeTooSmall).Ok?
    ensures ResolveSizes(size, train, validation, test) ==
      ResolveSizes(size, FromFraction(size, train, TrainSizeTooSmall).value,
        FromFraction(size, validation, ValidationSizeTooSmall).value,
        FromFraction(size, test, TestSizeTooSmall).value)
  {
  }

  /** A fractional size that truncates below one group is rejected, test before train before validation. */
  lemma ResolveFractionTooSmall(size: nat, train: SizeArg, validation: SizeArg, test: SizeArg)
    requires !(Falsy(train) && Falsy(test))
    requires test.Fraction? && Trunc(size as real * test.f) < 1
    ensures ResolveSizes(size, train, validation, test) == Err(TestSizeTooSmall)
  {
  }

  // ---------------------------------------------------------------------
  // Group selection in split

  /** `unique_groups[:train_size]` */
  function TrainGroups(u: seq<int>, s: Sizes): (r: seq<int>)
    ensures 0 <= s.train <= |u| ==> r == u[..s.train]
    ensures s.train > |u| ==> r == u
    ensures -(|u| as int) <= s.train < 0 ==> r == u[..|u| + s.train]
    ensures s.train < -(|u| as int) ==> r == []
  {
    Slice(u, 0, s.train)
  }

  /** `unique_groups[train_size:-test_size]` */
  function ValidationGroups(u: seq<int>, s: Sizes): (r: seq<int>)
    ensures 0 <= s.train && 0 < s.test && s.train + s.test <= |u| ==> r == u[s.train..|u| - s.test]
    ensures 0 <= s.train && 0 < s.test && s.train + s.test > |u| ==> r == []
    ensures s.test == 0 ==> r == []
  {
    Slice(u, s.train, -s.test)
  }

  /** `unique_groups[-test_size:]` */
  function TestGroups(u: seq<int>, s: Sizes): (r: seq<int>)
    ensures 0 < s.test <= |u| ==> r == u[|u| - s.test..]
    ensures s.test == 0 || s.test > |u| ==> r == u
    ensures -(|u| as int) <= s.test < 0 ==> r == u[-s.test..]
    ensures s.test < -(|u| as int) ==> r == []
  {
    Slice(u, -s.test, |u|)
  }

  /** The row masks of the three subsets. */
  datatype Masks = Masks(train: seq<bool>, validation: seq<bool>, test: seq<bool>)

  /**
    `np.isin(groups, ...)` against each slice of the distinct groups: a row is
    selected when its group is in the slice, so rows of one group are always
    selected together.
   */
  function SplitMasks(g: seq<int>, s: Sizes): (m: Masks)
    ensures |m.train| == |g| && |m.validation| == |g| && |m.test| == |g|
    ensures forall i, j :: 0 <= i < |g| && 0 <= j < |g| && g[i] == g[j] ==>
      m.train[i] == m.train[j] && m.validation[i] == m.validation[j] && m.test[i] == m.test[j]
  {
    var u := Unique(g);
    Masks(IsIn(g, TrainGroups(u, s)), IsIn(g, ValidationGroups(u, s)), IsIn(g, TestGroups(u, s)))
  }

  /**
    With non-negative sizes that add up to the number of groups and a
    positive test size, the slices are consecutive pieces of the distinct
    groups: the first `train`, the next `validation`, the last `test`.
   */
  lemma SlicesCutUniqueGroups(u: seq<int>, s: Sizes)
    requires 0 <= s.train && 0 <= s.validation && 0 < s.test
    requires s.train + s.validation + s.test == |u|
    ensures TrainGroups(u, s) == u[..s.train]
    ensures ValidationGroups(u, s) == u[s.train..s.train + s.validation]
    ensures TestGroups(u, s) == u[s.train + s.validation..]
  {
  }

  /** The position of row `i`'s group among the distinct groups in first-occurrence order. */
  function GroupRank(g: seq<int>, i: nat): (p: nat)
    requires i < |g|
    ensures p < |Unique(g)| && Unique(g)[p] == g[i]
  {
    UniqueListsEachGroupOnce(g);
    PositionIn(Unique(g), g[i])
  }

  /**
    With such sizes row `i` goes to train when its group is among the first
    `train` groups, to validation when it is among the next `validation`, and
    to test otherwise: every row lands in exactly one subset.
   */
  lemma SplitMasksAssignEachRowOnce(g: seq<int>, s: Sizes, i: nat)
    requires 0 <= s.train && 0 <= s.validation && 0 < s.test
    requires s.train + s.validation + s.test == |Unique(g)|
    requires i < |g|
    ensures SplitMasks(g, s).train[i] <==> GroupRank(g, i) < s.train
    ensures SplitMasks(g, s).validation[i] <==> s.train <= GroupRank(g, i) < s.train + s.validation
    ensures SplitMasks(g, s).test[i] <==> s.train + s.validation <= GroupRank(g, i)
    ensures var m := SplitMasks(g, s); ExactlyOne(m.train[i], m.validation[i], m.test[i])
    ensures s.validation == 0 ==> !SplitMasks(g, s).validation[i]
  {
    var u := Unique(g);
    UniqueListsEachGroupOnce(g);
    SlicesCutUniqueGroups(u, s);
    var p := GroupRank(g, i);
    var t, v := s.train, s.train + s.validation;
    var m := SplitMasks(g, s);
    assert m.train[i] <==> p < t by {
      InSliceOfDistinct(u, p, 0, t);
      assert u[..t] == u[0..t];
    }
    assert m.validation[i] <==> t <= p < v by {
      InSliceOfDistinct(u, p, t, v);
    }
    assert m.test[i] <==> v <= p by {
      InSliceOfDistinct(u, p, v, |u|);
      assert u[v..] == u[v..|u|];
    }
  }

  /**
    A test size that resolves to 0 selects every row for test, since
    `unique_groups[-0:]` is the whole list; validation (`[train:-0]`, that is
    `[train:0]`) is then empty whatever the train size.
   */
  lemma ZeroTestSizeSelectsEveryRow(g: seq<int>, s: Sizes, i: nat)
    requires s.test == 0 && i < |g|
    ensures SplitMasks(g, s).test[i]
    ensures !SplitMasks(g, s).validation[i]
  {
    var u := Unique(g);
    UniqueListsEachGroupOnce(g);
    assert u[0..|u|] == u;
    assert g[i] in u;
  }

  /** With a test size of 0 the test set `split` returns is the whole dataset, in order. */
  lemma ZeroTestSizeTestsWholeDataset<T>(data: Dataset<T>, g: seq<int>, s: Sizes)
    requires |g| == |data.rows| && s.test == 0
    ensures SelectSubsets(data, g, s).test.rows == data.rows
  {
    var m := SplitMasks(g, s);
    forall i | 0 <= i < |g|
      ensures m.test[i]
    {
      ZeroTestSizeSelectsEveryRow(g, s, i);
    }
    MaskedAllTrue(data.rows, m.test);
  }

  /** Taking every group for train leaves a test size of 0, which is not rejected. */
  lemma TrainTakingAllGroupsLeavesZeroTest(size: nat)
    requires size > 0
    ensures ResolveSizes(size, Count(size), Unset, Unset) == Ok(Sizes(size, 0, 0))
    ensures ResolveSizes(size, Fraction(1.0), Unset, Unset) == Ok(Sizes(size, 0, 0))
  {
  }

  /**
    A test size larger than the number of groups is not rejected when train
    is unset: train becomes negative, `unique_groups[:train]` drops groups from
    the end, and test takes every group.
   */
  lemma OversizedTestIsNotRejected(u: seq<int>, c: int)
    requires c > |u| > 0
    ensures ResolveSizes(|u|, Unset, Unset, Count(c)) == Ok(Sizes(|u| - c, 0, c))
    ensures TestGroups(u, Sizes(|u| - c, 0, c)) == u
    ensures TrainGroups(u, Sizes(|u| - c, 0, c)) == if c < 2 * |u| then u[..2 * |u| - c] else []
  {
  }

  /**
    Lines 80-85: the subsets for resolved sizes `s`. Each subset is `data[mask]`
    for its group mask; the result is a pair when validation is 0 and a
    triple otherwise.
   */
  function SelectSubsets<T>(data: Dataset<T>, g: seq<int>, s: Sizes): (r: Subsets<T>)
    requires |g| == |data.rows|
    ensures r.TrainTest? <==> s.validation == 0
    ensures r.train.kind == data.kind && r.test.kind == data.kind
    ensures r.TrainValidationTest? ==> r.validation.kind == data.kind
  {
    var m := SplitMasks(g, s);
    var trainSet := Dataset(data.kind, Masked(data.rows, m.train));
    var testSet := Dataset(data.kind, Masked(data.rows, m.test));
    if s.validation == 0 then TrainTest(trainSet, testSet)
    else TrainValidationTest(trainSet, Dataset(data.kind, Masked(data.rows, m.validation)), testSet)
  }

  /** Lines 38-85 once the groups are prepared. */
  function SplitGrouped<T>(data: Dataset<T>, g: seq<int>, train: SizeArg, validation: SizeArg, test: SizeArg)
    : (r: Result<Subsets<T>>)
    ensures r == Err(BothSizesUnset) <==> Falsy(train) && Falsy(test)
    ensures ResolveSizes(|Unique(g)|, train, validation, test).Err? ==>
      r == Err(ResolveSizes(|Unique(g)|, train, validation, test).error)
    ensures r == Err(MaskLengthMismatch) <==> ResolveSizes(|Unique(g)|, train, validation, test).Ok? && |g| != |data.rows|
    ensures r.Ok? <==> ResolveSizes(|Unique(g)|, train, validation, test).Ok? && |g| == |data.rows|
    ensures r.Ok? ==> r.value == SelectSubsets(data, g, ResolveSizes(|Unique(g)|, train, validation, test).value)
  {
    var u := Unique(g);
    var s :- ResolveSizes(|u|, train, validation, test);
    if |g| != |data.rows| then Err(MaskLengthMismatch)
    else Ok(SelectSubsets(data, g, s))
  }

  /** `split` without shuffling. */
  function Split<T, K(==)>(data: Dataset<T>, train: SizeArg, validation: SizeArg, test: SizeArg, groups: GroupsArg<K>)
    : (r: Result<Subsets<T>>)
    ensures PrepareData(data, groups).Err? ==> r == Err(PrepareData(data, groups).error)
    ensures PrepareData(data, groups).Ok? ==>
      (r == Err(BothSizesUnset) <==> Falsy(train) && Falsy(test))
    ensures PrepareData(data, groups).Ok? ==>
      r == SplitGrouped(data, PrepareData(data, groups).value, train, validation, test)
    ensures r.Ok? ==> data.kind != Unsupported && |data.rows| > 0
  {
    var g :- PrepareData(data, groups);
    SplitGrouped(data, g, train, validation, test)
  }

  /**
    With resolved sizes that are non-negative, with a positive test size, the
    subsets together hold every row exactly once.
   */
  lemma SplitPartitionsRows<T>(data: Dataset<T>, g: seq<int>, s: Sizes)
    requires |g| == |data.rows|
    requires 0 <= s.train && 0 <= s.validation && 0 < s.test
    requires s.train + s.validation + s.test == |Unique(g)|
    ensures var r := SelectSubsets(data, g, s);
      && (r.TrainTest? ==> multiset(r.train.rows) + multiset(r.test.rows) == multiset(data.rows))
      && (r.TrainValidationTest? ==>
            multiset(r.train.rows) + multiset(r.validation.rows) + multiset(r.test.rows) == multiset(data.rows))
  {
    var m := SplitMasks(g, s);
    forall i | 0 <= i < |g|
      ensures ExactlyOne(m.train[i], m.validation[i], m.test[i])
      ensures s.validation == 0 ==> !m.validation[i]
    {
      SplitMasksAssignEachRowOnce(g, s, i);
    }
    MaskedThreeWay(data.rows, m.train, m.validation, m.test);
    if s.validation == 0 {
      MaskedAllFalse(data.rows, m.validation);
    }
  }

  // ---------------------------------------------------------------------
  // cv_split

  /** Lines 126-129: the fold whose test set is the rows of the groups in `chunk`, and whose train set is every other row. */
  function FoldFor<T>(data: Dataset<T>, g: seq<int>, chunk: seq<int>): (f: Fold<T>)
    requires |g| == |data.rows|
    ensures f.train.kind == data.kind && f.test.kind == data.kind
    ensures multiset(f.train.rows) + multiset(f.test.rows) == multiset(data.rows)
  {
    var testMask := IsIn(g, chunk);
    var trainMask := Not(testMask);
    MaskedComplement(data.rows, testMask);
    Fold(Dataset(data.kind, Masked(data.rows, trainMask)), Dataset(data.kind, Masked(data.rows, testMask)))
  }

  /** The fold whose test chunk holds row `i`'s group. */
  function TestFoldOf(g: seq<int>, n: nat, i: nat): (k: nat)
    requires 0 < n && i < |g|
    ensures k < n
  {
    var u := Unique(g);
    UniqueListsEachGroupOnce(g);
    SectionOf(|u|, n, PositionIn(u, g[i]))
  }

  /**
    Across the `n` folds of `cv_split`, row `i` is a test row in exactly one
    fold, the one whose chunk holds its group, and a train row in all the others.
   */
  lemma EachRowTestedOnce(g: seq<int>, n: nat, i: nat)
    requires 0 < n && i < |g|
    ensures var chunks := ArraySplit(Unique(g), n);
      forall k :: 0 <= k < n ==> (IsIn(g, chunks[k])[i] <==> k == TestFoldOf(g, n, i))
  {
    var u := Unique(g);
    var chunks := ArraySplit(u, n);
    UniqueListsEachGroupOnce(g);
    SectionsTile(|u|, n);
    var p := PositionIn(u, g[i]);
    forall k | 0 <= k < n
      ensures IsIn(g, chunks[k])[i] <==> k == TestFoldOf(g, n, i)
    {
      InSliceOfDistinct(u, p, SectionStart(|u|, n, k), SectionStart(|u|, n, k + 1));
      SectionOfUnique(|u|, n, p, k);
    }
  }

  /**
    Lines 125-129: for each chunk in turn, the rows whose group is in the
    chunk are the test set and the remaining rows (`~test_mask`) the train set.
   */
  method YieldFolds<T>(data: Dataset<T>, g: seq<int>, chunks: seq<seq<int>>) returns (folds: seq<Fold<T>>)
    requires |g| == |data.rows|
    ensures |folds| == |chunks|
    ensures forall k :: 0 <= k < |chunks| ==> folds[k] == FoldFor(data, g, chunks[k])
  {
    folds := [];
    for k := 0 to |chunks|
      invariant |folds| == k
      invariant forall j :: 0 <= j < k ==> folds[j] == FoldFor(data, g, chunks[j])
    {
      var testMask := IsIn(g, chunks[k]);
      var trainMask := Not(testMask);
      folds := folds + [Fold(Dataset(data.kind, Masked(data.rows, trainMask)), Dataset(data.kind, Masked(data.rows, testMask)))];
    }
  }

  /**
    `cv_split` without shuffling. The generator's folds are collected into a
    sequence; an error it would raise on the first `next()` is the result.
   */
  method CvSplit<T, K(==)>(data: Dataset<T>, numSplits: int, groups: GroupsArg<K>) returns (r: Result<seq<Fold<T>>>)
    ensures PrepareData(data, groups).Err? ==> r == Err(PrepareData(data, groups).error)
    ensures PrepareData(data, groups).Ok? ==>
      var g := PrepareData(data, groups).value;
      var u := Unique(g);
      && (numSplits > |u| ==> r == Err(TooManySplits))
      && (numSplits <= 0 ==> r == Err(NonPositiveSplits))
      && (0 < numSplits <= |u| && |g| != |data.rows| ==> r == Err(MaskLengthMismatch))
      && (0 < numSplits <= |u| && |g| == |data.rows| ==>
            && r.Ok?
            && |r.value| == numSplits
            && forall k :: 0 <= k < numSplits ==> r.value[k] == FoldFor(data, g, ArraySplit(u, numSplits)[k]))
  {
    var prepared := PrepareData(data, groups);
    if prepared.Err? {
      return Err(prepared.error);
    }
    var g := prepared.value;
    var u := Unique(g);
    if numSplits > |u| {
      return Err(TooManySplits);
    }
    if numSplits <= 0 {
      return Err(NonPositiveSplits);
    }
    if |g| != |data.rows| {
      return Err(MaskLengthMismatch);
    }
    var chunks := ArraySplit(u, numSplits);
    var folds := YieldFolds(data, g, chunks);
    return Ok(folds);
  }
}
