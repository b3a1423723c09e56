/** Missing-value handling: a drop strategy that removes listed columns, a
    fill strategy dispatching over four fill methods, and the handler that
    wraps a strategy as a fit/transform step. */
module MissingValues {
  import opened Frames
  import Stats
  import Modes

  datatype FillMethod = Median | Mean | MostFrequent | Constant

  /** The name under which each fill method is requested. */
  function MethodName(m: FillMethod): string {
    match m
    case Median => "median"
    case Mean => "mean"
    case MostFrequent => "most_frequent"
    case Constant => "constant"
  }

  /** The fill method a method name selects; any other name is unsupported.
      Parsing inverts `MethodName`. */
  function ParseMethod(name: string): (r: Option<FillMethod>)
    ensures r.Some? ==> MethodName(r.value) == name
    ensures r.None? ==> forall m :: MethodName(m) != name
  {
    if name == "median" then Some(Median)
    else if name == "mean" then Some(Mean)
    else if name == "most_frequent" then Some(MostFrequent)
    else if name == "constant" then Some(Constant)
    else None
  }

  /** A strategy as its constructor stores it: the method name and the fill
      value are kept as given and checked only when the strategy runs. A
      fill value of None is the absent Python argument. */
  datatype Strategy =
    | DropStrategy(features: seq<string>)
    | FillStrategy(features: seq<string>, methodName: string, fillValue: Option<Cell>)

  /** A fill strategy built from its features alone: the method defaults to
      'median' and the fill value to None. */
  function DefaultFillStrategy(features: seq<string>): Strategy {
    FillStrategy(features, "median", None)
  }

  // ---------------------------------------------------------------- dropping

  /** `names` without the members of `drop`, in their original order. */
  function Without(names: seq<string>, drop: set<string>): (r: seq<string>)
    ensures forall x :: x in r <==> x in names && x !in drop
    ensures Distinct(names) ==> Distinct(r)
    ensures (forall i :: 0 <= i < |names| ==> names[i] !in drop) ==> r == names
    ensures |names| == 1 && names[0] in drop ==> r == []
  {
    if |names| == 0 then []
    else
      var rest := Without(names[1..], drop);
      assert forall x :: x in names <==> x == names[0] || x in names[1..];
      if names[0] in drop then rest
      else
        ConsDistinct(names, rest);
        [names[0]] + rest
  }

  /** Dropping distributes over concatenation, so the kept names stay in
      their original relative order: with the two one-name cases above,
      this determines the result for every input. */
  lemma {:induction false} WithoutAppend(a: seq<string>, b: seq<string>, drop: set<string>)
    ensures Without(a + b, drop) == Without(a, drop) + Without(b, drop)
  {
    if |a| == 0 {
      assert a + b == b;
    } else {
      assert (a + b)[0] == a[0] && (a + b)[1..] == a[1..] + b;
      WithoutAppend(a[1..], b, drop);
    }
  }

  /** Dropping 'b' from ['a', 'b', 'c'] gives ['a', 'c']. */
  lemma WithoutExample()
    ensures Without(["a", "b", "c"], {"b"}) == ["a", "c"]
  {
    WithoutAppend(["a"], ["b", "c"], {"b"});
    WithoutAppend(["b"], ["c"], {"b"});
  }

  lemma ConsDistinct(names: seq<string>, rest: seq<string>)
    requires |names| > 0
    requires forall x :: x in rest ==> x in names[1..]
    requires Distinct(names[1..]) ==> Distinct(rest)
    ensures Distinct(names) ==> Distinct([names[0]] + rest)
  {
    if Distinct(names) {
      assert Distinct(names[1..]);
      assert names[0] !in names[1..];
      var r := [names[0]] + rest;
      forall i, j | 0 <= i < j < |r|
        ensures r[i] != r[j]
      {
        if i == 0 {
          assert r[j] in rest;
        } else {
          assert r[i] == rest[i - 1] && r[j] == rest[j - 1];
        }
      }
    }
  }

  /** Drops the listed columns, whether or not they hold missing cells; a
      listed column that is absent is a KeyError. */
  function DropColumns(df: Frame, features: seq<string>): (r: Result<Frame>)
    requires Valid(df)
    ensures r.Ok? <==> forall i :: 0 <= i < |features| ==> features[i] in df.cols
    ensures r.Err? ==> r.error.KeyError? && r.error.column in features && r.error.column !in df.cols
    ensures r.Ok? ==> Valid(r.value) && r.value.rows == df.rows
    ensures r.Ok? ==> r.value.cols.Keys == df.cols.Keys - AsSet(features)
    ensures r.Ok? ==> forall c :: c in r.value.cols ==> r.value.cols[c] == df.cols[c]
    ensures r.Ok? ==> r.value.names == Without(df.names, AsSet(features))
  {
    match FirstAbsent(features, df)
    case Some(c) => Err(KeyError(c))
    case None =>
      var drop := AsSet(features);
      Ok(Frame(Without(df.names, drop), df.cols - drop, df.rows))
  }

  // ----------------------------------------------------------------- filling

  /** Every missing cell of `col` becomes `v`; every present cell stays. */
  function FillColumn(col: Column, v: Cell): (r: Column)
    ensures |r| == |col|
    ensures forall i :: 0 <= i < |col| && !col[i].Missing? ==> r[i] == col[i]
    ensures forall i :: 0 <= i < |col| && col[i].Missing? ==> r[i] == v
    ensures !v.Missing? ==> NoMissing(r)
  {
    seq(|col|, i requires 0 <= i < |col| => if col[i].Missing? then v else col[i])
  }

  /** The value the missing cells of one listed column are filled with:
      the column's own statistic, or the constant. A statistic that is
      undefined (NaN) is Missing, which leaves the column's cells missing. */
  function FillValue(m: FillMethod, col: Column, constant: Cell): (r: Cell)
    ensures m == Constant ==> r == constant
    ensures (m == Median || m == Mean) ==> (r.Missing? <==> |Numbers(col)| == 0)
    ensures (m == Median || m == Mean) && r.Num? ==>
              Stats.Min(Numbers(col)) <= r.x <= Stats.Max(Numbers(col))
    ensures m == MostFrequent ==> (r.Missing? <==> Modes.NoPresent(col))
    ensures m == MostFrequent && !r.Missing? ==> Modes.IsMode(col, r)
  {
    match m
    case Median =>
      var xs := Numbers(col);
      if |xs| == 0 then Missing else Num(Stats.Median(xs))
    case Mean =>
      var xs := Numbers(col);
      if |xs| == 0 then Missing
      else
        Stats.MeanBetweenMinAndMax(xs);
        Num(Stats.Mean(xs))
    case MostFrequent =>
      (match Modes.Mode(col)
       case Some(v) => v
       case None => Missing)
    case Constant => constant
  }

  /** The first listed column that holds text. */
  function FirstText(features: seq<string>, df: Frame): (r: Option<string>)
    requires forall i :: 0 <= i < |features| ==> features[i] in df.cols
    ensures r.None? <==> forall i :: 0 <= i < |features| ==> !HasText(df.cols[features[i]])
    ensures r.Some? ==> r.value in features && HasText(df.cols[r.value])
  {
    if |features| == 0 then None
    else if HasText(df.cols[features[0]]) then Some(features[0])
    else
      var r := FirstText(features[1..], df);
      assert forall i :: 1 <= i < |features| ==> features[i] == features[1..][i - 1];
      r
  }

  /** Every listed column has every cell missing. */
  predicate AllListedEmpty(features: seq<string>, df: Frame)
    requires forall i :: 0 <= i < |features| ==> features[i] in df.cols
  {
    forall i :: 0 <= i < |features| ==> Modes.NoPresent(df.cols[features[i]])
  }

  /** Rewrites every listed column with its fill value; the rest is kept. */
  function FillListed(df: Frame, features: seq<string>, m: FillMethod, constant: Cell): (r: Frame)
    requires Valid(df)
    requires forall i :: 0 <= i < |features| ==> features[i] in df.cols
    ensures Valid(r) && SameOutside(df, r, AsSet(features))
    ensures forall c :: c in features ==> r.cols[c] == FillColumn(df.cols[c], FillValue(m, df.cols[c], constant))
  {
    FillWith(df, features, map c | c in AsSet(features) :: FillValue(m, df.cols[c], constant))
  }

  /** Fills the missing cells of each listed column with that column's
      entry of `fills`; every other column is kept. */
  function FillWith(df: Frame, features: seq<string>, fills: map<string, Cell>): (r: Frame)
    requires Valid(df)
    requires forall i :: 0 <= i < |features| ==> features[i] in df.cols && features[i] in fills
    ensures Valid(r) && SameOutside(df, r, AsSet(features))
    ensures forall c :: c in features ==> r.cols[c] == FillColumn(df.cols[c], fills[c])
  {
    Frame(df.names,
          map c | c in df.cols :: if c in features then FillColumn(df.cols[c], fills[c]) else df.cols[c],
          df.rows)
  }

  /** When the fill strategy runs without raising. */
  ghost predicate FillSucceeds(df: Frame, features: seq<string>, methodName: string, fillValue: Option<Cell>) {
    match ParseMethod(methodName)
    case None => false
    case Some(m) =>
      && (m == Constant ==> fillValue.Some?)
      && (forall i :: 0 <= i < |features| ==> features[i] in df.cols)
      && ((m == Median || m == Mean) ==> forall i :: 0 <= i < |features| ==> !HasText(df.cols[features[i]]))
      && (m == MostFrequent ==> !AllListedEmpty(features, df))
  }

  /** Fills the missing cells of the listed columns with the chosen method.
      Errors, in the order they are detected: an unknown method name; the
      constant method without a fill value (any value but None is accepted,
      0 included); a listed column that is absent; a median or mean over a
      column holding text; a most-frequent fill where no listed column has
      a present value, so the modes have no first row. */
  function FillMissing(df: Frame, features: seq<string>, methodName: string, fillValue: Option<Cell>): (r: Result<Frame>)
    requires Valid(df)
    ensures r.Ok? <==> FillSucceeds(df, features, methodName, fillValue)
    ensures ParseMethod(methodName).None? ==> r == Err(UnsupportedMethod(methodName))
    ensures ParseMethod(methodName) == Some(Constant) && fillValue.None? ==> r == Err(MissingFillValue)
    ensures ParseMethod(methodName).Some? && !(ParseMethod(methodName) == Some(Constant) && fillValue.None?)
            && (exists i :: 0 <= i < |features| && features[i] !in df.cols) ==>
              r.Err? && r.error.KeyError? && r.error.column in features && r.error.column !in df.cols
    ensures ParseMethod(methodName) in {Some(Median), Some(Mean)}
            && (forall i :: 0 <= i < |features| ==> features[i] in df.cols)
            && (exists i :: 0 <= i < |features| && HasText(df.cols[features[i]])) ==>
              r.Err? && r.error.NonNumericColumn? && r.error.column in features && HasText(df.cols[r.error.column])
    ensures ParseMethod(methodName) == Some(MostFrequent)
            && (forall i :: 0 <= i < |features| ==> features[i] in df.cols)
            && AllListedEmpty(features, df) ==>
              r == Err(EmptyMode)
    ensures r.Ok? ==> Valid(r.value) && SameOutside(df, r.value, AsSet(features))
    ensures r.Ok? ==> forall c, i :: c in features && 0 <= i < df.rows && !df.cols[c][i].Missing? ==>
                        r.value.cols[c][i] == df.cols[c][i]
    ensures r.Ok? ==> forall c, i :: c in features && 0 <= i < df.rows && df.cols[c][i].Missing? ==>
                        r.value.cols[c][i] == FillValue(ParseMethod(methodName).value, df.cols[c],
                                                         if fillValue.Some? then fillValue.value else Missing)
  {
    match ParseMethod(methodName)
    case None => Err(UnsupportedMethod(methodName))
    case Some(m) =>
      if m == Constant && fillValue.None? then Err(MissingFillValue)
      else
        match FirstAbsent(features, df)
        case Some(c) => Err(KeyError(c))
        case None =>
          var constant := if fillValue.Some? then fillValue.value else Missing;
          if (m == Median || m == Mean) && FirstText(features, df).Some? then
            Err(NonNumericColumn(FirstText(features, df).value))
          else if m == MostFrequent && AllListedEmpty(features, df) then
            Err(EmptyMode)
          else
            Ok(FillListed(df, features, m, constant))
  }

  /** The strategy interface: each strategy handles the missing values of a
      frame, returning a new frame. */
  function HandleMissingValues(s: Strategy, df: Frame): (r: Result<Frame>)
    requires Valid(df)
    ensures r.Ok? ==> Valid(r.value) && r.value.rows == df.rows
    ensures r.Ok? ==> forall c :: c in r.value.cols && c !in s.features ==> c in df.cols && r.value.cols[c] == df.cols[c]
  {
    match s
    case DropStrategy(features) => DropColumns(df, features)
    case FillStrategy(features, methodName, fillValue) => FillMissing(df, features, methodName, fillValue)
  }

  // ------------------------------------------------------------ the handler

  /** The handler: its strategy, and the column names of the last frame it
      transformed (None before the first transform). */
  datatype Handler = Handler(strategy: Strategy, featureNames: Option<seq<string>>)

  function NewHandler(s: Strategy): Handler {
    Handler(s, None)
  }

  /** Fitting learns nothing and gives the handler back. */
  function Fit(h: Handler, x: Frame): Handler {
    h
  }

  /** Records the columns of `x`, then runs the strategy on `x`. The names
      are recorded even when the strategy then raises. */
  function Transform(h: Handler, x: Frame): (Handler, Result<Frame>)
    requires Valid(x)
  {
    (h.(featureNames := Some(x.names)), HandleMissingValues(h.strategy, x))
  }

  /** The given input features if any, else the columns of the last frame
      transformed; an error before the first transform. */
  function GetFeatureNamesOut(h: Handler, inputFeatures: Option<seq<string>>): Result<seq<string>> {
    if inputFeatures.Some? then Ok(inputFeatures.value)
    else if h.featureNames.Some? then Ok(h.featureNames.value)
    else Err(NoFeatureNames)
  }

  // ------------------------------------------------------------- properties

  /** Every fill method is accepted under its own name. */
  lemma ParseMethodName(m: FillMethod)
    ensures ParseMethod(MethodName(m)) == Some(m)
  {
  }

  /** With 'constant' and a fill value, every missing cell of a listed
      column becomes that value, every present cell stays, and no other
      column changes. Falsy values such as 0 are accepted like any other. */
  lemma ConstantFill(df: Frame, features: seq<string>, v: Cell)
    requires Valid(df)
    requires forall i :: 0 <= i < |features| ==> features[i] in df.cols
    ensures FillMissing(df, features, "constant", Some(v)).Ok?
    ensures var r := FillMissing(df, features, "constant", Some(v)).value;
            && SameOutside(df, r, AsSet(features))
            && (forall c, i :: c in features && 0 <= i < df.rows ==>
                  r.cols[c][i] == (if df.cols[c][i].Missing? then v else df.cols[c][i]))
            && (!v.Missing? ==> forall c :: c in features ==> NoMissing(r.cols[c]))
  {
    var r := FillMissing(df, features, "constant", Some(v)).value;
    assert r == FillListed(df, features, Constant, v);
  }

  /** 'median' fills the missing cells of each listed column with the median
      of that column's own numbers, a value lying between two of them; a
      column with no numbers stays missing. */
  lemma MedianFill(df: Frame, features: seq<string>, c: string, i: int)
    requires Valid(df)
    requires forall k :: 0 <= k < |features| ==> features[k] in df.cols && !HasText(df.cols[features[k]])
    requires c in features && 0 <= i < df.rows && df.cols[c][i].Missing?
    ensures FillMissing(df, features, "median", None).Ok?
    ensures var xs := Numbers(df.cols[c]);
            var r := FillMissing(df, features, "median", None).value;
            && (|xs| == 0 ==> r.cols[c][i] == Missing)
            && (|xs| > 0 ==> r.cols[c][i] == Num(Stats.Median(xs))
                             && (exists a :: 0 <= a < |xs| && xs[a] <= r.cols[c][i].x)
                             && (exists b :: 0 <= b < |xs| && r.cols[c][i].x <= xs[b]))
  {
    MedianRuns(df, features);
    var col := df.cols[c];
    var v := FillValue(Median, col, Missing);
    MedianValue(col);
    var r := FillListed(df, features, Median, Missing);
    assert r.cols[c] == FillColumn(col, v);
    assert r.cols[c][i] == v;
  }

  /** The median fill value of one column. */
  lemma MedianValue(col: Column)
    ensures var xs := Numbers(col);
            && (|xs| == 0 ==> FillValue(Median, col, Missing) == Missing)
            && (|xs| > 0 ==> FillValue(Median, col, Missing) == Num(Stats.Median(xs)))
  {
  }

  /** With every listed column present and numeric, 'median' runs and
      fills every listed column from its own median. */
  lemma MedianRuns(df: Frame, features: seq<string>)
    requires Valid(df)
    requires forall k :: 0 <= k < |features| ==> features[k] in df.cols && !HasText(df.cols[features[k]])
    ensures FillMissing(df, features, "median", None) == Ok(FillListed(df, features, Median, Missing))
  {
    assert ParseMethod("median") == Some(Median);
    assert FirstAbsent(features, df).None? && FirstText(features, df).None?;
  }

  /** A fill strategy given only its features fills like 'median': each
      missing cell of a listed numeric column gets that column's median. */
  lemma DefaultFillIsMedian(df: Frame, features: seq<string>, c: string, i: int)
    requires Valid(df)
    requires forall k :: 0 <= k < |features| ==> features[k] in df.cols && !HasText(df.cols[features[k]])
    requires c in features && 0 <= i < df.rows && df.cols[c][i].Missing?
    ensures HandleMissingValues(DefaultFillStrategy(features), df).Ok?
    ensures var xs := Numbers(df.cols[c]);
            var r := HandleMissingValues(DefaultFillStrategy(features), df).value;
            && (|xs| == 0 ==> r.cols[c][i] == Missing)
            && (|xs| > 0 ==> r.cols[c][i] == Num(Stats.Median(xs)))
  {
    assert HandleMissingValues(DefaultFillStrategy(features), df) == FillMissing(df, features, "median", None);
    MedianFill(df, features, c, i);
  }

  /** 'mean' fills the missing cells of each listed column with the mean of
      that column's own numbers, which lies between their minimum and
      maximum; a column with no numbers stays missing. */
  lemma MeanFill(df: Frame, features: seq<string>, c: string, i: int)
    requires Valid(df)
    requires forall k :: 0 <= k < |features| ==> features[k] in df.cols && !HasText(df.cols[features[k]])
    requires c in features && 0 <= i < df.rows && df.cols[c][i].Missing?
    ensures FillMissing(df, features, "mean", None).Ok?
    ensures var xs := Numbers(df.cols[c]);
            var r := FillMissing(df, features, "mean", None).value;
            && (|xs| == 0 ==> r.cols[c][i] == Missing)
            && (|xs| > 0 ==> r.cols[c][i] == Num(Stats.Mean(xs))
                             && Stats.Min(xs) <= r.cols[c][i].x <= Stats.Max(xs))
  {
    var xs := Numbers(df.cols[c]);
    if |xs| > 0 {
      Stats.MeanBetweenMinAndMax(xs);
    }
  }

  /** 'most_frequent' fills the missing cells of each listed column with
      that column's own mode; when modes tie, the one sorting first. */
  lemma MostFrequentFill(df: Frame, features: seq<string>, c: string, i: int)
    requires Valid(df)
    requires forall k :: 0 <= k < |features| ==> features[k] in df.cols
    requires c in features && 0 <= i < df.rows && df.cols[c][i].Missing?
    requires !Modes.NoPresent(df.cols[c])
    ensures FillMissing(df, features, "most_frequent", None).Ok?
    ensures var col := df.cols[c];
            var m := FillMissing(df, features, "most_frequent", None).value.cols[c][i];
            && Modes.IsMode(col, m)
            && forall j :: 0 <= j < |col| && Modes.IsMode(col, col[j]) ==> col[j] == m || Modes.CellLess(m, col[j])
  {
    var k :| 0 <= k < |features| && features[k] == c;
    assert !AllListedEmpty(features, df);
  }

  /** The worked example: [1, 2, missing, 4] filled with its median is
      [1, 2, 2, 4], the median of the observed 1, 2, 4 being 2. */
  lemma MedianFillExample()
    ensures var df := Frame(["LotFrontage"], map["LotFrontage" := [Num(1.0), Num(2.0), Missing, Num(4.0)]], 4);
            FillMissing(df, ["LotFrontage"], "median", None)
              == Ok(df.(cols := map["LotFrontage" := [Num(1.0), Num(2.0), Num(2.0), Num(4.0)]]))
  {
    var col := [Num(1.0), Num(2.0), Missing, Num(4.0)];
    var df := Frame(["LotFrontage"], map["LotFrontage" := col], 4);
    ExampleChecksPass(df, col);
    var r := FillListed(df, ["LotFrontage"], Median, Missing);
    assert FillMissing(df, ["LotFrontage"], "median", None) == Ok(r);
    ExampleFilledFrame(df, col);
  }

  lemma ExampleChecksPass(df: Frame, col: Column)
    requires col == [Num(1.0), Num(2.0), Missing, Num(4.0)]
    requires df == Frame(["LotFrontage"], map["LotFrontage" := col], 4)
    ensures Valid(df)
    ensures FirstAbsent(["LotFrontage"], df).None?
    ensures FirstText(["LotFrontage"], df).None?
  {
    assert !HasText(col) by {
      assert forall i :: 0 <= i < |col| ==> !col[i].Str?;
    }
  }

  lemma ExampleFilledFrame(df: Frame, col: Column)
    requires col == [Num(1.0), Num(2.0), Missing, Num(4.0)]
    requires df == Frame(["LotFrontage"], map["LotFrontage" := col], 4)
    requires Valid(df)
    ensures FillListed(df, ["LotFrontage"], Median, Missing)
              == df.(cols := map["LotFrontage" := [Num(1.0), Num(2.0), Num(2.0), Num(4.0)]])
  {
    FillListedSingle(df, "LotFrontage", Median, Missing);
    ExampleFillValue();
    ExampleFilledColumn();
  }

  /** Filling the one column of a one-column frame. */
  lemma FillListedSingle(df: Frame, c: string, m: FillMethod, k: Cell)
    requires Valid(df) && df.names == [c]
    ensures FillListed(df, [c], m, k) == df.(cols := map[c := FillColumn(df.cols[c], FillValue(m, df.cols[c], k))])
  {
    var r := FillListed(df, [c], m, k);
    assert r.cols.Keys == {c};
    SingletonMap(r.cols, c, FillColumn(df.cols[c], FillValue(m, df.cols[c], k)));
  }

  lemma SingletonMap(m: map<string, Column>, k: string, v: Column)
    requires m.Keys == {k} && m[k] == v
    ensures m == map[k := v]
  {
  }

  lemma ExampleFillValue()
    ensures FillValue(Median, [Num(1.0), Num(2.0), Missing, Num(4.0)], Missing) == Num(2.0)
  {
    ExampleNumbers();
    ExampleMedian();
  }

  lemma ExampleFilledColumn()
    ensures FillColumn([Num(1.0), Num(2.0), Missing, Num(4.0)], Num(2.0)) == [Num(1.0), Num(2.0), Num(2.0), Num(4.0)]
  {
    var filled := FillColumn([Num(1.0), Num(2.0), Missing, Num(4.0)], Num(2.0));
    var expected := [Num(1.0), Num(2.0), Num(2.0), Num(4.0)];
    assert forall i | 0 <= i < 4 :: filled[i] == expected[i];
  }

  lemma ExampleMedian()
    ensures Stats.Median([1.0, 2.0, 4.0]) == 2.0
  {
    Stats.MedianOfSortedThree(1.0, 2.0, 4.0);
  }

  lemma ExampleNumbers()
    ensures Numbers([Num(1.0), Num(2.0), Missing, Num(4.0)]) == [1.0, 2.0, 4.0]
  {
    NumbersWithOneGap(1.0, 2.0, 4.0);
  }

  /** The numbers of [a, b, missing, d] are [a, b, d]. */
  lemma NumbersWithOneGap(a: real, b: real, d: real)
    ensures Numbers([Num(a), Num(b), Missing, Num(d)]) == [a, b, d]
  {
    var c3: Column := [Num(d)];
    var c2: Column := [Missing] + c3;
    var c1: Column := [Num(b)] + c2;
    var c0: Column := [Num(a)] + c1;
    NumbersStep(c3);
    NumbersStep(c2);
    NumbersStep(c1);
    NumbersStep(c0);
    assert c0 == [Num(a), Num(b), Missing, Num(d)];
  }

  /** One step of Numbers: the head contributes its number, if any. */
  lemma NumbersStep(col: Column)
    requires |col| > 0
    ensures Numbers(col) == (if col[0].Num? then [col[0].x] else []) + Numbers(col[1..])
  {
  }

  /** Filling with Missing, or filling a column that has no missing cell,
      changes nothing. */
  lemma FillColumnNoOp(col: Column, v: Cell)
    requires v.Missing? || NoMissing(col)
    ensures FillColumn(col, v) == col
  {
  }

  /** Once a column has been filled, filling it again with its own
      recomputed value changes nothing. */
  lemma FillValueStable(m: FillMethod, col: Column, k: Cell)
    ensures var r := FillColumn(col, FillValue(m, col, k));
            FillColumn(r, FillValue(m, r, k)) == r
  {
    var v := FillValue(m, col, k);
    var r := FillColumn(col, v);
    if v.Missing? {
      FillColumnNoOp(col, v);
      assert FillValue(m, r, k) == v;
      FillColumnNoOp(r, v);
    } else {
      FillColumnNoOp(r, FillValue(m, r, k));
    }
  }

  /** Filling keeps what made the first run succeed: no text appears in a
      median or mean fill, and no present cell is lost. */
  lemma FillKeepsSuccess(m: FillMethod, col: Column, k: Cell)
    ensures var r := FillColumn(col, FillValue(m, col, k));
            && ((m == Median || m == Mean) && !HasText(col) ==> !HasText(r))
            && (!Modes.NoPresent(col) ==> !Modes.NoPresent(r))
  {
    var v := FillValue(m, col, k);
    var r := FillColumn(col, v);
    if (m == Median || m == Mean) && !HasText(col) {
      assert !v.Str?;
      forall i | 0 <= i < |r|
        ensures !r[i].Str?
      {
        assert r[i] == col[i] || r[i] == v;
      }
    }
    if !Modes.NoPresent(col) {
      var j :| 0 <= j < |col| && !col[j].Missing?;
      assert r[j] == col[j];
    }
  }

  /** Rewriting the listed columns a second time, with fill values
      recomputed from the first result, changes nothing. */
  lemma FillListedIdempotent(df: Frame, features: seq<string>, m: FillMethod, k: Cell)
    requires Valid(df)
    requires forall i :: 0 <= i < |features| ==> features[i] in df.cols
    ensures var r := FillListed(df, features, m, k);
            FillListed(r, features, m, k) == r
  {
    var r := FillListed(df, features, m, k);
    var r2 := FillListed(r, features, m, k);
    forall c | c in r.cols
      ensures r2.cols[c] == r.cols[c]
    {
      if c in features {
        FillValueStable(m, df.cols[c], k);
      }
    }
    assert r2.cols == r.cols;
  }

  /** A fill strategy is idempotent: running it on its own output gives
      that output back. */
  lemma {:induction false} FillIdempotent(df: Frame, features: seq<string>, methodName: string, fillValue: Option<Cell>)
    requires Valid(df) && FillMissing(df, features, methodName, fillValue).Ok?
    ensures var r := FillMissing(df, features, methodName, fillValue).value;
            FillMissing(r, features, methodName, fillValue) == Ok(r)
  {
    var m := ParseMethod(methodName).value;
    var k := if fillValue.Some? then fillValue.value else Missing;
    FillRuns(df, features, methodName, fillValue, m, k);
    var r := FillListed(df, features, m, k);
    FillSucceedsAgain(df, features, methodName, fillValue, m, k);
    FillRuns(r, features, methodName, fillValue, m, k);
    FillListedIdempotent(df, features, m, k);
  }

  /** When the checks pass, filling rewrites the listed columns. */
  lemma FillRuns(df: Frame, features: seq<string>, methodName: string, fillValue: Option<Cell>, m: FillMethod, k: Cell)
    requires Valid(df) && FillSucceeds(df, features, methodName, fillValue)
    requires ParseMethod(methodName) == Some(m) && k == (if fillValue.Some? then fillValue.value else Missing)
    ensures FillMissing(df, features, methodName, fillValue) == Ok(FillListed(df, features, m, k))
  {
    assert FirstAbsent(features, df).None?;
  }

  lemma FillSucceedsAgain(df: Frame, features: seq<string>, methodName: string, fillValue: Option<Cell>, m: FillMethod, k: Cell)
    requires Valid(df) && FillSucceeds(df, features, methodName, fillValue)
    requires ParseMethod(methodName) == Some(m)
    ensures FillSucceeds(FillListed(df, features, m, k), features, methodName, fillValue)
  {
    var r := FillListed(df, features, m, k);
    forall c | c in features
      ensures (m == Median || m == Mean) ==> !HasText(r.cols[c])
      ensures !Modes.NoPresent(df.cols[c]) ==> !Modes.NoPresent(r.cols[c])
    {
      FillKeepsSuccess(m, df.cols[c], k);
    }
    if m == MostFrequent {
      var j :| 0 <= j < |features| && !Modes.NoPresent(df.cols[features[j]]);
      assert !AllListedEmpty(features, r);
    }
  }

  /** Dropping removes exactly the listed columns, even those without a
      missing cell, and keeps every other column and the row count. */
  lemma DropExactly(df: Frame, features: seq<string>, c: string)
    requires Valid(df)
    requires forall i :: 0 <= i < |features| ==> features[i] in df.cols
    requires c in df.cols
    ensures DropColumns(df, features).Ok?
    ensures var r := DropColumns(df, features).value;
            && r.rows == df.rows
            && (c in r.cols <==> c !in features)
            && (c in r.cols ==> r.cols[c] == df.cols[c])
  {
  }

  /** Dropping is not idempotent: the dropped columns are gone, so dropping
      them again raises KeyError. */
  lemma DropTwiceRaises(df: Frame, features: seq<string>)
    requires Valid(df) && |features| > 0
    requires DropColumns(df, features).Ok?
    ensures DropColumns(DropColumns(df, features).value, features).Err?
  {
    var r := DropColumns(df, features).value;
    assert features[0] !in r.cols;
  }

  /** Fitting learns nothing: a fitted handler transforms any frame exactly
      as the unfitted one, recomputing fill values from that frame. */
  lemma FitLearnsNothing(h: Handler, seen: Frame, x: Frame)
    requires Valid(x)
    ensures Transform(Fit(h, seen), x) == Transform(h, x)
    ensures Transform(Fit(h, seen), x).1 == HandleMissingValues(h.strategy, x)
  {
  }

  /** The feature names out are the given input features if any, else the
      columns of the frame last transformed, recorded before the strategy
      ran: with a drop strategy they still include the dropped columns. */
  lemma FeatureNamesOut(h: Handler, x: Frame, given: seq<string>)
    requires Valid(x)
    ensures GetFeatureNamesOut(NewHandler(h.strategy), None) == Err(NoFeatureNames)
    ensures GetFeatureNamesOut(Transform(h, x).0, Some(given)) == Ok(given)
    ensures GetFeatureNamesOut(Transform(h, x).0, None) == Ok(x.names)
    ensures h.strategy.DropStrategy? && Transform(h, x).1.Ok? ==>
              forall c :: c in h.strategy.features ==> c in x.names && c !in Transform(h, x).1.value.cols
  {
  }

  /** An unknown method name is accepted when the strategy is built and
      raises only when the handler transforms a frame. */
  lemma UnknownMethodRaisesOnTransform(features: seq<string>, methodName: string, fillValue: Option<Cell>, x: Frame)
    requires Valid(x) && ParseMethod(methodName).None?
    ensures NewHandler(FillStrategy(features, methodName, fillValue)).strategy.methodName == methodName
    ensures Transform(NewHandler(FillStrategy(features, methodName, fillValue)), x).1 == Err(UnsupportedMethod(methodName))
  {
  }
}
