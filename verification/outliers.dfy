/** The outlier capper: a transformer that, per numeric column, either
    clamps values to quartile-derived bounds ('iqr') or overwrites values
    whose z-score exceeds a threshold ('zscore'). Any other method name
    returns the column unchanged. */
module Outliers {
  import opened Frames
  import Stats

  /** The capper's parameters as its constructor stores them. */
  datatype Capper = Capper(methodName: string, threshold: real, lowerCap: Option<real>, upperCap: Option<real>)

  /** The constructor's defaults. */
  function DefaultCapper(): Capper {
    Capper("zscore", 3.0, None, None)
  }

  /** Fitting learns nothing and gives the capper back. */
  function Fit(p: Capper, x: seq<real>): Capper {
    p
  }

  function MinR(a: real, b: real): real { if a <= b then a else b }
  function MaxR(a: real, b: real): real { if a >= b then a else b }

  /** Clamps every value to [lo, hi] as min(max(x, lo), hi): values below lo
      become lo, values above hi become hi, the rest stay; when lo > hi
      every value becomes hi. */
  function Clip(x: seq<real>, lo: real, hi: real): (r: seq<real>)
    ensures |r| == |x|
    ensures lo <= hi ==> forall i :: 0 <= i < |x| ==> lo <= r[i] <= hi
    ensures forall i :: 0 <= i < |x| && lo <= x[i] <= hi ==> r[i] == x[i]
    ensures lo <= hi ==> forall i :: 0 <= i < |x| && x[i] < lo ==> r[i] == lo
    ensures forall i :: 0 <= i < |x| && x[i] > hi ==> r[i] == hi
    ensures lo > hi ==> forall i :: 0 <= i < |x| ==> r[i] == hi
  {
    seq(|x|, i requires 0 <= i < |x| => MinR(MaxR(x[i], lo), hi))
  }

  // --------------------------------------------------------------------- iqr

  /** First and third quartiles: the 25th and 75th percentiles of the
      sorted column, by linear interpolation. */
  function Quartiles(x: seq<real>): (q: (real, real))
    requires |x| > 0
    ensures q.0 <= q.1
  {
    var s := Stats.Sort(x);
    Stats.PercentileMonotone(s, 25, 75);
    (Stats.Percentile(s, 25), Stats.Percentile(s, 75))
  }

  /** The clamping bounds: Q1 - 1.5 IQR and Q3 + 1.5 IQR, where an explicit
      cap replaces the computed bound on its own side. The threshold plays
      no part. */
  function IqrBounds(p: Capper, x: seq<real>): (b: (real, real))
    requires |x| > 0
    ensures p.lowerCap.Some? ==> b.0 == p.lowerCap.value
    ensures p.upperCap.Some? ==> b.1 == p.upperCap.value
    ensures p.lowerCap.None? ==> b.0 <= Quartiles(x).0
    ensures p.upperCap.None? ==> Quartiles(x).1 <= b.1
  {
    var (q1, q3) := Quartiles(x);
    var iqr := q3 - q1;
    (if p.lowerCap.Some? then p.lowerCap.value else q1 - 1.5 * iqr,
     if p.upperCap.Some? then p.upperCap.value else q3 + 1.5 * iqr)
  }

  /** Clips a non-empty column to its IQR bounds. Without explicit caps no
      value between the quartiles moves. */
  function IqrCap(p: Capper, x: seq<real>): (r: seq<real>)
    ensures |r| == |x|
    ensures |x| > 0 && p.lowerCap.None? && p.upperCap.None? ==>
              forall i :: 0 <= i < |x| && Quartiles(x).0 <= x[i] <= Quartiles(x).1 ==> r[i] == x[i]
  {
    if |x| == 0 then [] else Clip(x, IqrBounds(p, x).0, IqrBounds(p, x).1)
  }

  // ------------------------------------------------------------------ zscore

  /** |z| > t for the i-th value, where z = (x - mean) / std with the
      population standard deviation, stated without the square root:
      |z| > t holds for every value when t < 0, and otherwise exactly when
      (x - mean)^2 > t^2 * variance. A column of zero variance has NaN
      z-scores, for which every comparison is false. */
  predicate AboveThreshold(x: seq<real>, i: int, t: real)
    requires 0 <= i < |x|
  {
    var m, v := Stats.Mean(x), Stats.Variance(x);
    v > 0.0 && (t < 0.0 || (x[i] - m) * (x[i] - m) > t * t * v)
  }

  /** |z| < -t for the i-th value: possible only when t < 0. */
  predicate BelowNegatedThreshold(x: seq<real>, i: int, t: real)
    requires 0 <= i < |x|
  {
    var m, v := Stats.Mean(x), Stats.Variance(x);
    v > 0.0 && t < 0.0 && (x[i] - m) * (x[i] - m) < t * t * v
  }

  function Abs(a: real): real {
    if a < 0.0 then -a else a
  }

  /** For non-negative a and b, squaring preserves and reflects order. */
  lemma SquareLess(a: real, b: real)
    requires a >= 0.0 && b >= 0.0
    ensures a * a > b * b <==> a > b
  {
    DiffSquares(a, b);
    if a > b {
      ProductPositive(a - b, a + b);
    } else {
      Stats.ProductNonNegative(b - a, a + b);
      assert (b - a) * (a + b) == -((a - b) * (a + b));
    }
  }

  lemma DiffSquares(a: real, b: real)
    ensures a * a - b * b == (a - b) * (a + b)
  {
  }

  lemma ProductPositive(a: real, b: real)
    requires a > 0.0 && b > 0.0
    ensures a * b > 0.0
  {
    calc {
      a * b;
    > { assert a > 0.0; }
      0.0 * b;
    ==
      0.0;
    }
  }

  /** With sd the population standard deviation (any non-negative square
      root of the variance), AboveThreshold is |x - mean| / sd > t: false
      for a zero deviation, whose z-scores are NaN, and otherwise the
      z-score comparison itself, for every threshold t. */
  lemma AboveThresholdIsAbsZ(x: seq<real>, i: int, t: real, sd: real)
    requires 0 <= i < |x| && sd >= 0.0 && sd * sd == Stats.Variance(x)
    ensures AboveThreshold(x, i, t) <==> sd > 0.0 && Abs(x[i] - Stats.Mean(x)) > t * sd
  {
    AboveCompare(x[i] - Stats.Mean(x), Stats.Variance(x), t, sd);
  }

  /** Likewise BelowNegatedThreshold is |x - mean| / sd < -t. */
  lemma BelowNegatedThresholdIsAbsZ(x: seq<real>, i: int, t: real, sd: real)
    requires 0 <= i < |x| && sd >= 0.0 && sd * sd == Stats.Variance(x)
    ensures BelowNegatedThreshold(x, i, t) <==> sd > 0.0 && Abs(x[i] - Stats.Mean(x)) < -t * sd
  {
    BelowCompare(x[i] - Stats.Mean(x), Stats.Variance(x), t, sd);
  }

  /** The squared comparison behind AboveThreshold, for a deviation d and a
      variance v = sd^2. */
  lemma AboveCompare(d: real, v: real, t: real, sd: real)
    requires sd >= 0.0 && v == sd * sd
    ensures (v > 0.0 && (t < 0.0 || d * d > t * t * v)) <==> sd > 0.0 && Abs(d) > t * sd
  {
    PositiveSquare(sd, v);
    if sd > 0.0 {
      if t < 0.0 {
        NegativeTimesPositive(t, sd);
      } else {
        ScaledSquareLess(d, t, sd, v);
      }
    }
  }

  /** The squared comparison behind BelowNegatedThreshold. */
  lemma BelowCompare(d: real, v: real, t: real, sd: real)
    requires sd >= 0.0 && v == sd * sd
    ensures (v > 0.0 && t < 0.0 && d * d < t * t * v) <==> sd > 0.0 && Abs(d) < -t * sd
  {
    PositiveSquare(sd, v);
    if sd > 0.0 {
      if t < 0.0 {
        ScaledSquareGreater(d, -t, sd, v);
        assert t * t == -t * -t;
      } else {
        Stats.ProductNonNegative(t, sd);
      }
    }
  }

  /** For s >= 0 and w = sd^2 with sd >= 0: d^2 > s^2 w iff |d| > s sd. */
  lemma ScaledSquareLess(d: real, s: real, sd: real, w: real)
    requires s >= 0.0 && sd >= 0.0 && w == sd * sd
    ensures d * d > s * s * w <==> Abs(d) > s * sd
  {
    var a, b := Abs(d), s * sd;
    Stats.ProductNonNegative(s, sd);
    assert d * d == a * a;
    assert s * s * w == b * b;
    SquareLess(a, b);
  }

  /** For s >= 0 and w = sd^2 with sd >= 0: d^2 < s^2 w iff |d| < s sd. */
  lemma ScaledSquareGreater(d: real, s: real, sd: real, w: real)
    requires s >= 0.0 && sd >= 0.0 && w == sd * sd
    ensures d * d < s * s * w <==> Abs(d) < s * sd
  {
    var a, b := Abs(d), s * sd;
    Stats.ProductNonNegative(s, sd);
    assert d * d == a * a;
    assert s * s * w == b * b;
    SquareLess(b, a);
  }

  /** A non-negative number has a positive square exactly when it is
      positive. */
  lemma PositiveSquare(a: real, v: real)
    requires a >= 0.0 && v == a * a
    ensures v > 0.0 <==> a > 0.0
  {
    if a > 0.0 {
      calc {
        v;
      ==
        a * a;
      > { assert a > 0.0; }
        0.0 * a;
      ==
        0.0;
      }
    } else {
      calc {
        v;
      ==
        a * a;
      == { assert a == 0.0; }
        0.0 * 0.0;
      }
    }
  }

  lemma NegativeTimesPositive(a: real, b: real)
    requires a < 0.0 && b > 0.0
    ensures a * b < 0.0
  {
    ProductPositive(-a, b);
    assert a * b == -((-a) * b);
  }

  /** Values with |z| < -t are set to -t, then values with |z| > t are set
      to t, both decided by the z-scores of the original column. The
      replacement is the threshold itself, in the column's own units. */
  function ZscoreCap(x: seq<real>, t: real): (r: seq<real>)
    ensures |r| == |x|
    ensures forall i :: 0 <= i < |x| ==> r[i] == x[i] || r[i] == t || r[i] == -t
    ensures forall i :: 0 <= i < |x| && r[i] != x[i] ==> Stats.Variance(x) > 0.0
    ensures t >= 0.0 ==> forall i :: 0 <= i < |x| && r[i] != x[i] ==> r[i] == t
  {
    seq(|x|, i requires 0 <= i < |x| =>
      if AboveThreshold(x, i, t) then t
      else if BelowNegatedThreshold(x, i, t) then -t
      else x[i])
  }

  // --------------------------------------------------------------- transform

  /** Caps one column; an unrecognised method returns it unchanged. */
  function CapColumn(p: Capper, x: seq<real>): (r: seq<real>)
    ensures |r| == |x|
    ensures p.methodName != "zscore" && p.methodName != "iqr" ==> r == x
    ensures p.methodName == "iqr" && |x| > 0 && IqrBounds(p, x).0 <= IqrBounds(p, x).1 ==>
              forall i :: 0 <= i < |x| ==> IqrBounds(p, x).0 <= r[i] <= IqrBounds(p, x).1
    ensures p.methodName == "iqr" && |x| > 0 ==>
              forall i :: 0 <= i < |x| && IqrBounds(p, x).0 <= x[i] <= IqrBounds(p, x).1 ==> r[i] == x[i]
    ensures p.methodName == "zscore" && p.threshold >= 0.0 ==>
              forall i :: 0 <= i < |x| ==> r[i] == (if AboveThreshold(x, i, p.threshold) then p.threshold else x[i])
  {
    if p.methodName == "zscore" then ZscoreCap(x, p.threshold)
    else if p.methodName == "iqr" then IqrCap(p, x)
    else x
  }

  /** Caps every column of a numeric matrix (given column by column), each
      from its own statistics. */
  function Transform(p: Capper, columns: seq<seq<real>>): (r: seq<seq<real>>)
    ensures |r| == |columns|
    ensures forall j :: 0 <= j < |columns| ==> |r[j]| == |columns[j]|
    ensures forall j :: 0 <= j < |columns| ==> r[j] == CapColumn(p, columns[j])
  {
    seq(|columns|, j requires 0 <= j < |columns| => CapColumn(p, columns[j]))
  }

  // ------------------------------------------------------------- properties

  /** With no explicit caps the bounds are Q1 - 1.5 IQR and Q3 + 1.5 IQR,
      they are ordered, and every capped value lies within them; values
      already inside are unchanged. */
  lemma IqrComputedBounds(p: Capper, x: seq<real>)
    requires p.methodName == "iqr" && p.lowerCap.None? && p.upperCap.None? && |x| > 0
    ensures var (q1, q3) := Quartiles(x);
            var (lo, hi) := IqrBounds(p, x);
            && lo == q1 - 1.5 * (q3 - q1) && hi == q3 + 1.5 * (q3 - q1)
            && lo <= q1 <= q3 <= hi
            && Stats.Min(x) <= q1 && q3 <= Stats.Max(x)
    ensures var (lo, hi) := IqrBounds(p, x);
            forall i :: 0 <= i < |x| ==> lo <= CapColumn(p, x)[i] <= hi
  {
    var s := Stats.Sort(x);
    QuartilesWithinRange(x);
  }

  /** The quartiles lie between the smallest and largest value. */
  lemma QuartilesWithinRange(x: seq<real>)
    requires |x| > 0
    ensures Stats.Min(x) <= Quartiles(x).0 && Quartiles(x).1 <= Stats.Max(x)
  {
    var s := Stats.Sort(x);
    assert s[0] in multiset(x) && s[|s| - 1] in multiset(x);
    assert s[0] in x && s[|s| - 1] in x;
  }

  /** The quartiles depend only on the values, not on their row order. */
  lemma QuartilesPermutation(xs: seq<real>, ys: seq<real>)
    requires |xs| > 0 && multiset(xs) == multiset(ys)
    ensures |ys| > 0 && Quartiles(xs) == Quartiles(ys)
  {
    assert |ys| == |multiset(ys)| == |multiset(xs)| == |xs|;
    Stats.SortPermutation(xs, ys);
  }

  /** An explicit cap replaces the computed bound on its own side only. */
  lemma IqrCapOverridesOneSide(p: Capper, x: seq<real>, c: real)
    requires |x| > 0
    ensures IqrBounds(p.(lowerCap := Some(c)), x) == (c, IqrBounds(p, x).1)
    ensures IqrBounds(p.(upperCap := Some(c)), x) == (IqrBounds(p, x).0, c)
  {
  }

  /** 'iqr' ignores the threshold: the multiplier is fixed at 1.5. */
  lemma IqrIgnoresThreshold(p: Capper, x: seq<real>, t: real)
    requires p.methodName == "iqr"
    ensures CapColumn(p.(threshold := t), x) == CapColumn(p, x)
  {
  }

  /** The worked example: [1, 2, 3, 4, 100] has Q1 = 2 and Q3 = 4, so the
      upper bound is 7 and only 100 is capped. */
  lemma IqrExample()
    ensures CapColumn(Capper("iqr", 1.5, None, None), [1.0, 2.0, 3.0, 4.0, 100.0]) == [1.0, 2.0, 3.0, 4.0, 7.0]
  {
    var p, x := Capper("iqr", 1.5, None, None), [1.0, 2.0, 3.0, 4.0, 100.0];
    SortedExample5();
    QuartilesOfSorted5(x);
    IqrBoundsOfQuartiles(p, x, 2.0, 4.0);
    IqrCapIsClip(p, x);
    Clip5(1.0, 2.0, 3.0, 4.0, 100.0, -1.0, 7.0);
  }

  // Proof step of IqrExample, kept separate so that each proof stays small.
  lemma SortedExample5()
    ensures Stats.Sorted([1.0, 2.0, 3.0, 4.0, 100.0])
  {
  }

  /** Without caps, the bounds follow from the quartiles alone. */
  lemma IqrBoundsOfQuartiles(p: Capper, x: seq<real>, q1: real, q3: real)
    requires p.lowerCap.None? && p.upperCap.None? && |x| > 0 && Quartiles(x) == (q1, q3)
    ensures IqrBounds(p, x) == (q1 - 1.5 * (q3 - q1), q3 + 1.5 * (q3 - q1))
  {
  }

  /** 'iqr' capping of a non-empty column is clipping to its bounds. */
  lemma IqrCapIsClip(p: Capper, x: seq<real>)
    requires p.methodName == "iqr" && |x| > 0
    ensures CapColumn(p, x) == Clip(x, IqrBounds(p, x).0, IqrBounds(p, x).1)
  {
  }

  /** Quartiles of five sorted values: the second and the fourth. */
  lemma QuartilesOfSorted5(s: seq<real>)
    requires |s| == 5 && Stats.Sorted(s)
    ensures Quartiles(s) == (s[1], s[3])
  {
    Stats.SortSorted(s);
    assert Stats.Rank(5, 25) == 1 && Stats.RankFraction(5, 25) == 0.0;
    assert Stats.Rank(5, 75) == 3 && Stats.RankFraction(5, 75) == 0.0;
  }

  // Clip unfolded on five values; a proof step of IqrExample.
  lemma Clip5(a: real, b: real, c: real, d: real, e: real, lo: real, hi: real)
    ensures Clip([a, b, c, d, e], lo, hi) ==
            [MinR(MaxR(a, lo), hi), MinR(MaxR(b, lo), hi), MinR(MaxR(c, lo), hi), MinR(MaxR(d, lo), hi), MinR(MaxR(e, lo), hi)]
  {
  }

  // Clip unfolded on four values; a proof step of IqrNotIdempotent.
  lemma Clip4(a: real, b: real, c: real, d: real, lo: real, hi: real)
    ensures Clip([a, b, c, d], lo, hi) ==
            [MinR(MaxR(a, lo), hi), MinR(MaxR(b, lo), hi), MinR(MaxR(c, lo), hi), MinR(MaxR(d, lo), hi)]
  {
  }

  /** 'iqr' capping is not idempotent: the quartiles are recomputed from the
      capped column and can move. [0, 100, 100, 100] caps to
      [37.5, 100, 100, 100], which caps again to [60.9375, 100, 100, 100]. */
  lemma IqrNotIdempotent()
    ensures var p := Capper("iqr", 1.5, None, None);
            && CapColumn(p, [0.0, 100.0, 100.0, 100.0]) == [37.5, 100.0, 100.0, 100.0]
            && CapColumn(p, [37.5, 100.0, 100.0, 100.0]) == [60.9375, 100.0, 100.0, 100.0]
  {
    IqrFirstPass();
    IqrSecondPass();
  }

  lemma IqrFirstPass()
    ensures CapColumn(Capper("iqr", 1.5, None, None), [0.0, 100.0, 100.0, 100.0]) == [37.5, 100.0, 100.0, 100.0]
  {
    var p, x := Capper("iqr", 1.5, None, None), [0.0, 100.0, 100.0, 100.0];
    SortedExample4(0.0);
    QuartilesOfSorted4(x);
    IqrBoundsOfQuartiles(p, x, 75.0, 100.0);
    IqrCapIsClip(p, x);
    Clip4(0.0, 100.0, 100.0, 100.0, 37.5, 137.5);
  }

  lemma IqrSecondPass()
    ensures CapColumn(Capper("iqr", 1.5, None, None), [37.5, 100.0, 100.0, 100.0]) == [60.9375, 100.0, 100.0, 100.0]
  {
    var p, x := Capper("iqr", 1.5, None, None), [37.5, 100.0, 100.0, 100.0];
    SortedExample4(37.5);
    QuartilesOfSorted4(x);
    IqrBoundsOfQuartiles(p, x, 84.375, 100.0);
    IqrCapIsClip(p, x);
    Clip4(37.5, 100.0, 100.0, 100.0, 60.9375, 123.4375);
  }

  // Proof step of IqrNotIdempotent, kept separate so that each proof stays small.
  lemma SortedExample4(a: real)
    requires a <= 100.0
    ensures Stats.Sorted([a, 100.0, 100.0, 100.0])
  {
  }

  /** Quartiles of four sorted values: Q1 sits 3/4 of the way from the
      first to the second, Q3 1/4 of the way from the third to the fourth. */
  lemma QuartilesOfSorted4(s: seq<real>)
    requires |s| == 4 && Stats.Sorted(s)
    ensures Quartiles(s) == (s[0] + 0.75 * (s[1] - s[0]), s[2] + 0.25 * (s[3] - s[2]))
  {
    QuartilesOfSorted(s);
    assert Stats.Rank(4, 25) == 0 && Stats.RankFraction(4, 25) == 0.75;
    assert Stats.Rank(4, 75) == 2 && Stats.RankFraction(4, 75) == 0.25;
    PercentileBetweenRanks(s, 25, 0, 0.75);
    PercentileBetweenRanks(s, 75, 2, 0.25);
  }

  /** A percentile whose rank k has a successor interpolates between the
      k-th and the next sorted value by the rank's fraction. */
  lemma PercentileBetweenRanks(s: seq<real>, p: nat, k: nat, f: real)
    requires |s| > 0 && Stats.Sorted(s) && p <= 100
    requires Stats.Rank(|s|, p) == k && k + 1 < |s| && Stats.RankFraction(|s|, p) == f
    ensures Stats.Percentile(s, p) == s[k] + f * (s[k + 1] - s[k])
  {
  }

  /** The quartiles of sorted values are read off the values themselves. */
  lemma QuartilesOfSorted(s: seq<real>)
    requires |s| > 0 && Stats.Sorted(s)
    ensures Quartiles(s) == (Stats.Percentile(s, 25), Stats.Percentile(s, 75))
  {
    Stats.SortSorted(s);
  }

  /** 'zscore' with a threshold t >= 0 replaces a value by t itself, never
      by -t, whatever the value's sign or the column's units; values within
      the threshold are unchanged. */
  lemma ZscoreReplacesWithThreshold(p: Capper, x: seq<real>, i: int)
    requires p.methodName == "zscore" && p.threshold >= 0.0 && 0 <= i < |x|
    ensures AboveThreshold(x, i, p.threshold) ==> CapColumn(p, x)[i] == p.threshold
    ensures !AboveThreshold(x, i, p.threshold) ==> CapColumn(p, x)[i] == x[i]
    ensures CapColumn(p, x)[i] == -p.threshold && p.threshold > 0.0 ==> x[i] == -p.threshold
    ensures !BelowNegatedThreshold(x, i, p.threshold)
  {
  }

  /** The capper built with no arguments, as the training pipeline builds it
      with method 'zscore' and threshold 3: a value is replaced by 3 exactly
      when its absolute z-score exceeds 3, and kept otherwise. */
  lemma DefaultCapperZscore(x: seq<real>)
    ensures DefaultCapper().methodName == "zscore" && DefaultCapper().threshold == 3.0
    ensures forall i :: 0 <= i < |x| ==>
              CapColumn(DefaultCapper(), x)[i] == (if AboveThreshold(x, i, 3.0) then 3.0 else x[i])
  {
    forall i | 0 <= i < |x|
      ensures CapColumn(DefaultCapper(), x)[i] == (if AboveThreshold(x, i, 3.0) then 3.0 else x[i])
    {
      ZscoreReplacesWithThreshold(DefaultCapper(), x, i);
    }
  }

  /** 'zscore' ignores the explicit caps. */
  lemma ZscoreIgnoresCaps(p: Capper, x: seq<real>, lower: Option<real>, upper: Option<real>)
    requires p.methodName == "zscore"
    ensures CapColumn(p.(lowerCap := lower, upperCap := upper), x) == CapColumn(p, x)
  {
  }

  /** A column whose values are all equal has zero variance, hence NaN
      z-scores, and 'zscore' leaves it unchanged. */
  lemma ZscoreConstantColumn(p: Capper, x: seq<real>, c: real)
    requires p.methodName == "zscore"
    requires forall i :: 0 <= i < |x| ==> x[i] == c
    ensures CapColumn(p, x) == x
  {
    if |x| > 0 {
      Stats.MeanBounds(x, c, c);
      Stats.SquaredDeviationConstant(x, c);
      assert Stats.Variance(x) == 0.0;
      assert forall i :: 0 <= i < |x| ==> CapColumn(p, x)[i] == x[i];
    }
  }

  /** With a negative threshold every z-score exceeds it, so a column of
      positive variance becomes the threshold everywhere. */
  lemma ZscoreNegativeThreshold(p: Capper, x: seq<real>)
    requires p.methodName == "zscore" && p.threshold < 0.0
    requires |x| > 0 && Stats.Variance(x) > 0.0
    ensures forall i :: 0 <= i < |x| ==> CapColumn(p, x)[i] == p.threshold
  {
  }

  /** The worked example: in [0, 0, -10] the value -10 has |z| = sqrt 2 > 1,
      so with threshold 1 it becomes 1: positive, and in z units rather
      than the column's. The zeros have |z| = sqrt 2 / 2 and stay. */
  lemma ZscoreExample()
    ensures CapColumn(Capper("zscore", 1.0, None, None), [0.0, 0.0, -10.0]) == [0.0, 0.0, 1.0]
  {
    var x := [0.0, 0.0, -10.0];
    ExampleMoments();
    var r := ZscoreCap(x, 1.0);
    assert AboveThreshold(x, 2, 1.0);
    assert !AboveThreshold(x, 0, 1.0) && !AboveThreshold(x, 1, 1.0);
    assert forall i | 0 <= i < 3 :: r[i] == [0.0, 0.0, 1.0][i];
  }

  /** A value exactly on the threshold stays: in [-1, 1] both values have
      |z| = 1, which does not exceed the threshold 1. */
  lemma ZscoreBoundaryExample()
    ensures CapColumn(Capper("zscore", 1.0, None, None), [-1.0, 1.0]) == [-1.0, 1.0]
  {
    var x := [-1.0, 1.0];
    assert x[1..] == [1.0] && x[1..][1..] == [];
    assert Stats.Mean(x) == 0.0;
    assert Stats.SquaredDeviation(x, 0.0) == 2.0;
    assert Stats.Variance(x) == 1.0;
    var r := ZscoreCap(x, 1.0);
    assert !AboveThreshold(x, 0, 1.0) && !AboveThreshold(x, 1, 1.0);
    assert forall i | 0 <= i < 2 :: r[i] == x[i];
  }

  /** With threshold 1.5, the -10 of [0, 0, -10] (|z| = sqrt 2) stays. */
  lemma ZscoreHigherThresholdExample()
    ensures CapColumn(Capper("zscore", 1.5, None, None), [0.0, 0.0, -10.0]) == [0.0, 0.0, -10.0]
  {
    var x := [0.0, 0.0, -10.0];
    ExampleMoments();
    var r := ZscoreCap(x, 1.5);
    assert !AboveThreshold(x, 0, 1.5) && !AboveThreshold(x, 1, 1.5) && !AboveThreshold(x, 2, 1.5);
    assert forall i | 0 <= i < 3 :: r[i] == x[i];
  }

  lemma ExampleMoments()
    ensures Stats.Mean([0.0, 0.0, -10.0]) == -10.0 / 3.0
    ensures Stats.Variance([0.0, 0.0, -10.0]) == 200.0 / 9.0
  {
    var x := [0.0, 0.0, -10.0];
    assert x[1..] == [0.0, -10.0] && x[1..][1..] == [-10.0] && x[1..][1..][1..] == [];
    assert Stats.Sum(x) == -10.0;
    var m := -10.0 / 3.0;
    assert Stats.SquaredDeviation(x, m) == 600.0 / 9.0;
  }

  /** Fitting stores nothing: a fitted capper transforms like the unfitted
      one, every column from its own statistics. */
  lemma FitStoresNothing(p: Capper, seen: seq<real>, columns: seq<seq<real>>)
    ensures Transform(Fit(p, seen), columns) == Transform(p, columns)
  {
  }
}
