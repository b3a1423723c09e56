/** The column statistics the core asks its numeric library for: median,
    mean, population variance and linearly interpolated percentiles, over
    exact reals. */
module Stats {

  predicate Sorted(s: seq<real>) {
    forall i, j :: 0 <= i < j < |s| ==> s[i] <= s[j]
  }

  /** Inserts `a` into the sorted `s` before the first element not below it. */
  function Insert(a: real, s: seq<real>): (r: seq<real>)
    requires Sorted(s)
    ensures Sorted(r)
    ensures multiset(r) == multiset(s) + multiset{a}
    ensures |r| == |s| + 1
    ensures |s| > 0 && a > s[0] ==> r[0] == s[0]
  {
    if |s| == 0 || a <= s[0] then [a] + s
    else
      var t := Insert(a, s[1..]);
      assert s == [s[0]] + s[1..];
      [s[0]] + t
  }

  /** Ascending order of the values of `s` (insertion sort). */
  function Sort(s: seq<real>): (r: seq<real>)
    ensures Sorted(r)
    ensures multiset(r) == multiset(s)
    ensures |r| == |s|
  {
    if |s| == 0 then []
    else
      assert s == [s[0]] + s[1..];
      Insert(s[0], Sort(s[1..]))
  }

  /** Sorting an already sorted column gives it back unchanged. */
  lemma {:induction false} SortSorted(s: seq<real>)
    requires Sorted(s)
    ensures Sort(s) == s
  {
    if |s| > 0 {
      SortSorted(s[1..]);
      assert s == [s[0]] + s[1..];
    }
  }

  /** The median of the values: the middle one of the sorted values, or the
      mean of the two middle ones when their count is even. It lies between
      two of the values. */
  function Median(xs: seq<real>): (m: real)
    requires |xs| > 0
    ensures exists i :: 0 <= i < |xs| && xs[i] <= m
    ensures exists j :: 0 <= j < |xs| && m <= xs[j]
  {
    var s := Sort(xs);
    var n := |s|;
    var lo := if n % 2 == 1 then s[n / 2] else s[n / 2 - 1];
    var hi := s[n / 2];
    assert lo <= hi;
    assert lo in multiset(xs) && hi in multiset(xs);
    Middle(s)
  }

  /** The middle value of `s`, or the mean of its two middle values when
      their count is even. */
  function Middle(s: seq<real>): real
    requires |s| > 0
  {
    if |s| % 2 == 1 then s[|s| / 2] else (s[|s| / 2 - 1] + s[|s| / 2]) / 2.0
  }

  /** The median of sorted values is read off their middle. */
  lemma MedianOfSorted(s: seq<real>)
    requires Sorted(s) && |s| > 0
    ensures |s| % 2 == 1 ==> Median(s) == s[|s| / 2]
    ensures |s| % 2 == 0 ==> Median(s) == (s[|s| / 2 - 1] + s[|s| / 2]) / 2.0
  {
    MedianIsMiddle(s);
  }

  /** Sorted sequences with the same values, counted with multiplicity,
      are equal: the sorted order of a multiset is unique. */
  lemma {:induction false} SortedUnique(a: seq<real>, b: seq<real>)
    requires Sorted(a) && Sorted(b) && multiset(a) == multiset(b)
    ensures a == b
  {
    if |a| > 0 {
      SameHead(a, b);
      SameTail(a, b);
      SortedUnique(a[1..], b[1..]);
      assert a == [a[0]] + a[1..] && b == [b[0]] + b[1..];
    } else {
      assert |multiset(b)| == 0;
    }
  }

  /** Sorted sequences with the same values start with the same value. */
  lemma SameHead(a: seq<real>, b: seq<real>)
    requires Sorted(a) && Sorted(b) && multiset(a) == multiset(b) && |a| > 0
    ensures |b| == |a| && a[0] == b[0]
  {
    assert |b| == |multiset(b)| == |a|;
    assert a[0] in multiset(b) && b[0] in multiset(a);
    var i :| 0 <= i < |b| && b[i] == a[0];
    var j :| 0 <= j < |a| && a[j] == b[0];
    assert b[0] <= b[i] && a[0] <= a[j];
  }

  /** Removing equal heads leaves equal multisets. */
  lemma SameTail(a: seq<real>, b: seq<real>)
    requires multiset(a) == multiset(b) && |a| > 0 && |b| > 0 && a[0] == b[0]
    ensures multiset(a[1..]) == multiset(b[1..])
  {
    assert a == [a[0]] + a[1..] && b == [b[0]] + b[1..];
    var ta, tb := multiset(a[1..]), multiset(b[1..]);
    assert multiset(a) == multiset{a[0]} + ta;
    assert multiset(b) == multiset{a[0]} + tb;
    forall v
      ensures ta[v] == tb[v]
    {
      assert multiset(a)[v] == multiset{a[0]}[v] + ta[v];
      assert multiset(b)[v] == multiset{a[0]}[v] + tb[v];
    }
  }


  /** Sorting depends only on the values, not on their order. */
  lemma SortPermutation(xs: seq<real>, ys: seq<real>)
    requires multiset(xs) == multiset(ys)
    ensures Sort(xs) == Sort(ys)
  {
    SortedUnique(Sort(xs), Sort(ys));
  }

  /** The median depends only on the values, not on their row order: it is
      the median of the sorted values, which MedianOfSorted reads off. */
  lemma MedianPermutation(xs: seq<real>, ys: seq<real>)
    requires |xs| > 0 && multiset(xs) == multiset(ys)
    ensures |ys| > 0 && Median(xs) == Median(ys)
  {
    assert |ys| == |multiset(ys)| == |multiset(xs)| == |xs|;
    SortPermutation(xs, ys);
  }

  /** The median of any values is the median of the same values sorted. */
  lemma MedianOfSort(xs: seq<real>)
    requires |xs| > 0
    ensures Median(xs) == Median(Sort(xs))
  {
    SortPermutation(xs, Sort(xs));
    MedianPermutation(xs, Sort(xs));
  }

  /** The median of three values listed as [largest, smallest, middle] is
      the middle value, not the middle row. */
  lemma MedianOfThree(a: real, b: real, c: real)
    requires b <= c <= a
    ensures Median([a, b, c]) == c
  {
    var xs, s := [a, b, c], [b, c, a];
    RotateThree(a, b, c);
    MedianPermutation(xs, s);
    MedianOfSortedThree(b, c, a);
  }

  lemma MedianOfSortedThree(x: real, y: real, z: real)
    requires x <= y <= z
    ensures Median([x, y, z]) == y
  {
    var s := [x, y, z];
    assert Sorted(s);
    MedianIsMiddle(s);
    MiddleOfThree(x, y, z);
  }

  lemma MiddleOfThree(x: real, y: real, z: real)
    ensures Middle([x, y, z]) == y
  {
  }

  /** On sorted values the median is the middle. */
  lemma MedianIsMiddle(s: seq<real>)
    requires Sorted(s) && |s| > 0
    ensures Median(s) == Middle(s)
  {
    SortSorted(s);
  }

  lemma RotateThree(a: real, b: real, c: real)
    requires b <= c <= a
    ensures multiset([a, b, c]) == multiset([b, c, a])
    ensures Sorted([b, c, a])
  {
    RotateThreeMultiset(a, b, c);
  }

  lemma RotateThreeMultiset(a: real, b: real, c: real)
    ensures multiset([a, b, c]) == multiset([b, c, a])
  {
    assert multiset([a, b, c]) == multiset{a, b, c};
    assert multiset([b, c, a]) == multiset{b, c, a};
  }

  /** The median of [3, 1, 2] is 2. */
  lemma MedianUnsortedExample()
    ensures Median([3.0, 1.0, 2.0]) == 2.0
  {
    MedianOfThree(3.0, 1.0, 2.0);
  }

  function Sum(xs: seq<real>): real {
    if |xs| == 0 then 0.0 else xs[0] + Sum(xs[1..])
  }

  function Min(xs: seq<real>): (m: real)
    requires |xs| > 0
    ensures m in xs
    ensures forall i :: 0 <= i < |xs| ==> m <= xs[i]
  {
    if |xs| == 1 then xs[0]
    else
      var m := Min(xs[1..]);
      assert forall i :: 1 <= i < |xs| ==> xs[i] == xs[1..][i - 1];
      if xs[0] <= m then xs[0] else m
  }

  function Max(xs: seq<real>): (m: real)
    requires |xs| > 0
    ensures m in xs
    ensures forall i :: 0 <= i < |xs| ==> xs[i] <= m
  {
    if |xs| == 1 then xs[0]
    else
      var m := Max(xs[1..]);
      assert forall i :: 1 <= i < |xs| ==> xs[i] == xs[1..][i - 1];
      if xs[0] >= m then xs[0] else m
  }

  /** A sum of values all within [lo, hi] lies within [n * lo, n * hi]. */
  lemma {:induction false} SumBounds(xs: seq<real>, lo: real, hi: real)
    requires forall i :: 0 <= i < |xs| ==> lo <= xs[i] <= hi
    ensures |xs| as real * lo <= Sum(xs) <= |xs| as real * hi
  {
    if |xs| > 0 {
      assert forall i :: 0 <= i < |xs[1..]| ==> xs[1..][i] == xs[i + 1];
      SumBounds(xs[1..], lo, hi);
      var n := |xs[1..]| as real;
      assert |xs| as real * lo == n * lo + lo && |xs| as real * hi == n * hi + hi;
      assert Sum(xs) == xs[0] + Sum(xs[1..]);
    }
  }

  /** The arithmetic mean of the values. */
  function Mean(xs: seq<real>): real
    requires |xs| > 0
  {
    Sum(xs) / |xs| as real
  }

  lemma QuotientBounds(s: real, n: real, lo: real, hi: real)
    requires n > 0.0 && n * lo <= s <= n * hi
    ensures lo <= s / n <= hi
  {
    var q := s / n;
    assert s == n * q;
  }

  /** The mean of values all within [lo, hi] is within [lo, hi] too. */
  lemma MeanBounds(xs: seq<real>, lo: real, hi: real)
    requires |xs| > 0
    requires forall i :: 0 <= i < |xs| ==> lo <= xs[i] <= hi
    ensures lo <= Mean(xs) <= hi
  {
    var n := |xs| as real;
    SumBounds(xs, lo, hi);
    QuotientBounds(Sum(xs), n, lo, hi);
  }

  /** The mean lies between the smallest and the largest value. */
  lemma MeanBetweenMinAndMax(xs: seq<real>)
    requires |xs| > 0
    ensures Min(xs) <= Mean(xs) <= Max(xs)
  {
    MeanBounds(xs, Min(xs), Max(xs));
  }

  lemma ProductNonNegative(a: real, b: real)
    requires a >= 0.0 && b >= 0.0
    ensures a * b >= 0.0
  {
  }

  lemma SquareNonNegative(a: real)
    ensures a * a >= 0.0
  {
    if a < 0.0 {
      ProductNonNegative(-a, -a);
    } else {
      ProductNonNegative(a, a);
    }
  }

  /** Sum of squared deviations from `m`. */
  function SquaredDeviation(xs: seq<real>, m: real): (d: real)
    ensures d >= 0.0
  {
    if |xs| == 0 then 0.0
    else
      SquareNonNegative(xs[0] - m);
      (xs[0] - m) * (xs[0] - m) + SquaredDeviation(xs[1..], m)
  }

  /** Population variance (degrees of freedom 0), as the z-score uses. */
  function Variance(xs: seq<real>): (v: real)
    requires |xs| > 0
    ensures v >= 0.0
  {
    SquaredDeviation(xs, Mean(xs)) / |xs| as real
  }

  /** A constant column has variance 0. */
  lemma {:induction false} SquaredDeviationConstant(xs: seq<real>, m: real)
    requires forall i :: 0 <= i < |xs| ==> xs[i] == m
    ensures SquaredDeviation(xs, m) == 0.0
  {
    if |xs| > 0 {
      SquaredDeviationConstant(xs[1..], m);
    }
  }

  /** a + f * (b - a): the point at fraction f of the way from a to b. */
  function Lerp(a: real, b: real, f: real): real {
    a + f * (b - a)
  }

  lemma LerpBetween(a: real, b: real, f: real)
    requires a <= b && 0.0 <= f <= 1.0
    ensures a <= Lerp(a, b, f) <= b
  {
    ProductNonNegative(f, b - a);
    ProductNonNegative(1.0 - f, b - a);
    assert (b - a) - f * (b - a) == (1.0 - f) * (b - a);
  }

  lemma LerpMonotone(a: real, b: real, f: real, g: real)
    requires a <= b && f <= g
    ensures Lerp(a, b, f) <= Lerp(a, b, g)
  {
    ProductNonNegative(g - f, b - a);
    assert g * (b - a) - f * (b - a) == (g - f) * (b - a);
  }

  /** The zero-based position of the element at or just below the p-th
      percentile of n values: the floor of (n - 1) * p / 100. */
  function Rank(n: nat, p: nat): (k: nat)
    requires n > 0 && p <= 100
    ensures k < n
  {
    assert (n - 1) * p <= (n - 1) * 100 by {
      ProductNonNegativeInt(n - 1, 100 - p);
      assert (n - 1) * 100 - (n - 1) * p == (n - 1) * (100 - p);
    }
    (n - 1) * p / 100
  }

  /** The fractional part of (n - 1) * p / 100. */
  function RankFraction(n: nat, p: nat): (f: real)
    requires n > 0 && p <= 100
    ensures 0.0 <= f < 1.0
  {
    ((n - 1) * p % 100) as real / 100.0
  }

  /** The p-th percentile of sorted values by linear interpolation between
      the two closest ranks. */
  function Percentile(s: seq<real>, p: nat): (v: real)
    requires Sorted(s) && |s| > 0 && p <= 100
    ensures s[0] <= v <= s[|s| - 1]
  {
    var k := Rank(|s|, p);
    var f := RankFraction(|s|, p);
    if k + 1 < |s| then
      LerpBetween(s[k], s[k + 1], f);
      Lerp(s[k], s[k + 1], f)
    else s[k]
  }

  lemma RankMonotone(n: nat, p: nat, q: nat)
    requires n > 0 && p <= q <= 100
    ensures Rank(n, p) <= Rank(n, q)
    ensures Rank(n, p) == Rank(n, q) ==> RankFraction(n, p) <= RankFraction(n, q)
  {
    var a, b := (n - 1) * p, (n - 1) * q;
    assert a <= b by {
      ProductNonNegativeInt(n - 1, q - p);
      assert b - a == (n - 1) * (q - p);
    }
    DivMonotone(a, b);
  }

  lemma ProductNonNegativeInt(a: nat, b: nat)
    ensures a * b >= 0
  {
  }

  lemma DivMonotone(a: nat, b: nat)
    requires a <= b
    ensures a / 100 <= b / 100
    ensures a / 100 == b / 100 ==> a % 100 <= b % 100
  {
    assert a == 100 * (a / 100) + a % 100;
    assert b == 100 * (b / 100) + b % 100;
  }

  /** A higher percentile of the same sorted values is never smaller. */
  lemma PercentileMonotone(s: seq<real>, p: nat, q: nat)
    requires Sorted(s) && |s| > 0 && p <= q <= 100
    ensures Percentile(s, p) <= Percentile(s, q)
  {
    var n := |s|;
    var kp, kq := Rank(n, p), Rank(n, q);
    var fp, fq := RankFraction(n, p), RankFraction(n, q);
    RankMonotone(n, p, q);
    if kp == kq {
      if kp + 1 < n {
        LerpMonotone(s[kp], s[kp + 1], fp, fq);
      }
    } else {
      assert kp + 1 < n;
      LerpBetween(s[kp], s[kp + 1], fp);
      assert Percentile(s, p) <= s[kp + 1] <= s[kq];
      if kq + 1 < n {
        LerpBetween(s[kq], s[kq + 1], fq);
      }
    }
  }
}
