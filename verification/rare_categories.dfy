/** Collapsing of rare building classes: every value of the 'MSSubClass'
    column seen fewer than 20 times in the column becomes the text 'Other'.
    Counts are taken once over the whole original column; missing cells
    are never counted, so they are never rare. */
module RareCategories {
  import opened Frames

  /** The column that is collapsed. */
  const ClassColumn: string := "MSSubClass"

  /** A value is rare when it is seen fewer than this many times. */
  const RareBelow: nat := 20

  /** The label that replaces every rare value. */
  const Other: Cell := Str("Other")

  /** `v` is one of the rare values of `col`: present, and counted fewer
      than RareBelow times. */
  predicate IsRare(col: Column, v: Cell) {
    !v.Missing? && Count(col, v) < RareBelow
  }

  /** Replaces every cell holding a rare value of `col` by Other. */
  function Relabel(col: Column): (r: Column)
    ensures |r| == |col|
    ensures forall i :: 0 <= i < |col| && !col[i].Missing? && Count(col, col[i]) < RareBelow ==> r[i] == Other
    ensures forall i :: 0 <= i < |col| && Count(col, col[i]) >= RareBelow ==> r[i] == col[i]
    ensures forall i :: 0 <= i < |col| && col[i].Missing? ==> r[i].Missing?
    ensures forall i :: 0 <= i < |col| ==> r[i] == col[i] || r[i] == Other
  {
    seq(|col|, i requires 0 <= i < |col| => if IsRare(col, col[i]) then Other else col[i])
  }

  /** Collapses the rare values of the class column; every other column,
      the column order and the row count stay as they are. A frame without
      the class column raises KeyError. */
  function HandleRareCategories(f: Frame): (r: Result<Frame>)
    ensures r.Err? <==> ClassColumn !in f.cols
    ensures r.Err? ==> r.error == KeyError(ClassColumn)
    ensures r.Ok? ==> SameOutside(f, r.value, {ClassColumn})
    ensures r.Ok? ==> r.value.cols[ClassColumn] == Relabel(f.cols[ClassColumn])
    ensures r.Ok? && Valid(f) ==> Valid(r.value)
  {
    if ClassColumn !in f.cols then Err(KeyError(ClassColumn))
    else Ok(f.(cols := f.cols[ClassColumn := Relabel(f.cols[ClassColumn])]))
  }

  // ------------------------------------------------------------- counting

  /** A column that keeps every occurrence of `v` has at least as many. */
  lemma {:induction false} CountKept(a: Column, b: Column, v: Cell)
    requires |a| == |b|
    requires forall i :: 0 <= i < |a| && a[i] == v ==> b[i] == v
    ensures Count(a, v) <= Count(b, v)
  {
    if |a| > 0 {
      CountKept(a[1..], b[1..], v);
    }
  }

  /** Two columns holding `v` at exactly the same rows count it equally. */
  lemma CountSameRows(a: Column, b: Column, v: Cell)
    requires |a| == |b|
    requires forall i :: 0 <= i < |a| ==> (a[i] == v <==> b[i] == v)
    ensures Count(a, v) == Count(b, v)
  {
    CountKept(a, b, v);
    CountKept(b, a, v);
  }

  lemma {:induction false} CountAppend(a: Column, b: Column, v: Cell)
    ensures Count(a + b, v) == Count(a, v) + Count(b, v)
  {
    if |a| > 0 {
      assert (a + b)[0] == a[0] && (a + b)[1..] == a[1..] + b;
      CountAppend(a[1..], b, v);
    } else {
      assert a + b == b;
    }
  }

  /** A column of n copies of `v`. */
  function Repeat(n: nat, v: Cell): (r: Column)
    ensures |r| == n
    ensures forall i :: 0 <= i < n ==> r[i] == v
  {
    if n == 0 then [] else [v] + Repeat(n - 1, v)
  }

  lemma {:induction false} CountRepeat(n: nat, v: Cell, w: Cell)
    ensures Count(Repeat(n, v), w) == if v == w then n else 0
  {
    if n > 0 {
      assert Repeat(n, v)[1..] == Repeat(n - 1, v);
      CountRepeat(n - 1, v, w);
    }
  }

  // ----------------------------------------------------------- properties

  /** A frequent value other than Other keeps exactly its rows, hence its
      count. */
  lemma FrequentKeepsCount(col: Column, v: Cell)
    requires v != Other && Count(col, v) >= RareBelow
    ensures Count(Relabel(col), v) == Count(col, v)
  {
    var r := Relabel(col);
    forall i | 0 <= i < |col|
      ensures r[i] == v <==> col[i] == v
    {
      if col[i] == v {
        assert r[i] == col[i];
      }
    }
    CountSameRows(col, r, v);
  }

  /** After collapsing, no value other than Other is rare. */
  lemma NoRareLeft(col: Column, i: int)
    requires 0 <= i < |col|
    ensures var r := Relabel(col); IsRare(r, r[i]) ==> r[i] == Other
  {
    var r := Relabel(col);
    if r[i] != Other && !r[i].Missing? {
      assert r[i] == col[i] && !IsRare(col, col[i]);
      FrequentKeepsCount(col, col[i]);
    }
  }

  /** Collapsing twice is collapsing once. */
  lemma RelabelIdempotent(col: Column)
    ensures Relabel(Relabel(col)) == Relabel(col)
  {
    var r := Relabel(col);
    var rr := Relabel(r);
    forall i | 0 <= i < |r|
      ensures rr[i] == r[i]
    {
      NoRareLeft(col, i);
    }
  }

  /** The frame-level collapse is idempotent too. */
  lemma HandleRareCategoriesIdempotent(f: Frame)
    requires HandleRareCategories(f).Ok?
    ensures HandleRareCategories(HandleRareCategories(f).value) == HandleRareCategories(f)
  {
    var g := HandleRareCategories(f).value;
    RelabelIdempotent(f.cols[ClassColumn]);
    assert g.cols[ClassColumn := Relabel(g.cols[ClassColumn])] == g.cols;
  }

  /** Other appears in the result exactly when the column held a rare
      value or already held Other. */
  lemma OtherAppears(col: Column)
    ensures Other in Relabel(col) <==> Other in col || exists i :: 0 <= i < |col| && IsRare(col, col[i])
  {
    var r := Relabel(col);
    if Other in r {
      var i :| 0 <= i < |r| && r[i] == Other;
      assert col[i] == Other || IsRare(col, col[i]);
    }
    if Other in col {
      var i :| 0 <= i < |col| && col[i] == Other;
      assert r[i] == Other;
    }
  }

  /** A value seen exactly RareBelow times is not rare: the threshold is
      strict. */
  lemma ThresholdIsStrict(col: Column, i: int)
    requires 0 <= i < |col| && Count(col, col[i]) == RareBelow
    ensures Relabel(col)[i] == col[i]
    ensures !IsRare(col, col[i])
  {
  }

  /** Counting in m copies of `u`, n copies of `w` and a missing cell. */
  lemma CountOfTwo(u: Cell, w: Cell, m: nat, n: nat, v: Cell)
    requires u != w && !v.Missing?
    ensures Count(Repeat(m, u) + Repeat(n, w) + [Missing], v) == (if v == u then m else 0) + (if v == w then n else 0)
  {
    var a, b := Repeat(m, u), Repeat(n, w);
    var gap: Column := [Missing];
    assert Count(gap, v) == 0 by {
      assert gap[1..] == [];
    }
    CountAppend(a + b, gap, v);
    CountAppend(a, b, v);
    CountRepeat(m, u, v);
    CountRepeat(n, w, v);
    assert Count(a + b + gap, v) == Count(a, v) + Count(b, v);
  }

  /** A class seen m < 20 times is collapsed, one seen n >= 20 times is
      kept, and a missing cell stays missing. */
  lemma TwoClasses(u: Cell, w: Cell, m: nat, n: nat)
    requires u != w && !u.Missing? && !w.Missing?
    requires m < RareBelow <= n
    ensures Relabel(Repeat(m, u) + Repeat(n, w) + [Missing]) == Repeat(m, Other) + Repeat(n, w) + [Missing]
  {
    var a, b := Repeat(m, u), Repeat(n, w);
    var col := a + b + [Missing];
    CountOfTwo(u, w, m, n, u);
    CountOfTwo(u, w, m, n, w);
    var expected := Repeat(m, Other) + b + [Missing];
    var r := Relabel(col);
    forall i | 0 <= i < |col|
      ensures r[i] == expected[i]
    {
      if i < m {
        assert col[i] == u && expected[i] == Other;
      } else if i < m + n {
        assert col[i] == w && expected[i] == w;
      }
    }
  }
}
