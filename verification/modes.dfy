/** The most frequent value of a column, with ties broken the way the
    per-column mode is reported: the modes come out sorted and the first
    one is taken. */
module Modes {
  import opened Frames

  /** Lexicographic order on strings, character by character; a proper
      prefix comes first. */
  predicate StrLess(a: string, b: string)
    decreases |a|
  {
    if |a| == 0 then |b| > 0
    else if |b| == 0 then false
    else a[0] < b[0] || (a[0] == b[0] && StrLess(a[1..], b[1..]))
  }

  lemma {:induction false} StrLessIrreflexive(a: string)
    ensures !StrLess(a, a)
    decreases |a|
  {
    if |a| > 0 {
      StrLessIrreflexive(a[1..]);
    }
  }

  lemma {:induction false} StrLessTransitive(a: string, b: string, c: string)
    requires StrLess(a, b) && StrLess(b, c)
    ensures StrLess(a, c)
    decreases |a|
  {
    if |a| > 0 && a[0] == b[0] && b[0] == c[0] {
      StrLessTransitive(a[1..], b[1..], c[1..]);
    }
  }

  lemma {:induction false} StrLessTotal(a: string, b: string)
    requires a != b
    ensures StrLess(a, b) || StrLess(b, a)
    decreases |a|
  {
    if |a| > 0 && |b| > 0 && a[0] == b[0] {
      assert a == [a[0]] + a[1..] && b == [b[0]] + b[1..];
      StrLessTotal(a[1..], b[1..]);
    }
  }

  /** The order in which present values are sorted: numbers by value, then
      text in lexicographic order. Missing is never ordered. */
  predicate CellLess(a: Cell, b: Cell) {
    match (a, b)
    case (Num(x), Num(y)) => x < y
    case (Num(_), Str(_)) => true
    case (Str(s), Str(t)) => StrLess(s, t)
    case _ => false
  }

  lemma CellLessIrreflexive(a: Cell)
    ensures !CellLess(a, a)
  {
    if a.Str? {
      StrLessIrreflexive(a.s);
    }
  }

  lemma CellLessTransitive(a: Cell, b: Cell, c: Cell)
    requires CellLess(a, b) && CellLess(b, c)
    ensures CellLess(a, c)
  {
    if a.Str? {
      StrLessTransitive(a.s, b.s, c.s);
    }
  }

  lemma CellLessTotal(a: Cell, b: Cell)
    requires !a.Missing? && !b.Missing? && a != b
    ensures CellLess(a, b) || CellLess(b, a)
  {
    if a.Str? && b.Str? {
      StrLessTotal(a.s, b.s);
    }
  }

  /** `a` is reported before `b` among the values of `col`: it is more
      frequent, or as frequent and sorted first. */
  predicate Before(col: Column, a: Cell, b: Cell) {
    Count(col, a) > Count(col, b) || (Count(col, a) == Count(col, b) && CellLess(a, b))
  }

  /** `m` is a mode of `col`: present, and no present value is more frequent. */
  predicate IsMode(col: Column, m: Cell) {
    && m in col
    && !m.Missing?
    && forall i :: 0 <= i < |col| && !col[i].Missing? ==> Count(col, col[i]) <= Count(col, m)
  }

  /** The value of `cands` reported first among the values of `col`. */
  function FirstOf(col: Column, cands: seq<Cell>): (r: Option<Cell>)
    ensures r.None? <==> forall i :: 0 <= i < |cands| ==> cands[i].Missing?
    ensures r.Some? ==> r.value in cands && !r.value.Missing?
    ensures r.Some? ==> forall i :: 0 <= i < |cands| && !cands[i].Missing? ==>
                          cands[i] == r.value || Before(col, r.value, cands[i])
  {
    if |cands| == 0 then None
    else
      var c := cands[0];
      var rest := FirstOf(col, cands[1..]);
      assert forall i :: 1 <= i < |cands| ==> cands[i] == cands[1..][i - 1];
      if c.Missing? then rest
      else if rest.None? then Some(c)
      else if Before(col, c, rest.value) then
        BeforeTransitiveFrom(col, c, rest.value, cands[1..]);
        Some(c)
      else if c == rest.value then rest
      else
        BeforeTotal(col, c, rest.value);
        rest
  }

  lemma BeforeTotal(col: Column, a: Cell, b: Cell)
    requires !a.Missing? && !b.Missing? && a != b
    ensures Before(col, a, b) || Before(col, b, a)
  {
    CellLessTotal(a, b);
  }

  lemma BeforeTransitiveFrom(col: Column, a: Cell, b: Cell, cands: seq<Cell>)
    requires Before(col, a, b)
    requires forall i :: 0 <= i < |cands| && !cands[i].Missing? ==> cands[i] == b || Before(col, b, cands[i])
    ensures forall i :: 0 <= i < |cands| && !cands[i].Missing? ==> Before(col, a, cands[i])
  {
    forall i | 0 <= i < |cands| && !cands[i].Missing?
      ensures Before(col, a, cands[i])
    {
      if cands[i] != b && Count(col, a) == Count(col, cands[i]) {
        CellLessTransitive(a, b, cands[i]);
      }
    }
  }

  /** The first sorted mode of `col`, or None when every cell is missing.
      It is a mode, and it sorts before every other mode. */
  function Mode(col: Column): (r: Option<Cell>)
    ensures r.None? <==> NoPresent(col)
    ensures r.Some? ==> IsMode(col, r.value)
    ensures r.Some? ==> forall i :: 0 <= i < |col| && IsMode(col, col[i]) ==>
                          col[i] == r.value || CellLess(r.value, col[i])
  {
    FirstOf(col, col)
  }

  predicate NoPresent(col: Column) {
    forall i :: 0 <= i < |col| ==> col[i].Missing?
  }

  /** The first sorted mode is the only value that is a mode and sorts
      before every other mode. */
  lemma ModeUnique(col: Column, m: Cell)
    requires IsMode(col, m)
    requires forall i :: 0 <= i < |col| && IsMode(col, col[i]) ==> col[i] == m || CellLess(m, col[i])
    ensures Mode(col) == Some(m)
  {
    var i :| 0 <= i < |col| && col[i] == m;
    var r := Mode(col);
    assert r.Some?;
    var k :| 0 <= k < |col| && col[k] == r.value;
    if r.value != m {
      assert IsMode(col, r.value);
      assert CellLess(m, r.value);
      assert CellLess(r.value, m);
      CellLessTransitive(m, r.value, m);
      CellLessIrreflexive(m);
    }
  }
}
