/** An in-memory table of named columns, the value every transform of the
    preprocessing core copies and rewrites. A transform never mutates its
    input: every operation below is a pure function returning a new frame. */
module Frames {

  datatype Option<+T> = None | Some(value: T)

  /** One cell: a missing value (NaN / None), a number, or a text value. */
  datatype Cell = Missing | Num(x: real) | Str(s: string)

  type Column = seq<Cell>

  /** The errors the core raises. */
  datatype Error =
    | KeyError(column: string)            // a named column is not in the frame
    | MissingFillValue                    // method 'constant' without a fill value
    | UnsupportedMethod(name: string)     // an unknown fill method name
    | NonNumericColumn(column: string)    // median/mean asked of a column holding text
    | EmptyMode                           // the per-column modes have no first row
    | NoFeatureNames                      // feature names asked for before any transform

  datatype Result<+T> = Ok(value: T) | Err(error: Error)

  /** Column names in frame order, the columns by name, and the row count. */
  datatype Frame = Frame(names: seq<string>, cols: map<string, Column>, rows: nat)

  predicate Distinct(s: seq<string>) {
    forall i, j :: 0 <= i < j < |s| ==> s[i] != s[j]
  }

  /** Column names are unique, name the columns exactly, and every column
      has one cell per row. */
  ghost predicate Valid(f: Frame) {
    && Distinct(f.names)
    && (forall c :: c in f.cols <==> c in f.names)
    && (forall c :: c in f.cols ==> |f.cols[c]| == f.rows)
  }

  /** `b` has the same names, rows and columns as `a`, except possibly the
      columns named in `touched`. */
  predicate SameOutside(a: Frame, b: Frame, touched: set<string>) {
    && b.names == a.names
    && b.rows == a.rows
    && b.cols.Keys == a.cols.Keys
    && (forall c :: c in a.cols && c !in touched ==> b.cols[c] == a.cols[c])
  }

  function AsSet(s: seq<string>): set<string> {
    set x | x in s
  }

  /** The first of `keys` that is not a column of `f`: the column whose
      lookup raises KeyError. */
  function FirstAbsent(keys: seq<string>, f: Frame): (r: Option<string>)
    ensures r.None? <==> forall i :: 0 <= i < |keys| ==> keys[i] in f.cols
    ensures r.Some? ==> exists i :: 0 <= i < |keys| && keys[i] == r.value && keys[i] !in f.cols
                                    && forall j :: 0 <= j < i ==> keys[j] in f.cols
  {
    if |keys| == 0 then None
    else if keys[0] !in f.cols then Some(keys[0])
    else
      var r := FirstAbsent(keys[1..], f);
      if r.Some? then
        ghost var i :| 0 <= i < |keys[1..]| && keys[1..][i] == r.value && keys[1..][i] !in f.cols
                       && forall j :: 0 <= j < i ==> keys[1..][j] in f.cols;
        assert keys[i + 1] == r.value;
        r
      else r
  }

  /** Number of cells of `col` equal to `v`. */
  function Count(col: Column, v: Cell): (n: nat)
    ensures n <= |col|
    ensures n > 0 <==> v in col
  {
    if |col| == 0 then 0
    else (if col[0] == v then 1 else 0) + Count(col[1..], v)
  }

  predicate NoMissing(col: Column) {
    forall i :: 0 <= i < |col| ==> !col[i].Missing?
  }

  predicate HasText(col: Column) {
    exists i :: 0 <= i < |col| && col[i].Str?
  }

  /** The numbers of a column, in row order, skipping missing and text cells. */
  function Numbers(col: Column): (xs: seq<real>)
    ensures |xs| <= |col|
    ensures forall k :: 0 <= k < |xs| ==> Num(xs[k]) in col
    ensures forall i :: 0 <= i < |col| && col[i].Num? ==> col[i].x in xs
    ensures forall v :: multiset(xs)[v] == Count(col, Num(v))
  {
    if |col| == 0 then []
    else
      var rest := Numbers(col[1..]);
      assert forall i :: 1 <= i < |col| ==> col[i] == col[1..][i - 1];
      if col[0].Num? then [col[0].x] + rest else rest
  }
}
