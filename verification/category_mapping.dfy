/** Table-driven recoding of categorical columns. Each (column, table)
    pair of the mappings, in order, replaces the named column cell by cell
    with the table's value for that cell; a cell that is not a key of the
    table becomes missing. A mapped column absent from the frame raises
    KeyError, and the partly rewritten copy is discarded. */
module CategoryMapping {
  import opened Frames

  /** One column's lookup table. */
  type Table = map<Cell, Cell>

  /** The mappings in iteration order: column name and its table. */
  type Mappings = seq<(string, Table)>

  /** The column names the mappings rewrite, in order. */
  function Keys(ms: Mappings): (ks: seq<string>)
    ensures |ks| == |ms|
    ensures forall k :: 0 <= k < |ms| ==> ks[k] == ms[k].0
  {
    seq(|ms|, k requires 0 <= k < |ms| => ms[k].0)
  }

  /** Looks every cell of `col` up in `t`; a cell with no entry becomes
      missing. */
  function MapColumn(col: Column, t: Table): (r: Column)
    ensures |r| == |col|
    ensures forall i :: 0 <= i < |col| && col[i] in t ==> r[i] == t[col[i]]
    ensures forall i :: 0 <= i < |col| && col[i] !in t ==> r[i].Missing?
  {
    seq(|col|, i requires 0 <= i < |col| => if col[i] in t then t[col[i]] else Missing)
  }

  /** Rewrites the mapped columns one after another. */
  function MapAndConvert(f: Frame, ms: Mappings): (r: Result<Frame>)
    ensures r.Err? <==> FirstAbsent(Keys(ms), f).Some?
    ensures r.Err? ==> r.error == KeyError(FirstAbsent(Keys(ms), f).value)
    ensures r.Ok? ==> SameOutside(f, r.value, AsSet(Keys(ms)))
    decreases |ms|
  {
    if |ms| == 0 then Ok(f)
    else
      var (key, t) := ms[0];
      if key !in f.cols then Err(KeyError(key))
      else
        var g := f.(cols := f.cols[key := MapColumn(f.cols[key], t)]);
        var r := MapAndConvert(g, ms[1..]);
        assert Keys(ms) == [key] + Keys(ms[1..]);
        FirstAbsentShift(Keys(ms[1..]), f, g);
        r
  }

  /** Frames with the same column names have the same first absent key. */
  lemma {:induction false} FirstAbsentShift(keys: seq<string>, f: Frame, g: Frame)
    requires g.cols.Keys == f.cols.Keys
    ensures FirstAbsent(keys, g) == FirstAbsent(keys, f)
  {
    if |keys| > 0 {
      FirstAbsentShift(keys[1..], f, g);
    }
  }

  /** A well-formed frame stays well-formed: only existing columns are
      replaced, by columns of the same length. */
  lemma {:induction false} MapAndConvertValid(f: Frame, ms: Mappings)
    requires Valid(f) && MapAndConvert(f, ms).Ok?
    ensures Valid(MapAndConvert(f, ms).value)
    decreases |ms|
  {
    if |ms| > 0 {
      var (key, t) := ms[0];
      var g := f.(cols := f.cols[key := MapColumn(f.cols[key], t)]);
      assert Valid(g);
      MapAndConvertValid(g, ms[1..]);
    }
  }

  /** With distinct column names, every mapped column is its own table
      applied to the original column. */
  lemma {:induction false} MapAndConvertColumns(f: Frame, ms: Mappings, k: int)
    requires Distinct(Keys(ms)) && MapAndConvert(f, ms).Ok? && 0 <= k < |ms|
    ensures MapAndConvert(f, ms).value.cols[ms[k].0] == MapColumn(f.cols[ms[k].0], ms[k].1)
    decreases |ms|
  {
    var (key, t) := ms[0];
    var g := f.(cols := f.cols[key := MapColumn(f.cols[key], t)]);
    var rest := ms[1..];
    assert MapAndConvert(f, ms) == MapAndConvert(g, rest);
    if k == 0 {
      assert key !in AsSet(Keys(rest)) by {
        forall j | 0 <= j < |rest|
          ensures Keys(rest)[j] != key
        {
          assert Keys(ms)[j + 1] != Keys(ms)[0];
        }
      }
    } else {
      assert Distinct(Keys(rest)) by {
        forall i, j | 0 <= i < j < |rest|
          ensures Keys(rest)[i] != Keys(rest)[j]
        {
          assert Keys(ms)[i + 1] != Keys(ms)[j + 1];
        }
      }
      assert ms[k] == rest[k - 1];
      assert ms[k].0 != key by {
        assert Keys(ms)[0] != Keys(ms)[k];
      }
      MapAndConvertColumns(g, rest, k - 1);
    }
  }

  /** Every pair of `ms` is a pair of `ns`, so every key of `ms` is a key
      of `ns` with the same table. */
  lemma PairsShared(ms: Mappings, ns: Mappings, k: int) returns (j: int)
    requires multiset(ms) == multiset(ns) && 0 <= k < |ms|
    ensures 0 <= j < |ns| && ns[j] == ms[k]
  {
    assert ms[k] in multiset(ns);
    j :| 0 <= j < |ns| && ns[j] == ms[k];
  }

  /** The order in which the mappings are applied does not matter: a
      reordering of the same (column, table) pairs succeeds exactly when
      the original does, and then gives the same frame. */
  lemma OrderIndependent(f: Frame, ms: Mappings, ns: Mappings)
    requires Distinct(Keys(ms)) && Distinct(Keys(ns)) && multiset(ms) == multiset(ns)
    ensures MapAndConvert(f, ms).Ok? <==> MapAndConvert(f, ns).Ok?
    ensures MapAndConvert(f, ms).Ok? ==> MapAndConvert(f, ms) == MapAndConvert(f, ns)
  {
    SameKeysPresent(f, ms, ns);
    SameKeysPresent(f, ns, ms);
    SameKeySet(ms, ns);
    if MapAndConvert(f, ms).Ok? {
      var r1, r2 := MapAndConvert(f, ms).value, MapAndConvert(f, ns).value;
      forall c | c in r1.cols
        ensures c in r2.cols && r1.cols[c] == r2.cols[c]
      {
        if c in AsSet(Keys(ms)) {
          var k :| 0 <= k < |ms| && Keys(ms)[k] == c;
          var j := PairsShared(ms, ns, k);
          MapAndConvertColumns(f, ms, k);
          MapAndConvertColumns(f, ns, j);
        }
      }
      assert r1.cols == r2.cols;
    }
  }

  /** When every key of `ms` is a column of `f`, so is every key of a
      reordering. */
  lemma SameKeysPresent(f: Frame, ms: Mappings, ns: Mappings)
    requires multiset(ms) == multiset(ns)
    ensures MapAndConvert(f, ms).Ok? ==> MapAndConvert(f, ns).Ok?
  {
    if MapAndConvert(f, ms).Ok? {
      forall j | 0 <= j < |ns|
        ensures Keys(ns)[j] in f.cols
      {
        var k := PairsShared(ns, ms, j);
        assert Keys(ms)[k] in f.cols;
      }
    }
  }

  /** Reorderings rewrite the same set of columns. */
  lemma SameKeySet(ms: Mappings, ns: Mappings)
    requires multiset(ms) == multiset(ns)
    ensures AsSet(Keys(ms)) == AsSet(Keys(ns))
  {
    forall c | c in AsSet(Keys(ns))
      ensures c in AsSet(Keys(ms))
    {
      var j :| 0 <= j < |ns| && Keys(ns)[j] == c;
      var k := PairsShared(ns, ms, j);
      assert Keys(ms)[k] == c;
    }
    forall c | c in AsSet(Keys(ms))
      ensures c in AsSet(Keys(ns))
    {
      var k :| 0 <= k < |ms| && Keys(ms)[k] == c;
      var j := PairsShared(ms, ns, k);
      assert Keys(ns)[j] == c;
    }
  }

  /** A table that sends every value of the column to itself leaves the
      column unchanged. */
  lemma MapColumnIdentity(col: Column, t: Table)
    requires forall i :: 0 <= i < |col| ==> col[i] in t && t[col[i]] == col[i]
    ensures MapColumn(col, t) == col
  {
  }

  /** A value the table does not list is lost: ['Pave', 'Grvl', 'Dirt']
      with the table {'Pave': 1, 'Grvl': 0} becomes [1, 0, missing]. */
  lemma MapColumnExample()
    ensures MapColumn([Str("Pave"), Str("Grvl"), Str("Dirt")], map[Str("Pave") := Num(1.0), Str("Grvl") := Num(0.0)])
            == [Num(1.0), Num(0.0), Missing]
  {
    var t := map[Str("Pave") := Num(1.0), Str("Grvl") := Num(0.0)];
    assert Str("Dirt") !in t;
  }
}
