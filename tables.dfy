/** The part of a pandas DataFrame that xlsx_to_df.py relies on: named
    columns, rows of cells, selection of columns by name, selection of rows
    by a cell value, relabelling of columns, replacement of cell values and
    the inner merge on a key column. Rows are positional: cell `k` of a row
    belongs to column `k`. */
module Tables {
  import opened Wrappers
  import Text

  /** A cell read from a spreadsheet: text, a number, or NaN. */
  datatype Cell = Text(s: string) | Number(x: real) | Missing

  datatype DataFrame = DataFrame(columns: seq<string>, rows: seq<seq<Cell>>)

  /** Every row has one cell per column. */
  predicate Rectangular(t: DataFrame) {
    forall i :: 0 <= i < |t.rows| ==> |t.rows[i]| == |t.columns|
  }

  type Table = t: DataFrame | Rectangular(t) witness DataFrame([], [])

  /** Looking up a column label that is not there (pandas' `KeyError`). */
  datatype TableError = MissingColumn(name: string)

  /** Position of the first column carrying `name`. */
  function IndexOf(cols: seq<string>, name: string): (r: Option<nat>)
    ensures r.None? <==> name !in cols
    ensures r.Some? ==> r.value < |cols| && cols[r.value] == name
    ensures r.Some? ==> forall k :: 0 <= k < r.value ==> cols[k] != name
  {
    if cols == [] then None
    else if cols[0] == name then Some(0)
    else match IndexOf(cols[1..], name)
      case None => None
      case Some(j) => Some(j + 1)
  }

  /** The cell of row `i` under the (first) column called `name`. */
  function Lookup(t: Table, i: nat, name: string): Cell
    requires i < |t.rows| && name in t.columns
  {
    t.rows[i][IndexOf(t.columns, name).value]
  }

  /** Positions of the named columns, or the first name that is missing. */
  function Positions(cols: seq<string>, names: seq<string>): (r: Result<seq<nat>, TableError>)
    ensures r.Ok? <==> forall k :: 0 <= k < |names| ==> names[k] in cols
    ensures r.Ok? ==> |r.value| == |names|
    ensures r.Ok? ==> forall k :: 0 <= k < |names| ==> r.value[k] == IndexOf(cols, names[k]).value
    ensures r.Err? ==> r.error.name in names && r.error.name !in cols
  {
    if names == [] then Ok([])
    else match IndexOf(cols, names[0])
      case None => Err(MissingColumn(names[0]))
      case Some(j) =>
        match Positions(cols, names[1..])
          case Err(e) => Err(e)
          case Ok(js) => Ok([j] + js)
  }

  /** `t.loc[:, names]`: the named columns, in the order given. */
  function Select(t: Table, names: seq<string>): (r: Result<Table, TableError>)
    ensures r.Ok? <==> forall k :: 0 <= k < |names| ==> names[k] in t.columns
    ensures r.Err? ==> r.error.name in names && r.error.name !in t.columns
    ensures r.Ok? ==> r.value.columns == names && |r.value.rows| == |t.rows|
    ensures r.Ok? ==> forall i, k :: 0 <= i < |t.rows| && 0 <= k < |names| ==>
      r.value.rows[i][k] == Lookup(t, i, names[k])
  {
    match Positions(t.columns, names)
      case Err(e) => Err(e)
      case Ok(js) =>
        var rows := seq(|t.rows|, i requires 0 <= i < |t.rows| =>
          seq(|js|, k requires 0 <= k < |js| => t.rows[i][js[k]]));
        Ok(DataFrame(names, rows))
  }

  /** Selecting labels the table all has succeeds. */
  lemma SelectAll(t: Table, names: seq<string>)
    requires forall n :: n in names ==> n in t.columns
    ensures Select(t, names).Ok?
  {
    forall k | 0 <= k < |names| ensures names[k] in t.columns {
      assert names[k] in names;
    }
  }

  /** The rows whose cell at position `j` equals `v`, in their order. */
  function Filter(rows: seq<seq<Cell>>, j: nat, v: Cell): seq<seq<Cell>> {
    if rows == [] then []
    else (if j < |rows[0]| && rows[0][j] == v then [rows[0]] else []) + Filter(rows[1..], j, v)
  }

  /** `t.loc[t[column] == v]` with the column at position `j`. */
  function Where(t: Table, j: nat, v: Cell): (r: Table)
    ensures r.columns == t.columns
  {
    FilterRectangular(t, j, v);
    DataFrame(t.columns, Filter(t.rows, j, v))
  }

  lemma {:induction false} FilterRectangular(t: DataFrame, j: nat, v: Cell)
    requires Rectangular(t)
    ensures Rectangular(DataFrame(t.columns, Filter(t.rows, j, v)))
  {
    var f := Filter(t.rows, j, v);
    FilterSubset(t.rows, j, v);
    forall i | 0 <= i < |f| ensures |f[i]| == |t.columns| {
      assert f[i] in t.rows;
    }
  }

  lemma {:induction false} FilterSubset(rows: seq<seq<Cell>>, j: nat, v: Cell)
    ensures forall r :: r in Filter(rows, j, v) ==> r in rows
  {
    if rows != [] {
      FilterSubset(rows[1..], j, v);
    }
  }

  /** Row selection keeps exactly the rows whose cell is `v`, each as often
      as it occurs in the input. */
  lemma {:induction false} FilterExact(rows: seq<seq<Cell>>, j: nat, v: Cell)
    ensures forall r ::
      multiset(Filter(rows, j, v))[r] == (if j < |r| && r[j] == v then multiset(rows)[r] else 0)
  {
    if rows != [] {
      FilterExact(rows[1..], j, v);
      assert rows == [rows[0]] + rows[1..];
    }
  }

  /** Row selection keeps input order: the selected rows are a
      subsequence of the input. */
  lemma {:induction false} FilterOrder(rows: seq<seq<Cell>>, j: nat, v: Cell)
    ensures |Filter(rows, j, v)| <= |rows|
    ensures forall r :: r in Filter(rows, j, v) ==> j < |r| && r[j] == v
    ensures Text.IsSubsequence(Filter(rows, j, v), rows)
  {
    if rows != [] {
      FilterOrder(rows[1..], j, v);
      var rest := Filter(rows[1..], j, v);
      if j < |rows[0]| && rows[0][j] == v {
        assert Filter(rows, j, v) == [rows[0]] + rest;
        assert ([rows[0]] + rest)[1..] == rest;
      } else {
        assert Filter(rows, j, v) == rest;
      }
    }
  }

  /** The new label of `name` under a `rename(columns={...})` dictionary:
      the value of its entry, or the label itself when it has none. */
  function Relabel(name: string, pairs: seq<(string, string)>): (r: string)
    ensures (forall p :: p in pairs ==> p.0 != name) ==> r == name
  {
    if pairs == [] then name
    else if pairs[0].0 == name then pairs[0].1
    else Relabel(name, pairs[1..])
  }

  /** `t.rename(columns=pairs)`: every label with an entry is replaced, the
      cells do not move. */
  function Rename(t: Table, pairs: seq<(string, string)>): (r: Table)
    ensures |r.columns| == |t.columns| && r.rows == t.rows
    ensures forall k :: 0 <= k < |t.columns| ==> r.columns[k] == Relabel(t.columns[k], pairs)
  {
    DataFrame(seq(|t.columns|, k requires 0 <= k < |t.columns| => Relabel(t.columns[k], pairs)), t.rows)
  }

  /** A renamed table has the new label of every column it had. */
  lemma RenamedHas(t: Table, pairs: seq<(string, string)>, c: string)
    requires c in t.columns
    ensures Relabel(c, pairs) in Rename(t, pairs).columns
  {
    var k :| 0 <= k < |t.columns| && t.columns[k] == c;
    assert Rename(t, pairs).columns[k] == Relabel(c, pairs);
  }

  /** `t[column].replace(from, to)` (and `fillna(to)` with `from` NaN) with
      the column at position `j`. */
  function Substitute(t: Table, j: nat, from: Cell, to: Cell): (r: Table)
    requires j < |t.columns|
    ensures r.columns == t.columns && |r.rows| == |t.rows|
    ensures forall i, k :: 0 <= i < |t.rows| && 0 <= k < |t.columns| ==>
      r.rows[i][k] == (if k == j && t.rows[i][k] == from then to else t.rows[i][k])
  {
    DataFrame(t.columns, seq(|t.rows|, i requires 0 <= i < |t.rows| =>
      t.rows[i][j := if t.rows[i][j] == from then to else t.rows[i][j]]))
  }

  /** `t[name] = cells`: overwrites the first column of that name, or appends
      a new last column. */
  function WithColumn(t: Table, name: string, cells: seq<Cell>): (r: Table)
    requires |cells| == |t.rows|
    ensures name in r.columns && |r.rows| == |t.rows|
    ensures name in t.columns ==> r.columns == t.columns
    ensures name !in t.columns ==> r.columns == t.columns + [name]
    ensures forall i :: 0 <= i < |t.rows| ==> Lookup(r, i, name) == cells[i]
    ensures forall i, k :: 0 <= i < |t.rows| && 0 <= k < |t.columns| && t.columns[k] != name ==>
      r.rows[i][k] == t.rows[i][k]
  {
    match IndexOf(t.columns, name)
      case Some(j) =>
        DataFrame(t.columns, seq(|t.rows|, i requires 0 <= i < |t.rows| => t.rows[i][j := cells[i]]))
      case None =>
        var r := DataFrame(t.columns + [name], seq(|t.rows|, i requires 0 <= i < |t.rows| => t.rows[i] + [cells[i]]));
        assert IndexOf(r.columns, name) == Some(|t.columns|) by {
          IndexOfAppend(t.columns, name);
        }
        r
  }

  lemma {:induction false} IndexOfAppend(cols: seq<string>, name: string)
    requires name !in cols
    ensures IndexOf(cols + [name], name) == Some(|cols|)
  {
    if cols != [] {
      assert (cols + [name])[1..] == cols[1..] + [name];
      IndexOfAppend(cols[1..], name);
    }
  }

  /** A row without its cell at position `k`. */
  function Drop<T>(s: seq<T>, k: nat): (r: seq<T>)
    requires k < |s|
    ensures |r| == |s| - 1
  {
    s[..k] + s[k + 1..]
  }

  /** pandas' default merge suffixes: a label other than the key that also
      names a column of the other side gets `suffix` appended. */
  function Disambiguate(cols: seq<string>, other: seq<string>, key: string, suffix: string): (r: seq<string>)
    ensures |r| == |cols|
    ensures forall k :: 0 <= k < |cols| ==>
      r[k] == (if cols[k] != key && cols[k] in other then cols[k] + suffix else cols[k])
  {
    seq(|cols|, k requires 0 <= k < |cols| =>
      if cols[k] != key && cols[k] in other then cols[k] + suffix else cols[k])
  }

  /** The merged rows contributed by one left row: one per right row with
      the same key, in right order, each the left row followed by the right
      row without its key cell. */
  function MatchRows(lr: seq<Cell>, rrows: seq<seq<Cell>>, kl: nat, kr: nat): seq<seq<Cell>> {
    if rrows == [] then []
    else
      var rr := rrows[0];
      (if KeysMatch(lr, rr, kl, kr) then [lr + Drop(rr, kr)] else []) + MatchRows(lr, rrows[1..], kl, kr)
  }

  /** A left row and a right row that have the same key value. */
  predicate KeysMatch(lr: seq<Cell>, rr: seq<Cell>, kl: nat, kr: nat) {
    kl < |lr| && kr < |rr| && rr[kr] == lr[kl]
  }

  /** Inner-join rows: left order, and for each left row its matches. */
  function JoinRows(lrows: seq<seq<Cell>>, rrows: seq<seq<Cell>>, kl: nat, kr: nat): seq<seq<Cell>> {
    if lrows == [] then []
    else MatchRows(lrows[0], rrows, kl, kr) + JoinRows(lrows[1..], rrows, kl, kr)
  }

  /** Each row merged from one left row is that row followed by a matching
      right row without its key. */
  lemma {:induction false} MatchRowsSound(lr: seq<Cell>, rrows: seq<seq<Cell>>, kl: nat, kr: nat)
    ensures forall row :: row in MatchRows(lr, rrows, kl, kr) ==>
      exists m :: 0 <= m < |rrows| && KeysMatch(lr, rrows[m], kl, kr) && row == lr + Drop(rrows[m], kr)
  {
    if rrows != [] {
      MatchRowsSound(lr, rrows[1..], kl, kr);
      var rest := MatchRows(lr, rrows[1..], kl, kr);
      forall row | row in MatchRows(lr, rrows, kl, kr)
        ensures exists m :: 0 <= m < |rrows| && KeysMatch(lr, rrows[m], kl, kr) && row == lr + Drop(rrows[m], kr)
      {
        if row !in rest {
          assert KeysMatch(lr, rrows[0], kl, kr) && row == lr + Drop(rrows[0], kr);
        } else {
          var m :| 0 <= m < |rrows[1..]| && KeysMatch(lr, rrows[1..][m], kl, kr) && row == lr + Drop(rrows[1..][m], kr);
          assert rrows[1..][m] == rrows[m + 1];
        }
      }
    }
  }

  /** Every matching right row gives a merged row. */
  lemma {:induction false} MatchRowsComplete(lr: seq<Cell>, rrows: seq<seq<Cell>>, kl: nat, kr: nat)
    ensures forall m :: 0 <= m < |rrows| && KeysMatch(lr, rrows[m], kl, kr) ==>
      lr + Drop(rrows[m], kr) in MatchRows(lr, rrows, kl, kr)
  {
    if rrows != [] {
      MatchRowsComplete(lr, rrows[1..], kl, kr);
      forall m | 0 <= m < |rrows| && KeysMatch(lr, rrows[m], kl, kr)
        ensures lr + Drop(rrows[m], kr) in MatchRows(lr, rrows, kl, kr)
      {
        if m > 0 {
          assert rrows[1..][m - 1] == rrows[m];
        }
      }
    }
  }

  /** Every row of the inner join is a left row followed by a right row with
      the same key, without that key. */
  lemma {:induction false} JoinRowsSound(lrows: seq<seq<Cell>>, rrows: seq<seq<Cell>>, kl: nat, kr: nat)
    ensures forall row :: row in JoinRows(lrows, rrows, kl, kr) ==>
      exists i, m :: 0 <= i < |lrows| && 0 <= m < |rrows| && KeysMatch(lrows[i], rrows[m], kl, kr) &&
        row == lrows[i] + Drop(rrows[m], kr)
  {
    if lrows != [] {
      JoinRowsSound(lrows[1..], rrows, kl, kr);
      MatchRowsSound(lrows[0], rrows, kl, kr);
      var rest := JoinRows(lrows[1..], rrows, kl, kr);
      forall row | row in JoinRows(lrows, rrows, kl, kr)
        ensures exists i, m ::
          0 <= i < |lrows| && 0 <= m < |rrows| && KeysMatch(lrows[i], rrows[m], kl, kr) && row == lrows[i] + Drop(rrows[m], kr)
      {
        if row !in rest {
          var m :| 0 <= m < |rrows| && KeysMatch(lrows[0], rrows[m], kl, kr) && row == lrows[0] + Drop(rrows[m], kr);
          assert 0 <= 0 < |lrows|;
        } else {
          var i, m :| 0 <= i < |lrows[1..]| && 0 <= m < |rrows| && KeysMatch(lrows[1..][i], rrows[m], kl, kr) &&
            row == lrows[1..][i] + Drop(rrows[m], kr);
          assert lrows[1..][i] == lrows[i + 1];
        }
      }
    }
  }

  /** Every pair of a left row and a right row with the same key gives a row
      of the inner join. */
  lemma {:induction false} JoinRowsComplete(lrows: seq<seq<Cell>>, rrows: seq<seq<Cell>>, kl: nat, kr: nat)
    ensures forall i, m :: 0 <= i < |lrows| && 0 <= m < |rrows| && KeysMatch(lrows[i], rrows[m], kl, kr) ==>
      lrows[i] + Drop(rrows[m], kr) in JoinRows(lrows, rrows, kl, kr)
  {
    if lrows != [] {
      JoinRowsComplete(lrows[1..], rrows, kl, kr);
      MatchRowsComplete(lrows[0], rrows, kl, kr);
      forall i, m | 0 <= i < |lrows| && 0 <= m < |rrows| && KeysMatch(lrows[i], rrows[m], kl, kr)
        ensures lrows[i] + Drop(rrows[m], kr) in JoinRows(lrows, rrows, kl, kr)
      {
        if i > 0 {
          assert lrows[1..][i - 1] == lrows[i];
        }
      }
    }
  }

  /** The inner join follows the left rows: the rows merged from earlier
      left rows all come before those merged from later ones. */
  lemma {:induction false} JoinRowsLeftOrder(a: seq<seq<Cell>>, b: seq<seq<Cell>>, rrows: seq<seq<Cell>>, kl: nat, kr: nat)
    ensures JoinRows(a + b, rrows, kl, kr) == JoinRows(a, rrows, kl, kr) + JoinRows(b, rrows, kl, kr)
  {
    if a == [] {
      assert a + b == b;
    } else {
      JoinRowsLeftOrder(a[1..], b, rrows, kl, kr);
      assert (a + b)[0] == a[0];
      assert (a + b)[1..] == a[1..] + b;
      var x := MatchRows(a[0], rrows, kl, kr);
      calc {
        JoinRows(a + b, rrows, kl, kr);
        x + JoinRows(a[1..] + b, rrows, kl, kr);
        x + (JoinRows(a[1..], rrows, kl, kr) + JoinRows(b, rrows, kl, kr));
        { Text.AppendAssoc(x, JoinRows(a[1..], rrows, kl, kr), JoinRows(b, rrows, kl, kr)); }
        (x + JoinRows(a[1..], rrows, kl, kr)) + JoinRows(b, rrows, kl, kr);
        JoinRows(a, rrows, kl, kr) + JoinRows(b, rrows, kl, kr);
      }
    }
  }

  /** A merged row has the left row's cells and the right row's but its key. */
  lemma {:induction false} MatchRowsWidth(lr: seq<Cell>, rrows: seq<seq<Cell>>, kl: nat, kr: nat, width: nat)
    requires forall i :: 0 <= i < |rrows| ==> |rrows[i]| == width
    ensures forall i :: 0 <= i < |MatchRows(lr, rrows, kl, kr)| ==> |MatchRows(lr, rrows, kl, kr)[i]| == |lr| + width - 1
  {
    if rrows != [] {
      MatchRowsWidth(lr, rrows[1..], kl, kr, width);
    }
  }

  lemma {:induction false} JoinRowsWidth(lrows: seq<seq<Cell>>, rrows: seq<seq<Cell>>, kl: nat, kr: nat, lwidth: nat, rwidth: nat)
    requires forall i :: 0 <= i < |lrows| ==> |lrows[i]| == lwidth
    requires forall i :: 0 <= i < |rrows| ==> |rrows[i]| == rwidth
    ensures forall i :: 0 <= i < |JoinRows(lrows, rrows, kl, kr)| ==> |JoinRows(lrows, rrows, kl, kr)[i]| == lwidth + rwidth - 1
  {
    if lrows != [] {
      MatchRowsWidth(lrows[0], rrows, kl, kr, rwidth);
      JoinRowsWidth(lrows[1..], rrows, kl, kr, lwidth, rwidth);
    }
  }

  /** `pd.merge(l, r, on=key)` (an inner join): the left columns, then the
      right columns except the key, overlapping labels suffixed `_x`/`_y`. */
  function Join(l: Table, r: Table, key: string): (res: Result<Table, TableError>)
    ensures res.Ok? <==> key in l.columns && key in r.columns
    ensures res.Err? ==> res.error == MissingColumn(key)
    ensures res.Ok? ==> |res.value.columns| == |l.columns| + |r.columns| - 1
  {
    match IndexOf(l.columns, key)
      case None => Err(MissingColumn(key))
      case Some(kl) =>
        match IndexOf(r.columns, key)
          case None => Err(MissingColumn(key))
          case Some(kr) =>
            var rest := Drop(r.columns, kr);
            var cols := Disambiguate(l.columns, rest, key, "_x") + Disambiguate(rest, l.columns, key, "_y");
            JoinRowsWidth(l.rows, r.rows, kl, kr, |l.columns|, |r.columns|);
            Ok(DataFrame(cols, JoinRows(l.rows, r.rows, kl, kr)))
  }

  /** Number of rows whose cell at position `j` is `v`. */
  function KeyCount(rows: seq<seq<Cell>>, j: nat, v: Cell): nat {
    if rows == [] then 0
    else (if j < |rows[0]| && rows[0][j] == v then 1 else 0) + KeyCount(rows[1..], j, v)
  }

  /** `a * b` on naturals, by repeated addition: the counting proofs below
      then stay within linear arithmetic. */
  function Times(a: nat, b: nat): nat {
    if a == 0 then 0 else b + Times(a - 1, b)
  }

  lemma {:induction false} TimesIsProduct(a: nat, b: nat)
    ensures Times(a, b) == a * b
  {
    if a > 0 {
      TimesIsProduct(a - 1, b);
      assert a * b == (a - 1) * b + b;
    }
  }

  /** One more (or no more) left factor adds one more (or no more) right factor. */
  lemma TimesStep(hit: bool, a: nat, b: nat)
    ensures Times((if hit then 1 else 0) + a, b) == (if hit then b else 0) + Times(a, b)
  {
    if hit {
      assert Times(1 + a, b) == b + Times(a, b);
    }
  }

  /** A product of naturals is positive exactly when both factors are. */
  lemma {:induction false} TimesPositive(a: nat, b: nat)
    ensures Times(a, b) > 0 <==> a > 0 && b > 0
  {
    if a > 0 {
      TimesPositive(a - 1, b);
    }
  }

  lemma {:induction false} KeyCountAppend(a: seq<seq<Cell>>, b: seq<seq<Cell>>, j: nat, v: Cell)
    ensures KeyCount(a + b, j, v) == KeyCount(a, j, v) + KeyCount(b, j, v)
  {
    if a == [] {
      assert a + b == b;
    } else {
      assert (a + b)[0] == a[0] && (a + b)[1..] == a[1..] + b;
      KeyCountAppend(a[1..], b, j, v);
    }
  }

  lemma {:induction false} MatchRowsCount(lr: seq<Cell>, rrows: seq<seq<Cell>>, kl: nat, kr: nat, v: Cell)
    ensures KeyCount(MatchRows(lr, rrows, kl, kr), kl, v) == (if kl < |lr| && lr[kl] == v then KeyCount(rrows, kr, v) else 0)
  {
    if rrows != [] {
      var rr := rrows[0];
      var head := if kl < |lr| && kr < |rr| && rr[kr] == lr[kl] then [lr + Drop(rr, kr)] else [];
      MatchRowsCount(lr, rrows[1..], kl, kr, v);
      KeyCountAppend(head, MatchRows(lr, rrows[1..], kl, kr), kl, v);
      if head != [] {
        assert (lr + Drop(rr, kr))[kl] == lr[kl];
      }
    }
  }

  /** The inner join multiplies multiplicities: a key value occurs in the
      merged rows as often as the product of its occurrences on each side,
      so it occurs at all exactly when it occurs on both sides. */
  lemma {:induction false} JoinRowsCount(lrows: seq<seq<Cell>>, rrows: seq<seq<Cell>>, kl: nat, kr: nat, v: Cell)
    ensures KeyCount(JoinRows(lrows, rrows, kl, kr), kl, v) == Times(KeyCount(lrows, kl, v), KeyCount(rrows, kr, v))
    decreases |lrows|
  {
    if lrows != [] {
      var lr := lrows[0];
      var m, rest := MatchRows(lr, rrows, kl, kr), JoinRows(lrows[1..], rrows, kl, kr);
      var hit := kl < |lr| && lr[kl] == v;
      var a, b := KeyCount(lrows[1..], kl, v), KeyCount(rrows, kr, v);
      calc {
        KeyCount(JoinRows(lrows, rrows, kl, kr), kl, v);
        KeyCount(m + rest, kl, v);
        { KeyCountAppend(m, rest, kl, v); }
        KeyCount(m, kl, v) + KeyCount(rest, kl, v);
        { MatchRowsCount(lr, rrows, kl, kr, v); JoinRowsCount(lrows[1..], rrows, kl, kr, v); }
        (if hit then b else 0) + Times(a, b);
        { TimesStep(hit, a, b); }
        Times((if hit then 1 else 0) + a, b);
        Times(KeyCount(lrows, kl, v), b);
      }
    }
  }

  /** The inner join multiplies multiplicities: a key value occurs in the
      merged table as often as the product of its occurrences in the two
      tables, so it occurs at all exactly when it occurs on both sides; the
      key keeps its left position and label. */
  lemma {:induction false} JoinCount(l: Table, r: Table, key: string, v: Cell)
    requires key in l.columns && key in r.columns
    ensures var kl, kr := IndexOf(l.columns, key).value, IndexOf(r.columns, key).value;
      && Join(l, r, key).Ok?
      && Join(l, r, key).value.columns[kl] == key
      && KeyCount(Join(l, r, key).value.rows, kl, v) == Times(KeyCount(l.rows, kl, v), KeyCount(r.rows, kr, v))
  {
    var kl, kr := IndexOf(l.columns, key).value, IndexOf(r.columns, key).value;
    JoinRowsCount(l.rows, r.rows, kl, kr, v);
  }

  /** When the two tables share no label but the key, no label is suffixed:
      the merged columns are the left ones followed by the right ones without
      the key. */
  lemma {:induction false} JoinColumnsDisjoint(l: Table, r: Table, key: string)
    requires key in l.columns && key in r.columns
    requires forall c :: c in l.columns && c in r.columns ==> c == key
    ensures Join(l, r, key).Ok?
    ensures Join(l, r, key).value.columns == l.columns + Drop(r.columns, IndexOf(r.columns, key).value)
  {
    var kr := IndexOf(r.columns, key).value;
    var rest := Drop(r.columns, kr);
    forall k | 0 <= k < |rest| ensures rest[k] in r.columns {
      if k < kr { assert rest[k] == r.columns[k]; } else { assert rest[k] == r.columns[k + 1]; }
    }
    assert Disambiguate(l.columns, rest, key, "_x") == l.columns;
    assert Disambiguate(rest, l.columns, key, "_y") == rest;
  }

  /** Counting a key through a column selection: the selected rows carry, in
      their first cell, the cell of the first selected column. */
  lemma {:induction false} SelectKeyCount(t: Table, names: seq<string>, v: Cell)
    requires names != [] && Select(t, names).Ok?
    ensures KeyCount(Select(t, names).value.rows, 0, v) == KeyCount(t.rows, IndexOf(t.columns, names[0]).value, v)
  {
    var s := Select(t, names).value;
    var j := IndexOf(t.columns, names[0]).value;
    assert forall i :: 0 <= i < |t.rows| ==> s.rows[i][0] == t.rows[i][j];
    KeyCountPointwise(s.rows, t.rows, 0, j, v);
  }

  lemma {:induction false} KeyCountPointwise(a: seq<seq<Cell>>, b: seq<seq<Cell>>, ja: nat, jb: nat, v: Cell)
    requires |a| == |b|
    requires forall i :: 0 <= i < |a| ==> ja < |a[i]| && jb < |b[i]| && a[i][ja] == b[i][jb]
    ensures KeyCount(a, ja, v) == KeyCount(b, jb, v)
  {
    if a != [] {
      KeyCountPointwise(a[1..], b[1..], ja, jb, v);
    }
  }

  /** Appending labels does not move the first occurrence of one already there. */
  lemma {:induction false} IndexOfPrefix(cols: seq<string>, more: seq<string>, name: string)
    requires name in cols
    ensures IndexOf(cols + more, name) == IndexOf(cols, name)
  {
    assert (cols + more)[0] == cols[0];
    if cols[0] != name {
      assert (cols + more)[1..] == cols[1..] + more;
      IndexOfPrefix(cols[1..], more, name);
    }
  }
}
