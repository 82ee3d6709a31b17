/** The row-level helpers shared by vhf/extract_header_mic.py and
    extract_header.py, which carry the same text for `isblank` and
    `csv_to_df`: blank-row detection and the extraction of the results
    block that follows the row holding the results flag. */
module Splitter {
  import opened Wrappers
  import opened Text

  /** One line as produced by `csv.reader`. */
  type Row = seq<string>

  /** `isblank(row)`: `all` over the cells of "empty after `strip()`". */
  predicate IsBlank(row: Row) {
    row == [] || (Strip(row[0]) == [] && IsBlank(row[1..]))
  }

  /** A row is blank exactly when every character of every cell is
      whitespace; the row with no cells is blank. */
  lemma {:induction false} IsBlankIff(row: Row)
    ensures IsBlank(row) <==> forall i, j :: 0 <= i < |row| && 0 <= j < |row[i]| ==> IsSpace(row[i][j])
    ensures row == [] ==> IsBlank(row)
  {
    if row != [] {
      IsBlankIff(row[1..]);
      StripEmptyIff(row[0]);
      assert forall i :: 1 <= i < |row| ==> row[i] == row[1..][i - 1];
    }
  }

  /** `data_bool` after the loop body has seen `rows`: some row holds a cell
      equal to the flag and no later row is blank. */
  function DataOn(rows: seq<Row>, flag: string): bool {
    if rows == [] then false
    else
      var last := rows[|rows| - 1];
      (DataOn(rows[..|rows| - 1], flag) && !IsBlank(last)) || flag in last
  }

  /** `data_cleaned` after the loop body has seen `rows`. */
  function DataRows(rows: seq<Row>, flag: string): seq<Row> {
    if rows == [] then []
    else
      var init, last := rows[..|rows| - 1], rows[|rows| - 1];
      DataRows(init, flag) + (if DataOn(init, flag) && !IsBlank(last) then [last] else [])
  }

  /** The results table: the first captured row names the columns, the
      rest are its rows, each as wide as the header; `None` marks a cell
      that pandas filled in because the input row was shorter. */
  datatype Frame = Frame(header: Row, body: seq<seq<Option<string>>>)

  datatype SplitError =
    | NoResultsBlock       // `data_cleaned.pop(0)` on an empty list
    | ColumnCountMismatch  // pandas' ValueError: the header and the widest row differ in width

  /** The number of cells of the widest row; 0 for no rows. */
  function MaxWidth(rows: seq<Row>): (w: nat)
    ensures forall i :: 0 <= i < |rows| ==> |rows[i]| <= w
    ensures rows != [] ==> exists i :: 0 <= i < |rows| && |rows[i]| == w
    ensures rows == [] ==> w == 0
  {
    if rows == [] then 0
    else
      var w := MaxWidth(rows[..|rows| - 1]);
      var last := |rows[|rows| - 1]|;
      assert forall i :: 0 <= i < |rows| - 1 ==> rows[i] == rows[..|rows| - 1][i];
      if last > w then last else w
  }

  /** A row filled up to `width` cells with missing values. */
  function PadRow(row: Row, width: nat): (r: seq<Option<string>>)
    requires |row| <= width
    ensures |r| == width
  {
    seq(width, k requires 0 <= k < width => if k < |row| then Some(row[k]) else None)
  }

  /** `pd.DataFrame(data, columns=header)` for a list of rows: no rows give
      an empty table with those columns; otherwise the widest row must have
      exactly as many cells as the header, and shorter rows are filled up
      with missing values. */
  function DataFrameOf(header: Row, data: seq<Row>): (r: Result<Frame, SplitError>)
    ensures r.Ok? <==> data == [] || MaxWidth(data) == |header|
    ensures r.Err? ==> r.error == ColumnCountMismatch
    ensures r.Ok? ==> r.value.header == header && |r.value.body| == |data|
    ensures r.Ok? ==> forall i :: 0 <= i < |data| ==> |r.value.body[i]| == |header|
    ensures r.Ok? ==> forall i, k :: 0 <= i < |data| && 0 <= k < |header| ==>
      r.value.body[i][k] == (if k < |data[i]| then Some(data[i][k]) else None)
  {
    if data != [] && MaxWidth(data) != |header| then Err(ColumnCountMismatch)
    else Ok(Frame(header, seq(|data|, i requires 0 <= i < |data| => PadRow(data[i], |header|))))
  }

  /** A short row is filled with a missing value; a row wider than the
      header makes the whole construction fail. */
  lemma RaggedRowsExample()
    ensures DataFrameOf(["Well", "Ct"], [["1", "2"], ["3"]]) ==
      Ok(Frame(["Well", "Ct"], [[Some("1"), Some("2")], [Some("3"), None]]))
    ensures DataFrameOf(["Well"], [["1", "2"]]) == Err(ColumnCountMismatch)
  {
    var r := DataFrameOf(["Well", "Ct"], [["1", "2"], ["3"]]);
    assert MaxWidth([["1", "2"], ["3"]]) == 2;
    assert r.value.body[0] == [Some("1"), Some("2")];
    assert r.value.body[1] == [Some("3"), None];
    assert r.value.body == [[Some("1"), Some("2")], [Some("3"), None]];
    assert MaxWidth([["1", "2"]]) == 2;
  }

  /** `csv_to_df(csv_file, csv_delim, results_flag)` on the rows the reader yields. */
  method CsvToDf(rows: seq<Row>, resultsFlag: string) returns (res: Result<Frame, SplitError>)
    ensures DataRows(rows, resultsFlag) == [] ==> res == Err(NoResultsBlock)
    ensures DataRows(rows, resultsFlag) != [] ==>
      res == DataFrameOf(DataRows(rows, resultsFlag)[0], DataRows(rows, resultsFlag)[1..])
  {
    var dataBool := false;
    var dataCleaned: seq<Row> := [];
    for i := 0 to |rows|
      invariant dataBool == DataOn(rows[..i], resultsFlag)
      invariant dataCleaned == DataRows(rows[..i], resultsFlag)
    {
      var line := rows[i];
      assert rows[..i + 1][..i] == rows[..i];
      if IsBlank(line) {
        dataBool := false;
      }
      if dataBool {
        dataCleaned := dataCleaned + [line];
      }
      if resultsFlag in line {
        dataBool := true;
      }
    }
    assert rows[..|rows|] == rows;
    if dataCleaned == [] {
      return Err(NoResultsBlock);
    }
    var header := dataCleaned[0];
    dataCleaned := dataCleaned[1..];
    res := DataFrameOf(header, dataCleaned);
  }

  /** Capture is on after `rows` exactly when some row has a cell equal to
      the flag and no row after it is blank. */
  lemma {:induction false} DataOnIff(rows: seq<Row>, flag: string)
    ensures DataOn(rows, flag) <==>
      exists j :: 0 <= j < |rows| && flag in rows[j] && forall m :: j < m < |rows| ==> !IsBlank(rows[m])
  {
    if rows != [] {
      var init, last := rows[..|rows| - 1], rows[|rows| - 1];
      DataOnIff(init, flag);
      if DataOn(rows, flag) {
        if flag in last {
          assert rows[|rows| - 1] == last;
        } else {
          var j :| 0 <= j < |init| && flag in init[j] && forall m :: j < m < |init| ==> !IsBlank(init[m]);
          assert rows[j] == init[j];
          assert forall m :: j < m < |rows| ==> !IsBlank(rows[m]) by {
            forall m | j < m < |rows| ensures !IsBlank(rows[m]) {
              if m < |init| { assert rows[m] == init[m]; }
            }
          }
        }
      } else {
        forall j | 0 <= j < |rows| && flag in rows[j]
          ensures exists m :: j < m < |rows| && IsBlank(rows[m])
        {
          if j == |rows| - 1 {
          } else if !IsBlank(last) {
            assert init[j] == rows[j];
            var m :| j < m < |init| && IsBlank(init[m]);
            assert rows[m] == init[m];
          }
        }
      }
    }
  }

  /** Row `k` follows a row holding a cell equal to the flag, with no blank
      row after that one up to and including row `k`. */
  ghost predicate CapturedAt(rows: seq<Row>, flag: string, k: nat)
    requires k < |rows|
  {
    exists j :: 0 <= j < k && flag in rows[j] && forall m :: j < m <= k ==> !IsBlank(rows[m])
  }

  lemma {:induction false} CapturedAtIff(rows: seq<Row>, flag: string, k: nat)
    requires k < |rows|
    ensures CapturedAt(rows, flag, k) <==> DataOn(rows[..k], flag) && !IsBlank(rows[k])
  {
    var pre := rows[..k];
    DataOnIff(pre, flag);
    if DataOn(pre, flag) && !IsBlank(rows[k]) {
      var j :| 0 <= j < |pre| && flag in pre[j] && forall m :: j < m < |pre| ==> !IsBlank(pre[m]);
      assert flag in rows[j];
      forall m | j < m <= k ensures !IsBlank(rows[m]) {
        if m < k { assert rows[m] == pre[m]; }
      }
    }
    if CapturedAt(rows, flag, k) {
      var j :| 0 <= j < k && flag in rows[j] && forall m :: j < m <= k ==> !IsBlank(rows[m]);
      assert flag in pre[j];
      forall m | j < m < |pre| ensures !IsBlank(pre[m]) {
        assert rows[m] == pre[m];
      }
    }
  }

  /** Which rows `csv_to_df` collects: row `k` is appended exactly when it
      is not blank and some earlier row has a cell equal to the flag with no
      blank row between. The flag row itself is therefore not collected
      because of its own flag, a blank row ends the block without being
      collected, and a later flag row starts a new block. */
  lemma {:induction false} DataRowsStep(rows: seq<Row>, flag: string, k: nat)
    requires k < |rows|
    ensures DataRows(rows[..k + 1], flag) ==
      DataRows(rows[..k], flag) + (if CapturedAt(rows, flag, k) then [rows[k]] else [])
  {
    assert rows[..k + 1][..k] == rows[..k];
    CapturedAtIff(rows, flag, k);
  }

  /** The collected rows are input rows in input order, none of them blank. */
  lemma {:induction false} DataRowsSubsequence(rows: seq<Row>, flag: string)
    ensures IsSubsequence(DataRows(rows, flag), rows)
    ensures forall r :: r in DataRows(rows, flag) ==> !IsBlank(r)
  {
    if rows == [] {
    } else {
      var init, last := rows[..|rows| - 1], rows[|rows| - 1];
      DataRowsSubsequence(init, flag);
      assert rows == init + [last];
      if DataOn(init, flag) && !IsBlank(last) {
        assert DataRows(rows, flag) == DataRows(init, flag) + [last];
        SubsequenceSnoc(DataRows(init, flag), init, last);
      } else {
        assert DataRows(rows, flag) == DataRows(init, flag);
        SubsequenceSnocRight(DataRows(init, flag), init, last);
      }
    }
  }

  /** Without a row holding the flag nothing is collected, so the header
      `pop(0)` fails. */
  lemma {:induction false} NoFlagNoData(rows: seq<Row>, flag: string)
    requires forall i :: 0 <= i < |rows| ==> flag !in rows[i]
    ensures DataRows(rows, flag) == [] && !DataOn(rows, flag)
  {
    if rows != [] {
      NoFlagNoData(rows[..|rows| - 1], flag);
    }
  }

  /** The results block of the repository's own test input: the columns are
      `Well`, `Ct` and the first row is `1`, `2`. */
  lemma TestCsvToDf()
    ensures var rows := [["Header1", "Header2"], ["Results", "Data"], ["Well", "Ct"], ["1", "2"], ["3", "4"]];
      DataRows(rows, "Results") == [["Well", "Ct"], ["1", "2"], ["3", "4"]]
  {
    var rows := [["Header1", "Header2"], ["Results", "Data"], ["Well", "Ct"], ["1", "2"], ["3", "4"]];
    forall i | 0 <= i < |rows| ensures !IsBlank(rows[i]) {
      assert !IsSpace(rows[i][0][0]);
      IsBlankIff(rows[i]);
    }
    assert "Results" !in rows[0];
    NoFlagNoData(rows[..1], "Results");
    assert rows[..2][..1] == rows[..1];
    assert DataOn(rows[..2], "Results") && DataRows(rows[..2], "Results") == [];
    assert rows[..3][..2] == rows[..2];
    assert DataOn(rows[..3], "Results") && DataRows(rows[..3], "Results") == [rows[2]];
    assert rows[..4][..3] == rows[..3];
    assert DataOn(rows[..4], "Results") && DataRows(rows[..4], "Results") == [rows[2], rows[3]];
    assert rows[..5][..4] == rows[..4];
    assert rows[..5] == rows;
  }
}
