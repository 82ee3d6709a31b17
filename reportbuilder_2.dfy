/** The table-preparation helpers of vhf/reportbuilder_2.py: the character
    filter `strip_ascii`, `csv_to_table` with its inner `process_data`,
    `count_columns`, and the experiment-name lookup of `get_exp_name`.
    Paragraph objects are reduced to their text and whether they are bold;
    everything that draws on a page is outside this module. */
module ReportBuilder {
  import opened Wrappers
  import opened Text
  import opened ExtractHeaderMic

  /** A value as it reaches `strip_ascii`: a string from a CSV row or a list,
      or a number from `DataFrame.values.tolist()`. */
  datatype Item = Str(s: string) | Float(x: real) | Int(n: int)

  /** The errors raised by the helpers: a `bold` argument other than 'left'
      or 'top' (ValueError), `max` of an empty list (ValueError), and an index
      past the end of a row (IndexError). */
  datatype ReportError = InvalidBold | EmptyList | IndexError

  /** `31 < ord(char) < 127`: printable ASCII, space to tilde. */
  predicate Printable(c: char) {
    31 < c as int < 127
  }

  /** The string branch of `strip_ascii`: the characters that pass the test,
      in their order. */
  function Printables(s: string): (r: string)
    ensures |r| <= |s|
    ensures forall c :: c in r ==> Printable(c)
  {
    if s == [] then []
    else (if Printable(s[0]) then [s[0]] else []) + Printables(s[1..])
  }

  /** `strip_ascii(text)`: strings are filtered, floats are rounded to two
      places (`round2`, a parameter: the model has no binary floating point),
      and every other value is returned as it is. */
  function StripAscii(item: Item, round2: real -> real): (r: Item)
    ensures item.Str? <==> r.Str?
    ensures item.Str? ==> r.s == Printables(item.s)
    ensures item.Float? ==> r == Float(round2(item.x))
    ensures item.Int? ==> r == item
  {
    match item
      case Str(s) => Str(Printables(s))
      case Float(x) => Float(round2(x))
      case Int(_) => item
  }

  /** The filter keeps exactly the printable characters: it only deletes,
      and every printable character occurs as often as in the input. */
  lemma {:induction false} PrintablesExact(s: string)
    ensures IsSubsequence(Printables(s), s)
    ensures forall c :: multiset(Printables(s))[c] == if Printable(c) then multiset(s)[c] else 0
  {
    if s == [] {
    } else {
      PrintablesExact(s[1..]);
      assert s == [s[0]] + s[1..];
      if Printable(s[0]) {
        SubsequenceSnoc([], [], s[0]);
        assert IsSubsequence([s[0]] + Printables(s[1..]), [s[0]] + s[1..]) by {
          assert ([s[0]] + Printables(s[1..]))[1..] == Printables(s[1..]);
          assert ([s[0]] + s[1..])[1..] == s[1..];
        }
      } else {
        SubsequenceSkip([s[0]], Printables(s[1..]), s[1..]);
        assert Printables(s) == Printables(s[1..]);
      }
    }
  }

  /** A string is left as it is exactly when all its characters are printable. */
  lemma {:induction false} PrintablesUnchangedIff(s: string)
    ensures Printables(s) == s <==> forall i :: 0 <= i < |s| ==> Printable(s[i])
  {
    if s != [] {
      PrintablesUnchangedIff(s[1..]);
      assert s == [s[0]] + s[1..];
      if !Printable(s[0]) {
        assert |Printables(s)| <= |s[1..]|;
      } else if Printables(s) == s {
        assert Printables(s[1..]) == s[1..];
      }
    }
  }

  /** `strip_ascii` is idempotent on strings. */
  lemma {:induction false} StripAsciiIdempotent(item: Item, round2: real -> real)
    requires item.Str?
    ensures StripAscii(StripAscii(item, round2), round2) == StripAscii(item, round2)
  {
    var r := Printables(item.s);
    PrintablesUnchangedIff(r);
    assert forall i :: 0 <= i < |r| ==> r[i] in r;
  }

  /** A paragraph of the report table: its (filtered) text and whether it is bold. */
  datatype Para = Para(text: Item, bold: bool)

  /** `item != ''`: only the empty string is dropped; numbers always pass. */
  predicate Present(item: Item) {
    item != Str("")
  }

  /** The items of a row that `process_data` keeps, in order. */
  function Kept(row: seq<Item>): (r: seq<Item>)
    ensures |r| <= |row|
    ensures forall k :: 0 <= k < |r| ==> Present(r[k])
  {
    if row == [] then []
    else Kept(row[..|row| - 1]) + (if Present(row[|row| - 1]) then [row[|row| - 1]] else [])
  }

  /** `row_data` in 'left' mode after the items `row`: the first kept item
      is bold (the `first` flag), the rest are plain. */
  function LeftCells(row: seq<Item>, round2: real -> real): seq<Para> {
    if row == [] then []
    else
      var cells := LeftCells(row[..|row| - 1], round2);
      var item := row[|row| - 1];
      cells + (if Present(item) then [Para(StripAscii(item, round2), cells == [])] else [])
  }

  /** `row_data` in 'top' mode after the items `row`: every kept item has
      the boldness of the row. */
  function TopCells(row: seq<Item>, bold: bool, round2: real -> real): seq<Para> {
    if row == [] then []
    else
      var item := row[|row| - 1];
      TopCells(row[..|row| - 1], bold, round2) + (if Present(item) then [Para(StripAscii(item, round2), bold)] else [])
  }

  /** `data` in 'left' mode after the rows `rows`: a row is added when it
      has more than one cell. */
  function LeftData(rows: seq<seq<Item>>, round2: real -> real): seq<seq<Para>> {
    if rows == [] then []
    else
      var cells := LeftCells(rows[|rows| - 1], round2);
      LeftData(rows[..|rows| - 1], round2) + (if |cells| > 1 then [cells] else [])
  }

  /** `data` in 'top' mode after the rows `rows`: only the first input row
      is bold. */
  function TopData(rows: seq<seq<Item>>, round2: real -> real): seq<seq<Para>> {
    if rows == [] then []
    else
      var cells := TopCells(rows[|rows| - 1], |rows| == 1, round2);
      TopData(rows[..|rows| - 1], round2) + (if |cells| > 1 then [cells] else [])
  }

  /** What `process_data(reader, bold)` returns or raises. */
  function ProcessDataSpec(rows: seq<seq<Item>>, bold: string, round2: real -> real): Result<seq<seq<Para>>, ReportError> {
    if bold == "left" then Ok(LeftData(rows, round2))
    else if bold == "top" then Ok(TopData(rows, round2))
    else Err(InvalidBold)
  }

  /** `process_data(reader, bold)`: nested loops building `row_data` and
      `data`, with the `first` flag of each mode. */
  method ProcessData(reader: seq<seq<Item>>, bold: string, round2: real -> real) returns (res: Result<seq<seq<Para>>, ReportError>)
    ensures res == ProcessDataSpec(reader, bold, round2)
  {
    var data := [];
    if bold == "left" {
      for i := 0 to |reader|
        invariant data == LeftData(reader[..i], round2)
      {
        var row := reader[i];
        var rowData := [];
        var first := true;
        for j := 0 to |row|
          invariant rowData == LeftCells(row[..j], round2)
          invariant first == (rowData == [])
        {
          assert row[..j + 1][..j] == row[..j];
          var item := row[j];
          if item != Str("") {
            var plain := StripAscii(item, round2);
            if first {
              rowData := rowData + [Para(plain, true)];
              first := false;
            } else {
              rowData := rowData + [Para(plain, false)];
            }
          }
        }
        assert row[..|row|] == row;
        assert reader[..i + 1][..i] == reader[..i];
        if |rowData| > 1 {
          data := data + [rowData];
        }
      }
    } else if bold == "top" {
      var first := true;
      for i := 0 to |reader|
        invariant first == (i == 0)
        invariant data == TopData(reader[..i], round2)
      {
        var row := reader[i];
        var rowData := [];
        for j := 0 to |row|
          invariant rowData == TopCells(row[..j], first, round2)
        {
          assert row[..j + 1][..j] == row[..j];
          var item := row[j];
          if item != Str("") {
            var plain := StripAscii(item, round2);
            if first {
              rowData := rowData + [Para(plain, true)];
            } else {
              rowData := rowData + [Para(plain, false)];
            }
          }
        }
        assert row[..|row|] == row;
        assert reader[..i + 1][..i] == reader[..i];
        if |rowData| > 1 {
          data := data + [rowData];
        }
        if first {
          first := false;
        }
      }
    } else {
      return Err(InvalidBold);
    }
    assert reader[..|reader|] == reader;
    return Ok(data);
  }

  /** `Kept` drops exactly the empty strings: it only deletes, and every
      other item occurs as often as in the row. */
  lemma {:induction false} KeptExact(row: seq<Item>)
    ensures IsSubsequence(Kept(row), row)
    ensures forall v :: multiset(Kept(row))[v] == if Present(v) then multiset(row)[v] else 0
  {
    if row == [] {
    } else {
      var init, last := row[..|row| - 1], row[|row| - 1];
      KeptExact(init);
      assert row == init + [last];
      if Present(last) {
        SubsequenceSnoc(Kept(init), init, last);
      } else {
        SubsequenceSnocRight(Kept(init), init, last);
        assert Kept(row) == Kept(init);
      }
    }
  }

  /** In 'left' mode a row's cells are its kept items, filtered, with the
      first bold and the others plain. */
  lemma {:induction false} LeftCellsKept(row: seq<Item>, round2: real -> real)
    ensures |LeftCells(row, round2)| == |Kept(row)|
    ensures forall k :: 0 <= k < |Kept(row)| ==> LeftCells(row, round2)[k] == Para(StripAscii(Kept(row)[k], round2), k == 0)
  {
    if row != [] {
      LeftCellsKept(row[..|row| - 1], round2);
    }
  }

  /** In 'top' mode a row's cells are its kept items, filtered, all with the
      boldness of the row. */
  lemma {:induction false} TopCellsKept(row: seq<Item>, bold: bool, round2: real -> real)
    ensures |TopCells(row, bold, round2)| == |Kept(row)|
    ensures forall k :: 0 <= k < |Kept(row)| ==> TopCells(row, bold, round2)[k] == Para(StripAscii(Kept(row)[k], round2), bold)
  {
    if row != [] {
      TopCellsKept(row[..|row| - 1], bold, round2);
    }
  }

  /** Every row of the 'left' table has at least two cells, the first bold
      and the others plain, and is the cells of some input row. */
  lemma {:induction false} LeftDataShape(rows: seq<seq<Item>>, round2: real -> real)
    ensures forall i :: 0 <= i < |LeftData(rows, round2)| ==> |LeftData(rows, round2)[i]| > 1
    ensures forall i, k :: 0 <= i < |LeftData(rows, round2)| && 0 <= k < |LeftData(rows, round2)[i]| ==>
      (LeftData(rows, round2)[i][k].bold <==> k == 0)
    ensures forall i :: 0 <= i < |LeftData(rows, round2)| ==>
      exists j :: 0 <= j < |rows| && LeftData(rows, round2)[i] == LeftCells(rows[j], round2)
  {
    if rows != [] {
      var init, last := rows[..|rows| - 1], rows[|rows| - 1];
      LeftDataShape(init, round2);
      LeftCellsKept(last, round2);
      var cells := LeftCells(last, round2);
      var out: seq<seq<Para>> := LeftData(rows, round2);
      assert out == LeftData(init, round2) + (if |cells| > 1 then [cells] else []);
      forall i | 0 <= i < |out|
        ensures |out[i]| > 1
        ensures forall k :: 0 <= k < |out[i]| ==> (out[i][k].bold <==> k == 0)
        ensures exists j :: 0 <= j < |rows| && out[i] == LeftCells(rows[j], round2)
      {
        if i < |LeftData(init, round2)| {
          assert out[i] == LeftData(init, round2)[i];
          var j :| 0 <= j < |init| && LeftData(init, round2)[i] == LeftCells(init[j], round2);
          assert rows[j] == init[j];
        } else {
          assert out[i] == cells;
          assert rows[|rows| - 1] == last;
        }
      }
      assert forall i :: 0 <= i < |out| ==> exists j :: 0 <= j < |rows| && out[i] == LeftCells(rows[j], round2);
    } else {
      assert LeftData(rows, round2) == [];
    }
  }

  /** Every row of the 'top' table has at least two cells; a cell is bold
      exactly when it is in the table's first row and that row came from the
      first input row (a first input row with fewer than two items leaves no
      bold cell at all). */
  lemma {:induction false} TopDataShape(rows: seq<seq<Item>>, round2: real -> real)
    ensures forall i :: 0 <= i < |TopData(rows, round2)| ==> |TopData(rows, round2)[i]| > 1
    ensures forall i, k :: 0 <= i < |TopData(rows, round2)| && 0 <= k < |TopData(rows, round2)[i]| ==>
      (TopData(rows, round2)[i][k].bold <==> i == 0 && |Kept(rows[0])| > 1)
    ensures rows != [] && |Kept(rows[0])| > 1 ==> TopData(rows, round2) != [] && TopData(rows, round2)[0] == TopCells(rows[0], true, round2)
  {
    if rows != [] {
      var init, last := rows[..|rows| - 1], rows[|rows| - 1];
      TopDataShape(init, round2);
      TopCellsKept(last, |rows| == 1, round2);
      if |rows| == 1 {
        assert last == rows[0];
      } else {
        assert init[0] == rows[0];
      }
    }
  }

  /** The two modes keep the same rows and the same texts: they differ only
      in which cells are bold. */
  lemma {:induction false} ModesAgreeOnText(rows: seq<seq<Item>>, round2: real -> real)
    ensures |LeftData(rows, round2)| == |TopData(rows, round2)|
    ensures forall i :: 0 <= i < |LeftData(rows, round2)| ==>
      |LeftData(rows, round2)[i]| == |TopData(rows, round2)[i]| &&
      forall k :: 0 <= k < |LeftData(rows, round2)[i]| ==> LeftData(rows, round2)[i][k].text == TopData(rows, round2)[i][k].text
  {
    if rows != [] {
      var init, last := rows[..|rows| - 1], rows[|rows| - 1];
      ModesAgreeOnText(init, round2);
      LeftCellsKept(last, round2);
      TopCellsKept(last, |rows| == 1, round2);
    }
  }

  /** The input rows with more than one kept item, in input order. */
  function Wide(rows: seq<seq<Item>>): (r: seq<seq<Item>>)
    ensures forall i :: 0 <= i < |r| ==> |Kept(r[i])| > 1
  {
    if rows == [] then []
    else
      var last := rows[|rows| - 1];
      Wide(rows[..|rows| - 1]) + (if |Kept(last)| > 1 then [last] else [])
  }

  /** Each row turned into its 'left'-mode cells. */
  function LeftRows(rows: seq<seq<Item>>, round2: real -> real): (r: seq<seq<Para>>)
    ensures |r| == |rows|
  {
    if rows == [] then []
    else LeftRows(rows[..|rows| - 1], round2) + [LeftCells(rows[|rows| - 1], round2)]
  }

  /** Each row turned into its 'top'-mode cells, all with the same boldness. */
  function TopRows(rows: seq<seq<Item>>, bold: bool, round2: real -> real): (r: seq<seq<Para>>)
    ensures |r| == |rows|
  {
    if rows == [] then []
    else TopRows(rows[..|rows| - 1], bold, round2) + [TopCells(rows[|rows| - 1], bold, round2)]
  }

  lemma {:induction false} WideSnoc(rows: seq<seq<Item>>, x: seq<Item>)
    ensures Wide(rows + [x]) == Wide(rows) + (if |Kept(x)| > 1 then [x] else [])
  {
    var s := rows + [x];
    assert s[..|s| - 1] == rows;
  }

  lemma {:induction false} LeftRowsSnoc(rows: seq<seq<Item>>, x: seq<Item>, round2: real -> real)
    ensures LeftRows(rows + [x], round2) == LeftRows(rows, round2) + [LeftCells(x, round2)]
  {
    var s := rows + [x];
    assert s[..|s| - 1] == rows;
  }

  lemma {:induction false} TopRowsSnoc(rows: seq<seq<Item>>, x: seq<Item>, bold: bool, round2: real -> real)
    ensures TopRows(rows + [x], bold, round2) == TopRows(rows, bold, round2) + [TopCells(x, bold, round2)]
  {
    var s := rows + [x];
    assert s[..|s| - 1] == rows;
  }

  /** The 'left' table is exactly the wide input rows, all of them and in
      input order, each as its cells. */
  lemma {:induction false} LeftDataIsWideRows(rows: seq<seq<Item>>, round2: real -> real)
    ensures LeftData(rows, round2) == LeftRows(Wide(rows), round2)
  {
    if rows != [] {
      var init, last := rows[..|rows| - 1], rows[|rows| - 1];
      assert rows == init + [last];
      LeftDataIsWideRows(init, round2);
      LeftCellsKept(last, round2);
      WideSnoc(init, last);
      if |Kept(last)| > 1 {
        LeftRowsSnoc(Wide(init), last, round2);
        assert LeftData(rows, round2) == LeftData(init, round2) + [LeftCells(last, round2)];
      } else {
        assert Wide(rows) == Wide(init);
        assert LeftData(rows, round2) == LeftData(init, round2);
      }
    }
  }

  /** The 'top' table is exactly the wide input rows, all of them and in
      input order: the first input row, when wide, with bold cells, and the
      wide rows after it with plain cells. */
  lemma {:induction false} TopDataIsWideRows(rows: seq<seq<Item>>, round2: real -> real)
    requires rows != []
    ensures TopData(rows, round2) ==
      TopRows(Wide(rows[..1]), true, round2) + TopRows(Wide(rows[1..]), false, round2)
  {
    if |rows| == 1 {
      TopDataFirst(rows[0], round2);
      assert rows == [rows[0]] == rows[..1];
      assert rows[1..] == [];
    } else {
      TopDataIsWideRows(rows[..|rows| - 1], round2);
      TopDataWideStep(rows, round2);
    }
  }

  /** One step of the induction above: a later row adds its plain cells
      when it is wide. */
  lemma {:induction false} TopDataWideStep(rows: seq<seq<Item>>, round2: real -> real)
    requires |rows| > 1
    requires TopData(rows[..|rows| - 1], round2) ==
      TopRows(Wide(rows[..1]), true, round2) + TopRows(Wide(rows[..|rows| - 1][1..]), false, round2)
    ensures TopData(rows, round2) ==
      TopRows(Wide(rows[..1]), true, round2) + TopRows(Wide(rows[1..]), false, round2)
  {
    var init, last := rows[..|rows| - 1], rows[|rows| - 1];
    var head := TopRows(Wide(rows[..1]), true, round2);
    var mid := TopRows(Wide(init[1..]), false, round2);
    var step := if |Kept(last)| > 1 then [TopCells(last, false, round2)] else [];
    TopDataPlainStep(rows, round2);
    TailSnoc(rows);
    TopRowsWideSnoc(init[1..], last, false, round2);
    calc {
      TopData(rows, round2);
      TopData(init, round2) + step;
      (head + mid) + step;
      { AppendAssoc(head, mid, step); }
      head + (mid + step);
      head + TopRows(Wide(init[1..] + [last]), false, round2);
      head + TopRows(Wide(rows[1..]), false, round2);
    }
  }

  /** Dropping the first row and the last row commute. */
  lemma {:induction false} TailSnoc<T>(s: seq<T>)
    requires |s| > 1
    ensures s[1..] == s[..|s| - 1][1..] + [s[|s| - 1]]
  {
  }

  lemma {:induction false} TopDataFirst(x: seq<Item>, round2: real -> real)
    ensures TopData([x], round2) == TopRows(Wide([x]), true, round2)
  {
    TopCellsKept(x, true, round2);
    WideSnoc([], x);
    assert [] + [x] == [x];
    if |Kept(x)| > 1 {
      TopRowsSnoc([], x, true, round2);
      assert [] + [x] == [x];
    }
  }

  lemma {:induction false} TopDataPlainStep(rows: seq<seq<Item>>, round2: real -> real)
    requires |rows| > 1
    ensures TopData(rows, round2) == TopData(rows[..|rows| - 1], round2) +
      (if |Kept(rows[|rows| - 1])| > 1 then [TopCells(rows[|rows| - 1], false, round2)] else [])
  {
    TopCellsKept(rows[|rows| - 1], false, round2);
  }

  lemma {:induction false} TopRowsWideSnoc(rows: seq<seq<Item>>, x: seq<Item>, bold: bool, round2: real -> real)
    ensures TopRows(Wide(rows + [x]), bold, round2) ==
      TopRows(Wide(rows), bold, round2) + (if |Kept(x)| > 1 then [TopCells(x, bold, round2)] else [])
  {
    WideSnoc(rows, x);
    if |Kept(x)| > 1 {
      TopRowsSnoc(Wide(rows), x, bold, round2);
    } else {
      assert Wide(rows + [x]) == Wide(rows);
    }
  }

  /** What `csv_to_table` is given: a list of rows (a CSV file is read into
      the same) or a DataFrame, as its column labels and its values. */
  datatype TableInput = Rows(rows: seq<seq<Item>>) | Frame(labels: seq<Item>, values: seq<seq<Item>>)

  /** The rows `process_data` is run on: a DataFrame's labels come first. */
  function Grid(input: TableInput): (r: seq<seq<Item>>)
    ensures input.Frame? ==> |r| == |input.values| + 1 && r[0] == input.labels && r[1..] == input.values
    ensures input.Rows? ==> r == input.rows
  {
    match input
      case Rows(rows) => rows
      case Frame(labels, values) => [labels] + values
  }

  /** `csv_to_table(input_data, bold)`. */
  method CsvToTable(input: TableInput, bold: string, round2: real -> real) returns (res: Result<seq<seq<Para>>, ReportError>)
    ensures res == ProcessDataSpec(Grid(input), bold, round2)
  {
    match input {
      case Rows(rows) =>
        res := ProcessData(rows, bold, round2);
      case Frame(labels, values) =>
        var data := values;
        data := [labels] + data;
        res := ProcessData(data, bold, round2);
    }
  }

  /** In 'top' mode a DataFrame's column labels, when more than one is
      non-empty, are the table's first row, all bold, and no other cell is
      bold. */
  lemma {:induction false} FrameLabelsOnTop(labels: seq<Item>, values: seq<seq<Item>>, round2: real -> real)
    requires |Kept(labels)| > 1
    ensures var t := ProcessDataSpec(Grid(Frame(labels, values)), "top", round2).value;
      && t != [] && |t[0]| == |Kept(labels)|
      && (forall k :: 0 <= k < |t[0]| ==> t[0][k] == Para(StripAscii(Kept(labels)[k], round2), true))
      && (forall i, k :: 1 <= i < |t| && 0 <= k < |t[i]| ==> !t[i][k].bold)
  {
    var rows := Grid(Frame(labels, values));
    TopDataShape(rows, round2);
    TopCellsKept(labels, true, round2);
  }

  /** `len(max(rows, key=len))` for a non-empty list. */
  function MaxLen(rows: seq<seq<Item>>): (r: nat)
    requires rows != []
    ensures forall i :: 0 <= i < |rows| ==> |rows[i]| <= r
    ensures exists i :: 0 <= i < |rows| && |rows[i]| == r
  {
    if |rows| == 1 then |rows[0]|
    else
      var m := MaxLen(rows[..|rows| - 1]);
      assert forall i :: 0 <= i < |rows| - 1 ==> rows[..|rows| - 1][i] == rows[i];
      if |rows[|rows| - 1]| > m then |rows[|rows| - 1]| else m
  }

  /** `count_columns(input_data)`: the widest row of a list (ValueError on an
      empty one), the number of labels of a DataFrame. */
  function CountColumns(input: TableInput): (r: Result<nat, ReportError>)
    ensures r.Err? <==> input == Rows([])
    ensures r.Err? ==> r.error == EmptyList
    ensures input.Frame? ==> r == Ok(|input.labels|)
    ensures input.Rows? && r.Ok? ==>
      (forall i :: 0 <= i < |input.rows| ==> |input.rows[i]| <= r.value) &&
      (exists i :: 0 <= i < |input.rows| && |input.rows[i]| == r.value)
  {
    match input
      case Rows(rows) => if rows == [] then Err(EmptyList) else Ok(MaxLen(rows))
      case Frame(labels, _) => Ok(|labels|)
  }

  /** The test `process_reader` applies to a row's first cell: the keyword
      when one is given (a truthy one), otherwise 'Name' but not 'File'. */
  predicate NameCell(cell: string, keyword: Option<string>) {
    if Active(keyword) then Contains(cell, keyword.value)
    else Contains(cell, "Name") && !Contains(cell, "File")
  }

  /** What `process_reader(reader, keyword)` returns or raises: the second
      cell of the first row whose first cell passes, 'None' when no row
      does; an empty row, or a passing row with one cell, is an IndexError. */
  function FindName(rows: seq<seq<string>>, keyword: Option<string>): Result<string, ReportError> {
    if rows == [] then Ok("None")
    else if rows[0] == [] then Err(IndexError)
    else if NameCell(rows[0][0], keyword) then
      (if |rows[0]| < 2 then Err(IndexError) else Ok(rows[0][1]))
    else FindName(rows[1..], keyword)
  }

  /** `process_reader`: a loop over the rows with an early return. */
  method ProcessReader(reader: seq<seq<string>>, keyword: Option<string>) returns (res: Result<string, ReportError>)
    ensures res == FindName(reader, keyword)
  {
    for i := 0 to |reader|
      invariant FindName(reader[i..], keyword) == FindName(reader, keyword)
    {
      var row := reader[i];
      assert reader[i..][1..] == reader[i + 1..];
      if row == [] {
        return Err(IndexError);
      }
      if Active(keyword) {
        if Contains(row[0], keyword.value) {
          if |row| < 2 {
            return Err(IndexError);
          }
          return Ok(row[1]);
        }
      } else {
        if Contains(row[0], "Name") && !Contains(row[0], "File") {
          if |row| < 2 {
            return Err(IndexError);
          }
          return Ok(row[1]);
        }
      }
    }
    assert reader[|reader|..] == [];
    return Ok("None");
  }

  /** Rows that are not empty and do not pass the test are skipped: the
      lookup goes on as if they were not there. */
  lemma {:induction false} FindNameSkips(rows: seq<seq<string>>, keyword: Option<string>, n: nat)
    requires n <= |rows|
    requires forall j :: 0 <= j < n ==> rows[j] != [] && !NameCell(rows[j][0], keyword)
    ensures FindName(rows, keyword) == FindName(rows[n..], keyword)
  {
    if n > 0 {
      assert rows[1..][n - 1..] == rows[n..];
      FindNameSkips(rows[1..], keyword, n - 1);
    }
  }

  /** The lookup returns the second cell of the first passing row, when every
      row before it has a first cell that does not pass; a passing row with
      only one cell, like an empty row before it, is an index error; with no
      passing row at all it returns 'None'. */
  lemma {:induction false} FindNameFirstMatch(rows: seq<seq<string>>, keyword: Option<string>, n: nat)
    requires n <= |rows|
    requires forall j :: 0 <= j < n ==> rows[j] != [] && !NameCell(rows[j][0], keyword)
    ensures n == |rows| ==> FindName(rows, keyword) == Ok("None")
    ensures n < |rows| && rows[n] == [] ==> FindName(rows, keyword) == Err(IndexError)
    ensures n < |rows| && |rows[n]| == 1 && NameCell(rows[n][0], keyword) ==> FindName(rows, keyword) == Err(IndexError)
    ensures n < |rows| && |rows[n]| >= 2 && NameCell(rows[n][0], keyword) ==> FindName(rows, keyword) == Ok(rows[n][1])
  {
    FindNameSkips(rows, keyword, n);
    if n < |rows| {
      assert rows[n..][0] == rows[n];
    }
  }

  /** The run-information rows of the module's own example. */
  const SampleHead: seq<seq<string>> := [
    ["Experiment Barcode", ""],
    ["Experiment Comment", ""],
    ["Experiment File Name", @"C:\Users\lucy\Aldatu Biosciences\Aldatu Lab - Documents\Cooperative Lab Projects\PANDAA Software\2024-01-17 - LASV Training Kit QC.eds"],
    ["Experiment Name", "2024-01-17 - LASV Training Kit QC"],
    ["Experiment Run End Time", "2024-01-17 11:18:31 AM EST"],
    ["Experiment Type", "Standard Curve"],
    ["Instrument Name", "Aldatu-QS3"],
    ["", ""],
    [],
    ["Instrument Serial Number", "272310002"],
    ["Instrument Type", "QuantStudio™ 3 System"],
    ["Passive Reference", "ROX"],
    ["Post-read Stage/Step"],
    ["Pre-read Stage/Step"],
    ["Quantification Cycle Method", "Ct"],
    ["Signal Smoothing On", "TRUE"],
    ["Stage/ Cycle where Ct Analysis is performed", "Stage3, Step2"],
    ["User Name", "IJM"]
  ]

  /** The first cells the default test meets in the example: the first two
      lack 'Name', the third also has 'File', the fourth passes. */
  lemma SampleBarcodeCell()
    ensures !NameCell("Experiment Barcode", None)
  {
    AbsentFirstChar("Experiment Barcode", "Name");
  }

  lemma SampleCommentCell()
    ensures !NameCell("Experiment Comment", None)
  {
    AbsentFirstChar("Experiment Comment", "Name");
  }

  lemma SampleFileNameCell()
    ensures !NameCell("Experiment File Name", None)
  {
    ContainsAt("Experiment File Name", "File", 11);
  }

  lemma SampleNameCell()
    ensures NameCell("Experiment Name", None)
  {
    ContainsAt("Experiment Name", "Name", 11);
    AbsentFirstChar("Experiment Name", "File");
  }

  /** Without a keyword the example's experiment name is found: the file-name
      row is passed over because it mentions 'File'. */
  lemma SampleExperimentName()
    ensures FindName(SampleHead, None) == Ok("2024-01-17 - LASV Training Kit QC")
  {
    var rows := SampleHead;
    assert rows[0][0] == "Experiment Barcode";
    assert FindName(rows, None) == FindName(rows[1..], None) by {
      SampleBarcodeCell();
    }
    assert rows[1..][0][0] == "Experiment Comment";
    assert FindName(rows[1..], None) == FindName(rows[2..], None) by {
      SampleCommentCell();
      assert rows[1..][1..] == rows[2..];
    }
    assert rows[2..][0][0] == "Experiment File Name";
    assert FindName(rows[2..], None) == FindName(rows[3..], None) by {
      SampleFileNameCell();
      assert rows[2..][1..] == rows[3..];
    }
    assert rows[3..][0] == ["Experiment Name", "2024-01-17 - LASV Training Kit QC"];
    SampleNameCell();
  }

  /** `path.replace(' - Summary', '')`, applied when the path contains the
      tag; the base name and extension split that follows is not part of
      this model. */
  function WithoutSummaryTag(path: string): (r: string)
    ensures !Contains(path, " - Summary") ==> r == path
    ensures IsSubsequence(r, path)
  {
    if Contains(path, " - Summary") then
      ReplaceDeletes(path, " - Summary");
      ReplaceAll(path, " - Summary", "")
    else
      SubsequenceRefl(path);
      path
  }

  /** The tag is deleted at its first occurrence and at every later one:
      what precedes the first occurrence is kept as it is. */
  lemma {:induction false} SummaryTagDeleted(p: string, x: string)
    requires forall k :: 0 <= k < |p| ==> !(" - Summary" <= (p + (" - Summary" + x))[k..])
    ensures WithoutSummaryTag(p + (" - Summary" + x)) == p + ReplaceAll(x, " - Summary", "")
  {
    var tag := " - Summary";
    var path := p + (tag + x);
    assert path[|p|..] == tag + x;
    ContainsAt(path, tag, |p|);
    ReplaceSkip(p, tag + x, tag, "");
    ReplaceHead(tag, x, "");
    assert "" + ReplaceAll(x, tag, "") == ReplaceAll(x, tag, "");
  }

  /** A summary export's path loses its tag: "Run 5 - Summary.csv" becomes
      "Run 5.csv". */
  lemma SummaryPathExample()
    ensures WithoutSummaryTag("Run 5 - Summary.csv") == "Run 5.csv"
  {
    var tag := " - Summary";
    var p, x := "Run 5", ".csv";
    var path := p + (tag + x);
    forall k | 0 <= k < |p|
      ensures !(tag <= path[k..])
    {
      if k == 3 {
        assert path[k..][1] == '5' != tag[1];
      } else {
        assert path[k..][0] == p[k] != tag[0];
      }
    }
    SummaryTagDeleted(p, x);
    ReplaceShort(x, tag, "");
    assert path == "Run 5 - Summary.csv";
    assert p + x == "Run 5.csv";
  }
}
