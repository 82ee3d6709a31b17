/** `extract_header(reader, flag)` of extract_header.py: the older variant,
    without a stop token. A blank row always ends capture, the flag is tested
    against the printed row on every row, and a missing flag makes that test
    a type error. (`isblank` and `csv_to_df` in the same file are the same
    code as in the Mic variant and are modelled once, in module Splitter.) */
module ExtractHeaderLegacy {
  import opened Wrappers
  import opened Text
  import opened PyRepr
  import opened Splitter
  import opened ExtractHeaderMic

  /** `flag in str(line)` with `flag = None` raises a TypeError. */
  datatype LegacyError = FlagNotString

  /** `headbool` after the loop body has seen `rows`; before any row it is on
      exactly when the flag is the empty string (the only falsy string). */
  function LegacyOn(rows: seq<Row>, flag: string): bool {
    if rows == [] then flag == ""
    else
      var last := rows[|rows| - 1];
      (LegacyOn(rows[..|rows| - 1], flag) && !IsBlank(last)) || Mentions(last, flag)
  }

  /** `head` after the loop has seen `rows`. */
  function LegacyHead(rows: seq<Row>, flag: string): seq<Row> {
    if rows == [] then []
    else LegacyHead(rows[..|rows| - 1], flag) + (if LegacyOn(rows, flag) then [rows[|rows| - 1]] else [])
  }

  method ExtractHeader(reader: seq<Row>, flag: Option<string>) returns (res: Result<seq<Row>, LegacyError>)
    ensures flag.None? && reader != [] ==> res == Err(FlagNotString)
    ensures flag.None? && reader == [] ==> res == Ok([])
    ensures flag.Some? ==> res == Ok(LegacyHead(reader, flag.value))
  {
    var headBool := !(flag.Some? && flag.value != "");
    var head := [];
    for i := 0 to |reader|
      invariant flag.None? ==> i == 0
      invariant flag.Some? ==> headBool == LegacyOn(reader[..i], flag.value)
      invariant flag.Some? ==> head == LegacyHead(reader[..i], flag.value)
      invariant flag.None? ==> head == []
    {
      var line := reader[i];
      assert reader[..i + 1][..i] == reader[..i];
      if IsBlank(line) {
        headBool := false;
      }
      if flag.None? {
        return Err(FlagNotString);
      }
      if Mentions(line, flag.value) {
        headBool := true;
      }
      if headBool {
        head := head + [line];
      }
    }
    assert reader[..|reader|] == reader;
    return Ok(head);
  }

  /** With a non-empty flag the older variant keeps exactly the rows the Mic
      variant keeps when it is given the same flag and no stop token. */
  lemma {:induction false} LegacyAgreesWithMic(rows: seq<Row>, flag: string)
    requires flag != ""
    ensures LegacyOn(rows, flag) == HeadOn(rows, Some(flag), None)
    ensures LegacyHead(rows, flag) == Head(rows, Some(flag), None)
  {
    if rows != [] {
      LegacyAgreesWithMic(rows[..|rows| - 1], flag);
    }
  }

  /** The empty flag is contained in every printed row, so every row is kept. */
  lemma {:induction false} EmptyFlagKeepsAll(rows: seq<Row>)
    ensures LegacyOn(rows, "")
    ensures LegacyHead(rows, "") == rows
  {
    if rows != [] {
      var init := rows[..|rows| - 1];
      EmptyFlagKeepsAll(init);
      assert Mentions(rows[|rows| - 1], "");
      assert rows == init + [rows[|rows| - 1]];
    }
  }

  /** A blank row is kept only when its own printed form contains the flag
      (a blank row such as `['', '']` still prints brackets and quotes). */
  lemma {:induction false} BlankRowKeptOnlyIfMentioned(rows: seq<Row>, flag: string)
    requires rows != [] && IsBlank(rows[|rows| - 1])
    ensures LegacyOn(rows, flag) <==> Mentions(rows[|rows| - 1], flag)
  {
  }

  /** Capture can restart: a later row that mentions the flag is kept whatever
      came before it. */
  lemma {:induction false} FlagRowKept(rows: seq<Row>, flag: string)
    requires rows != [] && Mentions(rows[|rows| - 1], flag)
    ensures LegacyHead(rows, flag) == LegacyHead(rows[..|rows| - 1], flag) + [rows[|rows| - 1]]
  {
  }

  /** The header is made of input rows, unchanged and in input order. */
  lemma {:induction false} LegacyHeadSubsequence(rows: seq<Row>, flag: string)
    ensures IsSubsequence(LegacyHead(rows, flag), rows)
  {
    if flag == "" {
      EmptyFlagKeepsAll(rows);
      SubsequenceRefl(rows);
    } else {
      LegacyAgreesWithMic(rows, flag);
      HeadSubsequence(rows, Some(flag), None);
    }
  }
}
