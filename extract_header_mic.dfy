/** `extract_header(reader, flag, stop)` of vhf/extract_header_mic.py: picks
    the run-metadata block out of an export. Tokens are tested against the
    printed row `str(line)`, never against single cells. */
module ExtractHeaderMic {
  import opened Wrappers
  import opened Text
  import opened PyRepr
  import opened Splitter

  /** Python truthiness of an optional token: `None` and `''` are both off. */
  predicate Active(token: Option<string>) {
    token.Some? && token.value != ""
  }

  /** The row switches `headbool` off: with a stop token, a row whose printed
      form contains it; without one, a blank row. */
  predicate EndsCapture(row: Row, stop: Option<string>) {
    if Active(stop) then Mentions(row, stop.value) else IsBlank(row)
  }

  /** The row switches `headbool` on: a flag is given and the printed row contains it. */
  predicate StartsCapture(row: Row, flag: Option<string>) {
    Active(flag) && Mentions(row, flag.value)
  }

  /** `headbool` after the loop body has seen `rows` (before any row: on
      exactly when no flag is given). The flag test runs after the stop test,
      so a row that both starts and ends capture turns it on. */
  function HeadOn(rows: seq<Row>, flag: Option<string>, stop: Option<string>): bool {
    if rows == [] then !Active(flag)
    else
      var last := rows[|rows| - 1];
      (HeadOn(rows[..|rows| - 1], flag, stop) && !EndsCapture(last, stop)) || StartsCapture(last, flag)
  }

  /** `head` after the loop has seen `rows`. */
  function Head(rows: seq<Row>, flag: Option<string>, stop: Option<string>): seq<Row> {
    if rows == [] then []
    else Head(rows[..|rows| - 1], flag, stop) + (if HeadOn(rows, flag, stop) then [rows[|rows| - 1]] else [])
  }

  method ExtractHeader(reader: seq<Row>, flag: Option<string>, stop: Option<string>) returns (head: seq<Row>)
    ensures head == Head(reader, flag, stop)
  {
    var headBool := !Active(flag);
    head := [];
    for i := 0 to |reader|
      invariant headBool == HeadOn(reader[..i], flag, stop)
      invariant head == Head(reader[..i], flag, stop)
    {
      var line := reader[i];
      assert reader[..i + 1][..i] == reader[..i];
      if !Active(stop) {
        if IsBlank(line) {
          headBool := false;
        }
      } else {
        if Mentions(line, stop.value) {
          headBool := false;
        }
      }
      if Active(flag) {
        if Mentions(line, flag.value) {
          headBool := true;
        }
      }
      if headBool {
        head := head + [line];
      }
    }
    assert reader[..|reader|] == reader;
  }

  /** With a flag, capture is on after `rows` exactly when some row's printed
      form contains the flag and no later row ends capture. */
  lemma {:induction false} HeadOnIff(rows: seq<Row>, flag: Option<string>, stop: Option<string>)
    requires Active(flag)
    ensures HeadOn(rows, flag, stop) <==>
      exists j :: 0 <= j < |rows| && StartsCapture(rows[j], flag)
        && forall m :: j < m < |rows| ==> !EndsCapture(rows[m], stop)
  {
    if HeadOn(rows, flag, stop) {
      var j := HeadOnWitness(rows, flag, stop);
    } else {
      forall j | 0 <= j < |rows| && StartsCapture(rows[j], flag)
        ensures !forall m :: j < m < |rows| ==> !EndsCapture(rows[m], stop)
      {
        HeadOnFromWitness(rows, flag, stop, j);
      }
    }
  }

  /** The latest flag row after which capture never ended. */
  lemma {:induction false} HeadOnWitness(rows: seq<Row>, flag: Option<string>, stop: Option<string>) returns (j: nat)
    requires Active(flag) && HeadOn(rows, flag, stop)
    ensures j < |rows| && StartsCapture(rows[j], flag)
    ensures forall m :: j < m < |rows| ==> !EndsCapture(rows[m], stop)
  {
    var init, last := rows[..|rows| - 1], rows[|rows| - 1];
    if StartsCapture(last, flag) {
      j := |rows| - 1;
    } else {
      assert HeadOn(init, flag, stop) && !EndsCapture(last, stop);
      j := HeadOnWitness(init, flag, stop);
      assert rows[j] == init[j];
      forall m | j < m < |rows| ensures !EndsCapture(rows[m], stop) {
        if m < |init| {
          assert rows[m] == init[m];
        }
      }
    }
  }

  /** A flag row followed by rows that never end capture leaves capture on. */
  lemma {:induction false} HeadOnFromWitness(rows: seq<Row>, flag: Option<string>, stop: Option<string>, j: nat)
    requires j < |rows|
    ensures StartsCapture(rows[j], flag) && (forall m :: j < m < |rows| ==> !EndsCapture(rows[m], stop))
      ==> HeadOn(rows, flag, stop)
  {
    var init, last := rows[..|rows| - 1], rows[|rows| - 1];
    assert HeadOn(rows, flag, stop) == ((HeadOn(init, flag, stop) && !EndsCapture(last, stop)) || StartsCapture(last, flag));
    if j < |rows| - 1 {
      HeadOnFromWitness(init, flag, stop, j);
      if StartsCapture(rows[j], flag) && (forall m :: j < m < |rows| ==> !EndsCapture(rows[m], stop)) {
        assert init[j] == rows[j];
        forall m | j < m < |init| ensures !EndsCapture(init[m], stop) {
          assert init[m] == rows[m];
        }
        assert !EndsCapture(last, stop);
      }
    }
  }

  /** Row `k` is in the header block: some row at or before it, possibly
      itself, contains the flag, and no row after that one up to and
      including row `k` ends capture. */
  ghost predicate InHeadAt(rows: seq<Row>, flag: Option<string>, stop: Option<string>, k: nat)
    requires k < |rows|
  {
    exists j :: 0 <= j <= k && StartsCapture(rows[j], flag)
      && forall m :: j < m <= k ==> !EndsCapture(rows[m], stop)
  }

  /** Which rows `extract_header` keeps when a flag is given: capture starts
      at and includes a flag row (even one that also contains the stop token),
      stops before a row that ends capture, and restarts at a later flag row. */
  lemma {:induction false} HeadStep(rows: seq<Row>, flag: Option<string>, stop: Option<string>, k: nat)
    requires Active(flag) && k < |rows|
    ensures Head(rows[..k + 1], flag, stop) ==
      Head(rows[..k], flag, stop) + (if InHeadAt(rows, flag, stop, k) then [rows[k]] else [])
  {
    var pre := rows[..k + 1];
    assert pre[..k] == rows[..k];
    assert Head(pre, flag, stop) == Head(rows[..k], flag, stop) + (if HeadOn(pre, flag, stop) then [rows[k]] else []);
    if HeadOn(pre, flag, stop) {
      var j := HeadOnWitness(pre, flag, stop);
      assert StartsCapture(rows[j], flag);
      forall m | j < m <= k ensures !EndsCapture(rows[m], stop) {
        assert rows[m] == pre[m];
      }
      assert InHeadAt(rows, flag, stop, k);
    }
    if InHeadAt(rows, flag, stop, k) {
      var j :| 0 <= j <= k && StartsCapture(rows[j], flag)
        && forall m :: j < m <= k ==> !EndsCapture(rows[m], stop);
      HeadOnFromWitness(pre, flag, stop, j);
      assert StartsCapture(pre[j], flag);
      forall m | j < m < |pre| ensures !EndsCapture(pre[m], stop) {
        assert rows[m] == pre[m];
      }
    }
  }

  /** Without a flag, the header is the run of rows from the first row up to,
      and not including, the first row that ends capture; capture never
      restarts. */
  lemma {:induction false} NoFlagLeadingRun(rows: seq<Row>, flag: Option<string>, stop: Option<string>)
    requires !Active(flag)
    ensures var h := Head(rows, flag, stop);
      && |h| <= |rows| && h == rows[..|h|]
      && (forall m :: 0 <= m < |h| ==> !EndsCapture(rows[m], stop))
      && (|h| < |rows| ==> EndsCapture(rows[|h|], stop))
    ensures HeadOn(rows, flag, stop) <==> |Head(rows, flag, stop)| == |rows|
  {
    if rows != [] {
      var init, last := rows[..|rows| - 1], rows[|rows| - 1];
      NoFlagLeadingRun(init, flag, stop);
      var h := Head(init, flag, stop);
      assert rows == init + [last];
      if HeadOn(rows, flag, stop) {
        assert Head(rows, flag, stop) == h + [last];
        assert |h| == |init|;
        assert h == init;
        assert rows[..|rows|] == rows;
      } else {
        assert Head(rows, flag, stop) == h;
        assert |h| <= |init|;
        assert rows[..|h|] == init[..|h|];
        forall m | 0 <= m < |h| ensures !EndsCapture(rows[m], stop) {
          assert rows[m] == init[m];
        }
        if |h| < |init| {
          assert rows[|h|] == init[|h|];
        }
      }
    }
  }

  /** The header is made of input rows, unchanged and in input order. */
  lemma {:induction false} HeadSubsequence(rows: seq<Row>, flag: Option<string>, stop: Option<string>)
    ensures IsSubsequence(Head(rows, flag, stop), rows)
  {
    if rows == [] {
    } else {
      var init, last := rows[..|rows| - 1], rows[|rows| - 1];
      HeadSubsequence(init, flag, stop);
      assert rows == init + [last];
      if HeadOn(rows, flag, stop) {
        assert Head(rows, flag, stop) == Head(init, flag, stop) + [last];
        SubsequenceSnoc(Head(init, flag, stop), init, last);
      } else {
        assert Head(rows, flag, stop) == Head(init, flag, stop);
        SubsequenceSnocRight(Head(init, flag, stop), init, last);
      }
    }
  }

  /** The shape of the repository's header test (flag `Experiment`, stop
      token `Stop`): for a flag row, a row that neither starts nor ends
      capture, a stop row and a trailing row, the header is the first two. */
  lemma {:induction false} FlagThenStop(rows: seq<Row>, flag: Option<string>, stop: Option<string>)
    requires |rows| == 4
    requires StartsCapture(rows[0], flag)
    requires !EndsCapture(rows[1], stop) && !StartsCapture(rows[1], flag)
    requires EndsCapture(rows[2], stop) && !StartsCapture(rows[2], flag)
    requires !StartsCapture(rows[3], flag)
    ensures Head(rows, flag, stop) == rows[..2]
  {
    assert rows[..1][..0] == [];
    assert Head(rows[..1], flag, stop) == [rows[0]];
    assert rows[..2][..1] == rows[..1];
    assert Head(rows[..2], flag, stop) == [rows[0], rows[1]];
    assert rows[..3][..2] == rows[..2];
    assert !HeadOn(rows[..3], flag, stop);
    assert rows[..4][..3] == rows[..3];
    assert rows[..4] == rows;
  }
}
