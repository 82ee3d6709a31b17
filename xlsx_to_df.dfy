/** xlsx_to_df.py: the per-machine normalisers that turn an instrument's
    results into one summary table with a row per well and a CT column per
    fluorophore. File dialogs and spreadsheet reading are parameters: the
    QuantStudio sheet is a function from the number of skipped rows to the
    table read (or `None` when no readable file was chosen), and each chosen
    Rotor-Gene file comes with the table read from it. A message box followed
    by `SystemExit`, and an exception nobody catches, both become a `Failure`. */
module XlsxToDf {
  import opened Wrappers
  import opened Text
  import opened Tables

  datatype Failure =
    | FileNotSelected       // the results sheet could not be read
    | UnexpectedMachine     // unknown machine type, or no CT / Comments column
    | FluorMismatch         // the file's reporters are not the assay's fluorophores
    | WrongFileCount        // not one Rotor-Gene file per fluorophore
    | IncorrectFiles        // a Rotor-Gene file without a Ct column
    | IncompleteFiles       // the chosen files were not all used exactly once
    | KeyError(name: string)  // uncaught: a column label that is not there
    | NoSummary             // uncaught: `summary_table` was never bound

  /** No element occurs twice. */
  predicate Distinct(s: seq<string>) {
    forall x | x in s :: multiset(s)[x] <= 1
  }

  /** The first components of a sequence of pairs: the codes of
      `fluor_names`, or the paths of the chosen files. */
  function Firsts<K, V>(ps: seq<(K, V)>): (r: seq<K>)
    ensures |r| == |ps| && forall i :: 0 <= i < |ps| ==> r[i] == ps[i].0
  {
    seq(|ps|, i requires 0 <= i < |ps| => ps[i].0)
  }

  /** `fluor_names`: the assay's dictionary from fluorophore code to target
      name, in insertion order; a dictionary holds each code once. */
  type FluorNames = f: seq<(string, string)> | Distinct(Firsts(f)) witness []

  const WellPosition := "Well Position"
  const SampleName := "Sample Name"
  const Copies := "Copies"
  const Comments := "Comments"

  function CtLabel(code: string): string { code + " CT" }
  function CqConfLabel(code: string): string { code + " Cq Conf" }

  /** The labels the normalisers create are told apart by their endings. */
  lemma {:induction false} LabelsDiffer(a: string, b: string)
    ensures CtLabel(a) != CqConfLabel(b)
    ensures CtLabel(a) !in [WellPosition, SampleName, Copies, Comments]
    ensures CqConfLabel(a) !in [WellPosition, SampleName, Copies, Comments]
    ensures CtLabel(a) == CtLabel(b) ==> a == b
    ensures CqConfLabel(a) == CqConfLabel(b) ==> a == b
  {
    var ct, cq := CtLabel(a), CqConfLabel(a);
    assert ct[|ct| - 1] == 'T' && CqConfLabel(b)[|CqConfLabel(b)| - 1] == 'f';
    assert cq[|cq| - 1] == 'f';
    if CtLabel(a) == CtLabel(b) {
      assert a == CtLabel(a)[..|a|] && b == CtLabel(b)[..|b|];
    }
    if CqConfLabel(a) == CqConfLabel(b) {
      assert a == CqConfLabel(a)[..|a|] && b == CqConfLabel(b)[..|b|];
    }
  }

  // ---------------------------------------------------------------- QuantStudio

  /** Rows to skip before the Results sheet's table, per machine type. */
  function SheetOffset(machine: string): Option<nat> {
    if machine == "QuantStudio 5" then Some(47)
    else if machine == "QuantStudio 3" then Some(43)
    else None
  }

  /** The Results table once "Undetermined" CT values carry the cutoff and
      the "Copies" column holds `copies` of each row's comment (the parsing
      of the comment is a parameter). */
  function Prepare(raw: Table, cutoff: Cell, copies: Cell -> Cell): Result<Table, Failure> {
    if "CT" !in raw.columns || Comments !in raw.columns then Err(UnexpectedMachine)
    else
      var t := Substitute(raw, IndexOf(raw.columns, "CT").value, Text("Undetermined"), cutoff);
      var com := IndexOf(t.columns, Comments).value;
      Ok(WithColumn(t, Copies, seq(|t.rows|, i requires 0 <= i < |t.rows| => copies(t.rows[i][com]))))
  }

  /** The rows of one fluorophore, its CT and Cq Conf columns renamed. */
  function FluorTable(t: Table, rep: nat, code: string): Table {
    Rename(Where(t, rep, Text(code)), [("CT", CtLabel(code)), ("Cq Conf", CqConfLabel(code))])
  }

  /** One pass of the fluorophore loop: the first pass selects the sample
      columns, later passes merge the fluorophore's columns on the well. */
  function QsStep(summary: Option<Table>, t: Table, rep: nat, code: string): Result<Table, TableError> {
    var sub := FluorTable(t, rep, code);
    if summary.None? then
      Select(sub, FirstNames(code))
    else
      match Select(sub, LaterNames(code))
        case Err(e) => Err(e)
        case Ok(right) => Join(summary.value, right, WellPosition)
  }

  /** `summary_table` after the loop has seen `codes` (`None` while unbound). */
  function QsFold(t: Table, rep: nat, codes: seq<string>): Result<Option<Table>, TableError> {
    if codes == [] then Ok(None)
    else
      match QsFold(t, rep, codes[..|codes| - 1])
        case Err(e) => Err(e)
        case Ok(s) =>
          match QsStep(s, t, rep, codes[|codes| - 1])
            case Err(e) => Err(e)
            case Ok(next) => Ok(Some(next))
  }

  /** The distinct reporter values equal the assay's fluorophore codes. */
  predicate ReportersMatch(t: Table, rep: nat, codes: seq<string>)
    requires rep < |t.columns|
  {
    (set i | 0 <= i < |t.rows| :: t.rows[i][rep]) == (set c | c in codes :: Text(c))
  }

  function QsSummary(t: Table, fluors: FluorNames): Result<Table, Failure> {
    match IndexOf(t.columns, "Reporter")
      case None => Err(KeyError("Reporter"))
      case Some(rep) =>
        if !ReportersMatch(t, rep, Firsts(fluors)) then Err(FluorMismatch)
        else match QsFold(t, rep, Firsts(fluors))
          case Err(e) => Err(KeyError(e.name))
          case Ok(None) => Err(NoSummary)
          case Ok(Some(s)) => Ok(s)
  }

  /** `quantstudio(machine_type, fluor_names, cq_cutoff)` without the path it
      also returns. */
  function QuantStudioSpec(machine: string, fluors: FluorNames, cutoff: Cell,
                           read: nat -> Option<Table>, copies: Cell -> Cell): Result<Table, Failure>
  {
    match SheetOffset(machine)
      case None => Err(UnexpectedMachine)
      case Some(offset) =>
        match read(offset)
          case None => Err(FileNotSelected)
          case Some(raw) =>
            match Prepare(raw, cutoff, copies)
              case Err(e) => Err(e)
              case Ok(t) => QsSummary(t, fluors)
  }

  lemma {:induction false} QsFoldErrSticky(t: Table, rep: nat, codes: seq<string>, k: nat)
    requires k <= |codes| && QsFold(t, rep, codes[..k]).Err?
    ensures QsFold(t, rep, codes) == QsFold(t, rep, codes[..k])
    decreases |codes| - k
  {
    if k < |codes| {
      assert codes[..k + 1][..k] == codes[..k];
      QsFoldErrSticky(t, rep, codes, k + 1);
    } else {
      assert codes[..k] == codes;
    }
  }

  /** One more pass of the loop over a successful prefix. */
  lemma QsFoldSnoc(t: Table, rep: nat, codes: seq<string>, i: nat)
    requires i < |codes| && QsFold(t, rep, codes[..i]).Ok?
    ensures var step := QsStep(QsFold(t, rep, codes[..i]).value, t, rep, codes[i]);
      QsFold(t, rep, codes[..i + 1]) == if step.Err? then Err(step.error) else Ok(Some(step.value))
  {
    assert codes[..i + 1][..i] == codes[..i];
  }

  /** The fluorophore loop: `first_loop` is on until a table is bound to
      `summary_table`; every pass rebinds it. */
  method FoldFluors(t: Table, rep: nat, codes: seq<string>) returns (res: Result<Option<Table>, TableError>)
    ensures res == QsFold(t, rep, codes)
  {
    var firstLoop := true;
    var summaryTable: Table := DataFrame([], []);
    for i := 0 to |codes|
      invariant QsFold(t, rep, codes[..i]).Ok?
      invariant firstLoop <==> QsFold(t, rep, codes[..i]).value.None?
      invariant !firstLoop ==> QsFold(t, rep, codes[..i]).value == Some(summaryTable)
    {
      var fluor := codes[i];
      var prev := if firstLoop then None else Some(summaryTable);
      assert QsFold(t, rep, codes[..i]) == Ok(prev);
      var step := QsStep(prev, t, rep, fluor);
      QsFoldSnoc(t, rep, codes, i);
      if step.Err? {
        QsFoldErrSticky(t, rep, codes, i + 1);
        return Err(step.error);
      }
      summaryTable := step.value;
      firstLoop := false;
    }
    assert codes[..|codes|] == codes;
    if firstLoop {
      return Ok(None);
    }
    return Ok(Some(summaryTable));
  }

  method QuantStudio(machine: string, fluors: FluorNames, cutoff: Cell,
                     read: nat -> Option<Table>, copies: Cell -> Cell) returns (res: Result<Table, Failure>)
    ensures res == QuantStudioSpec(machine, fluors, cutoff, read, copies)
  {
    var offset: nat;
    if machine == "QuantStudio 5" {
      offset := 47;
    } else if machine == "QuantStudio 3" {
      offset := 43;
    } else {
      return Err(UnexpectedMachine);
    }
    var sheet := read(offset);
    if sheet.None? {
      return Err(FileNotSelected);
    }
    var prepared := Prepare(sheet.value, cutoff, copies);
    if prepared.Err? {
      return Err(prepared.error);
    }
    var resultsTable := prepared.value;
    var rep := IndexOf(resultsTable.columns, "Reporter");
    if rep.None? {
      return Err(KeyError("Reporter"));
    }
    if !ReportersMatch(resultsTable, rep.value, Firsts(fluors)) {
      return Err(FluorMismatch);
    }
    var summary := FoldFluors(resultsTable, rep.value, Firsts(fluors));
    match summary {
      case Err(e) => return Err(KeyError(e.name));
      case Ok(None) => return Err(NoSummary);
      case Ok(Some(s)) => return Ok(s);
    }
  }

  /** Only the two QuantStudio models are known; any other machine type
      stops the run before a sheet is read. For the known ones, only the
      sheet read with that machine's offset matters. */
  lemma {:induction false} MachineOffsets(machine: string, fluors: FluorNames, cutoff: Cell,
                                          read: nat -> Option<Table>, read': nat -> Option<Table>, copies: Cell -> Cell)
    ensures machine != "QuantStudio 5" && machine != "QuantStudio 3" ==>
      QuantStudioSpec(machine, fluors, cutoff, read, copies) == Err(UnexpectedMachine)
    ensures machine == "QuantStudio 5" && read(47) == read'(47) ==>
      QuantStudioSpec(machine, fluors, cutoff, read, copies) == QuantStudioSpec(machine, fluors, cutoff, read', copies)
    ensures machine == "QuantStudio 3" && read(43) == read'(43) ==>
      QuantStudioSpec(machine, fluors, cutoff, read, copies) == QuantStudioSpec(machine, fluors, cutoff, read', copies)
  {
  }

  /** Preparing the sheet fails exactly when the CT or the Comments column is
      missing. Otherwise every "Undetermined" CT becomes the cutoff and every
      other CT is unchanged, "Copies" holds the parsed comment of its row, and
      every other cell is unchanged. */
  lemma {:induction false} PrepareCells(raw: Table, cutoff: Cell, copies: Cell -> Cell)
    ensures Prepare(raw, cutoff, copies).Err? <==> "CT" !in raw.columns || Comments !in raw.columns
    ensures Prepare(raw, cutoff, copies).Ok? ==>
      var t := Prepare(raw, cutoff, copies).value;
      && t.columns == (if Copies in raw.columns then raw.columns else raw.columns + [Copies])
      && |t.rows| == |raw.rows|
      && (forall i :: 0 <= i < |raw.rows| ==>
            Lookup(t, i, "CT") ==
              (if Lookup(raw, i, "CT") == Text("Undetermined") then cutoff else Lookup(raw, i, "CT")))
      && (forall i :: 0 <= i < |raw.rows| ==> Lookup(t, i, Copies) == copies(Lookup(raw, i, Comments)))
      && (forall i, k ::
            (0 <= i < |raw.rows| && 0 <= k < |raw.columns| && raw.columns[k] != Copies && raw.columns[k] != "CT")
            ==> t.rows[i][k] == raw.rows[i][k])
  {
    if "CT" in raw.columns && Comments in raw.columns {
      var ct := IndexOf(raw.columns, "CT").value;
      var s := Substitute(raw, ct, Text("Undetermined"), cutoff);
      var com := IndexOf(s.columns, Comments).value;
      var cells := seq(|s.rows|, i requires 0 <= i < |s.rows| => copies(s.rows[i][com]));
      var t := WithColumn(s, Copies, cells);
      assert Prepare(raw, cutoff, copies) == Ok(t);
      forall i | 0 <= i < |raw.rows|
        ensures Lookup(t, i, "CT") == (if Lookup(raw, i, "CT") == Text("Undetermined") then cutoff else Lookup(raw, i, "CT"))
      {
        PrepareCt(raw, cutoff, copies, i);
      }
    }
  }

  /** One row's CT cell after preparing the sheet. */
  lemma {:induction false} PrepareCt(raw: Table, cutoff: Cell, copies: Cell -> Cell, i: nat)
    requires "CT" in raw.columns && Comments in raw.columns && i < |raw.rows|
    ensures var t := Prepare(raw, cutoff, copies).value;
      && "CT" in t.columns && i < |t.rows|
      && Lookup(t, i, "CT") == (if Lookup(raw, i, "CT") == Text("Undetermined") then cutoff else Lookup(raw, i, "CT"))
  {
    var ct := IndexOf(raw.columns, "CT").value;
    var s := Substitute(raw, ct, Text("Undetermined"), cutoff);
    var com := IndexOf(s.columns, Comments).value;
    var cells := seq(|s.rows|, i requires 0 <= i < |s.rows| => copies(s.rows[i][com]));
    var t := WithColumn(s, Copies, cells);
    assert Prepare(raw, cutoff, copies) == Ok(t);
    IndexOfPrefix(raw.columns, [Copies], "CT");
    assert IndexOf(t.columns, "CT") == Some(ct);
    assert t.rows[i][ct] == s.rows[i][ct];
  }

  /** The rows of a fluorophore's table are exactly the rows whose reporter is
      that fluorophore, each as often as in the sheet; its labels are the
      sheet's with CT and Cq Conf renamed for the fluorophore. */
  lemma {:induction false} FluorTableShape(t: Table, rep: nat, code: string)
    ensures var f := FluorTable(t, rep, code);
      && (forall r :: multiset(f.rows)[r] ==
            (if rep < |r| && r[rep] == Text(code) then multiset(t.rows)[r] else 0))
      && |f.columns| == |t.columns|
      && (forall k :: 0 <= k < |t.columns| ==>
            f.columns[k] == (if t.columns[k] == "CT" then CtLabel(code)
                             else if t.columns[k] == "Cq Conf" then CqConfLabel(code)
                             else t.columns[k]))
  {
    FilterExact(t.rows, rep, Text(code));
    var pairs := [("CT", CtLabel(code)), ("Cq Conf", CqConfLabel(code))];
    forall k | 0 <= k < |t.columns|
      ensures Relabel(t.columns[k], pairs) == (if t.columns[k] == "CT" then CtLabel(code)
                             else if t.columns[k] == "Cq Conf" then CqConfLabel(code)
                             else t.columns[k])
    {
      assert pairs[1..][1..] == [];
    }
  }

  /** Labels of the summary: the sample columns, then each fluorophore's CT
      and Cq Conf in `fluor_names` order. */
  function SummaryColumns(codes: seq<string>): seq<string> {
    [WellPosition, SampleName, Copies, Comments] + FluorColumns(codes)
  }

  function FluorColumns(codes: seq<string>): seq<string> {
    if codes == [] then []
    else FluorColumns(codes[..|codes| - 1]) + [CtLabel(codes[|codes| - 1]), CqConfLabel(codes[|codes| - 1])]
  }

  /** Each further code appends its CT and Cq Conf labels. */
  lemma SummaryColumnsSnoc(codes: seq<string>)
    requires codes != []
    ensures SummaryColumns(codes) ==
      SummaryColumns(codes[..|codes| - 1]) + [CtLabel(codes[|codes| - 1]), CqConfLabel(codes[|codes| - 1])]
  {
  }

  lemma {:induction false} FluorColumnsFrom(codes: seq<string>, x: string)
    requires x in FluorColumns(codes)
    ensures exists c :: c in codes && (x == CtLabel(c) || x == CqConfLabel(c))
  {
    var init := codes[..|codes| - 1];
    var last := codes[|codes| - 1];
    if x in FluorColumns(init) {
      FluorColumnsFrom(init, x);
      var c :| c in init && (x == CtLabel(c) || x == CqConfLabel(c));
      assert c in codes;
    } else {
      assert last in codes;
    }
  }

  lemma {:induction false} DistinctLast(codes: seq<string>)
    requires codes != [] && Distinct(codes)
    ensures Distinct(codes[..|codes| - 1]) && codes[|codes| - 1] !in codes[..|codes| - 1]
  {
    var init, last := codes[..|codes| - 1], codes[|codes| - 1];
    assert codes == init + [last];
    assert multiset(codes) == multiset(init) + multiset{last};
    assert multiset(codes)[last] == multiset(init)[last] + 1;
    forall x | x in init ensures multiset(init)[x] <= 1 {
      assert multiset(init)[x] <= multiset(codes)[x];
    }
  }

  /** The number of rows of one fluorophore's table at well `w`. */
  function WellCount(f: Table, w: Cell): nat {
    if WellPosition in f.columns then KeyCount(f.rows, IndexOf(f.columns, WellPosition).value, w) else 0
  }

  /** The product of the well's row counts over the fluorophores' tables. */
  function WellProduct(t: Table, rep: nat, codes: seq<string>, w: Cell): nat {
    if codes == [] then 1
    else Times(WellProduct(t, rep, codes[..|codes| - 1], w), FluorWellCount(t, rep, codes[|codes| - 1], w))
  }

  /** The number of rows at well `w` in the table of fluorophore `code`. */
  function FluorWellCount(t: Table, rep: nat, code: string, w: Cell): nat {
    WellCount(FluorTable(t, rep, code), w)
  }

  lemma {:induction false} WellProductPositive(t: Table, rep: nat, codes: seq<string>, w: Cell)
    ensures WellProduct(t, rep, codes, w) > 0 <==> forall c :: c in codes ==> FluorWellCount(t, rep, c, w) > 0
  {
    if codes != [] {
      var init, last := codes[..|codes| - 1], codes[|codes| - 1];
      var prod, n := WellProduct(t, rep, init, w), FluorWellCount(t, rep, last, w);
      assert WellProduct(t, rep, codes, w) == Times(prod, n);
      WellProductPositive(t, rep, init, w);
      TimesPositive(prod, n);
      InSnoc(codes);
    }
  }

  function FirstNames(code: string): seq<string> {
    [WellPosition, SampleName, Copies, Comments, CtLabel(code), CqConfLabel(code)]
  }

  function LaterNames(code: string): seq<string> {
    [WellPosition, CtLabel(code), CqConfLabel(code)]
  }

  lemma {:induction false} FirstStepWells(sub: Table, code: string, w: Cell)
    requires Select(sub, FirstNames(code)).Ok?
    ensures var s := Select(sub, FirstNames(code)).value;
      s.columns[0] == WellPosition && KeyCount(s.rows, 0, w) == WellCount(sub, w)
  {
    SelectKeyCount(sub, FirstNames(code), w);
  }

  lemma {:induction false} LaterStepWells(l: Table, sub: Table, code: string, w: Cell)
    requires l.columns != [] && l.columns[0] == WellPosition
    requires Select(sub, LaterNames(code)).Ok?
    ensures var right := Select(sub, LaterNames(code)).value;
      && Join(l, right, WellPosition).Ok?
      && Join(l, right, WellPosition).value.columns[0] == WellPosition
      && KeyCount(Join(l, right, WellPosition).value.rows, 0, w) == Times(KeyCount(l.rows, 0, w), WellCount(sub, w))
  {
    var right := Select(sub, LaterNames(code)).value;
    SelectKeyCount(sub, LaterNames(code), w);
    assert IndexOf(l.columns, WellPosition) == Some(0);
    assert IndexOf(right.columns, WellPosition) == Some(0);
    JoinCount(l, right, WellPosition, w);
  }

  /** Every well value occurs in the fold's summary as often as the product
      of its occurrences in the fluorophores' tables. */
  lemma {:induction false} QsFoldWells(t: Table, rep: nat, codes: seq<string>, w: Cell)
    requires QsFold(t, rep, codes).Ok? && QsFold(t, rep, codes).value.Some?
    ensures var s := QsFold(t, rep, codes).value.value;
      && s.columns != [] && s.columns[0] == WellPosition
      && KeyCount(s.rows, 0, w) == WellProduct(t, rep, codes, w)
  {
    var init, last := codes[..|codes| - 1], codes[|codes| - 1];
    var sub := FluorTable(t, rep, last);
    var prev := QsFold(t, rep, init).value;
    var s := QsFold(t, rep, codes).value.value;
    assert QsStep(prev, t, rep, last) == Ok(s);
    if prev.None? {
      assert init == [];
      assert WellProduct(t, rep, codes, w) == Times(1, WellCount(sub, w)) == WellCount(sub, w);
      FirstStepWells(sub, last, w);
    } else {
      QsFoldWells(t, rep, init, w);
      LaterStepWells(prev.value, sub, last, w);
    }
  }

  lemma {:induction false} LaterStepColumns(l: Table, sub: Table, init: seq<string>, code: string)
    requires l.columns == SummaryColumns(init) && code !in init
    requires Select(sub, LaterNames(code)).Ok?
    ensures var right := Select(sub, LaterNames(code)).value;
      Join(l, right, WellPosition).Ok? &&
      Join(l, right, WellPosition).value.columns == SummaryColumns(init) + [CtLabel(code), CqConfLabel(code)]
  {
    var right := Select(sub, LaterNames(code)).value;
    forall c | c in l.columns && c in right.columns ensures c == WellPosition {
      LabelsDiffer(code, code);
      if c != WellPosition {
        assert c in FluorColumns(init);
        FluorColumnsFrom(init, c);
        var c' :| c' in init && (c == CtLabel(c') || c == CqConfLabel(c'));
        LabelsDiffer(code, c');
        LabelsDiffer(c', code);
      }
    }
    assert IndexOf(right.columns, WellPosition) == Some(0);
    JoinColumnsDisjoint(l, right, WellPosition);
    assert Drop(right.columns, 0) == [CtLabel(code), CqConfLabel(code)];
  }

  /** The fold's summary carries the summary labels when the codes are distinct. */
  lemma {:induction false} QsFoldColumns(t: Table, rep: nat, codes: seq<string>)
    requires Distinct(codes)
    requires QsFold(t, rep, codes).Ok? && QsFold(t, rep, codes).value.Some?
    ensures QsFold(t, rep, codes).value.value.columns == SummaryColumns(codes)
  {
    var init := codes[..|codes| - 1];
    DistinctLast(codes);
    if QsFold(t, rep, init).value.Some? {
      QsFoldColumns(t, rep, init);
    }
    QsFoldColumnsStep(t, rep, codes);
  }

  /** One pass of the loop adds the pass's CT and Cq Conf labels to the summary's columns. */
  lemma QsFoldColumnsStep(t: Table, rep: nat, codes: seq<string>)
    requires codes != [] && codes[|codes| - 1] !in codes[..|codes| - 1]
    requires QsFold(t, rep, codes).Ok? && QsFold(t, rep, codes).value.Some?
    requires var prev := QsFold(t, rep, codes[..|codes| - 1]);
      prev.Ok? && (prev.value.Some? ==> prev.value.value.columns == SummaryColumns(codes[..|codes| - 1]))
    ensures QsFold(t, rep, codes).value.value.columns == SummaryColumns(codes)
  {
    var init, last := codes[..|codes| - 1], codes[|codes| - 1];
    var prev := QsFold(t, rep, init).value;
    SummaryColumnsSnoc(codes);
    if prev.None? {
      assert init == [];
      assert FluorColumns(init) == [];
    } else {
      LaterStepColumns(prev.value, FluorTable(t, rep, last), init, last);
    }
  }

  /** What a successful QuantStudio run yields: the reporters are exactly the
      assay's fluorophores, the columns are the sample columns followed by
      each fluorophore's CT and Cq Conf, and a well occurs as often as the
      product of its occurrences in the fluorophores' tables, hence at all
      exactly when every fluorophore has a row for it (inner joins). */
  lemma {:induction false} QuantStudioSummary(t: Table, fluors: FluorNames, w: Cell)
    requires QsSummary(t, fluors).Ok?
    ensures "Reporter" in t.columns
    ensures var rep := IndexOf(t.columns, "Reporter").value;
      var s := QsSummary(t, fluors).value;
      && ReportersMatch(t, rep, Firsts(fluors))
      && s.columns == SummaryColumns(Firsts(fluors))
      && KeyCount(s.rows, 0, w) == WellProduct(t, rep, Firsts(fluors), w)
      && (KeyCount(s.rows, 0, w) > 0 <==>
            forall c :: c in Firsts(fluors) ==> FluorWellCount(t, rep, c, w) > 0)
  {
    var rep := IndexOf(t.columns, "Reporter").value;
    QsFoldColumns(t, rep, Firsts(fluors));
    QsFoldWells(t, rep, Firsts(fluors), w);
    WellProductPositive(t, rep, Firsts(fluors), w);
  }

  // ---------------------------------------------------------------- Rotor-Gene

  /** A file is used for a fluorophore when its path contains "<code>.csv"
      or "<target>.csv". */
  predicate FileMatches(path: string, fluor: (string, string)) {
    Contains(path, fluor.0 + ".csv") || Contains(path, fluor.1 + ".csv")
  }

  /** The labels of a Rotor-Gene export mapped to the summary's labels. */
  function RgLabels(code: string): seq<(string, string)> {
    [("No.", WellPosition), ("Name", SampleName), ("Ct", CtLabel(code)),
     ("Ct Comment", Comments), ("Given Conc (copies/reaction)", Copies)]
  }

  function RgFirstNames(code: string): seq<string> {
    [WellPosition, SampleName, Copies, Comments, CtLabel(code)]
  }

  function RgLaterNames(code: string): seq<string> {
    [WellPosition, CtLabel(code)]
  }

  /** The loop state: `used_filenames`, the codes of the fluorophores files
      were used for, and `summary_table` (`None` while unbound). */
  datatype RgState = RgState(used: seq<string>, usedFluors: seq<string>, summary: Option<Table>)

  /** One pass of the inner loop: file `path`, whose table has so far become
      `t`, against one fluorophore. A match records the file, renames the
      table's columns (cumulatively) and binds or extends the summary. */
  function RgFluorStep(st: RgState, path: string, t: Table, fluor: (string, string)): Result<(RgState, Table), TableError> {
    if !FileMatches(path, fluor) then Ok((st, t))
    else
      var t' := Rename(t, RgLabels(fluor.0));
      var used, usedFluors := st.used + [path], st.usedFluors + [fluor.0];
      if st.summary.None? then
        match Select(t', RgFirstNames(fluor.0))
          case Err(e) => Err(e)
          case Ok(s) => Ok((RgState(used, usedFluors, Some(s)), t'))
      else
        match Select(t', RgLaterNames(fluor.0))
          case Err(e) => Err(e)
          case Ok(right) =>
            match Join(st.summary.value, right, WellPosition)
              case Err(e) => Err(e)
              case Ok(s) => Ok((RgState(used, usedFluors, Some(s)), t'))
  }

  function RgFluorFold(st: RgState, path: string, t: Table, fluors: seq<(string, string)>): Result<(RgState, Table), TableError> {
    if fluors == [] then Ok((st, t))
    else
      match RgFluorFold(st, path, t, fluors[..|fluors| - 1])
        case Err(e) => Err(e)
        case Ok(p) => RgFluorStep(p.0, path, p.1, fluors[|fluors| - 1])
  }

  /** One pass of the outer loop: a file without a Ct column stops the run;
      otherwise its missing Ct values get the cutoff and it is matched
      against every fluorophore. */
  function RgFileStep(st: RgState, file: (string, Table), fluors: seq<(string, string)>, cutoff: Cell): Result<RgState, Failure> {
    match IndexOf(file.1.columns, "Ct")
      case None => Err(IncorrectFiles)
      case Some(ct) =>
        match RgFluorFold(st, file.0, Substitute(file.1, ct, Missing, cutoff), fluors)
          case Err(e) => Err(KeyError(e.name))
          case Ok(p) => Ok(p.0)
  }

  function RgFileFold(files: seq<(string, Table)>, fluors: seq<(string, string)>, cutoff: Cell): Result<RgState, Failure> {
    if files == [] then Ok(RgState([], [], None))
    else
      match RgFileFold(files[..|files| - 1], fluors, cutoff)
        case Err(e) => Err(e)
        case Ok(st) => RgFileStep(st, files[|files| - 1], fluors, cutoff)
  }

  lemma {:induction false} FirstsSnoc(files: seq<(string, Table)>)
    requires files != []
    ensures Firsts(files) == Firsts(files[..|files| - 1]) + [files[|files| - 1].0]
  {
    var a, b := Firsts(files), Firsts(files[..|files| - 1]) + [files[|files| - 1].0];
    assert |a| == |b|;
    forall i | 0 <= i < |a| ensures a[i] == b[i] {
      if i < |files| - 1 {
        assert b[i] == Firsts(files[..|files| - 1])[i];
      }
    }
  }

  /** `rotorgene(fluor_names, cq_cutoff)` as written: the chosen files are
      given with the tables read from them; the result is the summary and the
      first path. */
  function RotorgeneAsWritten(files: seq<(string, Table)>, fluors: FluorNames, cutoff: Cell): Result<(Table, string), Failure> {
    if |files| != |fluors| then Err(WrongFileCount)
    else
      match RgFileFold(files, fluors, cutoff)
        case Err(e) => Err(e)
        case Ok(st) =>
          if multiset(st.used) != multiset(Firsts(files)) then Err(IncompleteFiles)
          else if st.summary.None? || files == [] then Err(NoSummary)
          else Ok((st.summary.value, files[0].0))
  }

  /** `rotorgene` with the completeness check applied to the fluorophores as
      well as to the files: every fluorophore must have been used exactly
      once. */
  function RotorgeneSpec(files: seq<(string, Table)>, fluors: FluorNames, cutoff: Cell): Result<(Table, string), Failure> {
    if |files| != |fluors| then Err(WrongFileCount)
    else
      match RgFileFold(files, fluors, cutoff)
        case Err(e) => Err(e)
        case Ok(st) =>
          if multiset(st.used) != multiset(Firsts(files)) then Err(IncompleteFiles)
          else if multiset(st.usedFluors) != multiset(Firsts(fluors)) then Err(IncompleteFiles)
          else if st.summary.None? || files == [] then Err(NoSummary)
          else Ok((st.summary.value, files[0].0))
  }

  lemma {:induction false} RgFluorFoldErrSticky(st: RgState, path: string, t: Table, fluors: seq<(string, string)>, k: nat)
    requires k <= |fluors| && RgFluorFold(st, path, t, fluors[..k]).Err?
    ensures RgFluorFold(st, path, t, fluors) == RgFluorFold(st, path, t, fluors[..k])
    decreases |fluors| - k
  {
    if k < |fluors| {
      assert fluors[..k + 1][..k] == fluors[..k];
      RgFluorFoldErrSticky(st, path, t, fluors, k + 1);
    } else {
      assert fluors[..k] == fluors;
    }
  }

  lemma {:induction false} RgFileFoldErrSticky(files: seq<(string, Table)>, fluors: seq<(string, string)>, cutoff: Cell, k: nat)
    requires k <= |files| && RgFileFold(files[..k], fluors, cutoff).Err?
    ensures RgFileFold(files, fluors, cutoff) == RgFileFold(files[..k], fluors, cutoff)
    decreases |files| - k
  {
    if k < |files| {
      assert files[..k + 1][..k] == files[..k];
      RgFileFoldErrSticky(files, fluors, cutoff, k + 1);
    } else {
      assert files[..k] == files;
    }
  }

  /** The inner loop over the fluorophores for one file. */
  method MatchFluors(st: RgState, path: string, t: Table, fluors: seq<(string, string)>)
    returns (res: Result<(RgState, Table), TableError>)
    ensures res == RgFluorFold(st, path, t, fluors)
  {
    var state, resultsTable := st, t;
    for j := 0 to |fluors|
      invariant RgFluorFold(st, path, t, fluors[..j]) == Ok((state, resultsTable))
    {
      var fluor := fluors[j];
      assert fluors[..j + 1][..j] == fluors[..j];
      if Contains(path, fluor.0 + ".csv") || Contains(path, fluor.1 + ".csv") {
        var used := state.used + [path];
        var usedFluors := state.usedFluors + [fluor.0];
        resultsTable := Rename(resultsTable, RgLabels(fluor.0));
        var next: Result<Table, TableError>;
        if state.summary.None? {
          next := Select(resultsTable, RgFirstNames(fluor.0));
        } else {
          var right := Select(resultsTable, RgLaterNames(fluor.0));
          if right.Err? {
            next := Err(right.error);
          } else {
            next := Join(state.summary.value, right.value, WellPosition);
          }
        }
        if next.Err? {
          RgFluorFoldErrSticky(st, path, t, fluors, j + 1);
          return Err(next.error);
        }
        state := RgState(used, usedFluors, Some(next.value));
      }
    }
    assert fluors[..|fluors|] == fluors;
    return Ok((state, resultsTable));
  }

  /** The outer loop over the chosen files. */
  method MatchFiles(files: seq<(string, Table)>, fluors: seq<(string, string)>, cutoff: Cell)
    returns (res: Result<RgState, Failure>)
    ensures res == RgFileFold(files, fluors, cutoff)
  {
    var state := RgState([], [], None);
    for i := 0 to |files|
      invariant RgFileFold(files[..i], fluors, cutoff) == Ok(state)
    {
      var (path, resultsTable) := files[i];
      assert files[..i + 1][..i] == files[..i];
      var ct := IndexOf(resultsTable.columns, "Ct");
      if ct.None? {
        RgFileFoldErrSticky(files, fluors, cutoff, i + 1);
        return Err(IncorrectFiles);
      }
      resultsTable := Substitute(resultsTable, ct.value, Missing, cutoff);
      var matched := MatchFluors(state, path, resultsTable, fluors);
      if matched.Err? {
        RgFileFoldErrSticky(files, fluors, cutoff, i + 1);
        return Err(KeyError(matched.error.name));
      }
      state := matched.value.0;
    }
    assert files[..|files|] == files;
    return Ok(state);
  }

  /** `rotorgene`, with the corrected completeness check. */
  method Rotorgene(files: seq<(string, Table)>, fluors: FluorNames, cutoff: Cell)
    returns (res: Result<(Table, string), Failure>)
    ensures res == RotorgeneSpec(files, fluors, cutoff)
  {
    if |files| != |fluors| {
      return Err(WrongFileCount);
    }
    var matched := MatchFiles(files, fluors, cutoff);
    if matched.Err? {
      return Err(matched.error);
    }
    var st := matched.value;
    if multiset(st.used) != multiset(Firsts(files)) {
      return Err(IncompleteFiles);
    }
    if multiset(st.usedFluors) != multiset(Firsts(fluors)) {
      return Err(IncompleteFiles);
    }
    if st.summary.None? || files == [] {
      return Err(NoSummary);
    }
    return Ok((st.summary.value, files[0].0));
  }

  /** The file recorded for each fluorophore the path matches, in `fluors` order. */
  function MatchedPaths(path: string, fluors: seq<(string, string)>): seq<string> {
    if fluors == [] then []
    else MatchedPaths(path, fluors[..|fluors| - 1]) + (if FileMatches(path, fluors[|fluors| - 1]) then [path] else [])
  }

  /** The codes of the fluorophores the path matches, in `fluors` order. */
  function MatchedCodes(path: string, fluors: seq<(string, string)>): seq<string> {
    if fluors == [] then []
    else MatchedCodes(path, fluors[..|fluors| - 1]) + (if FileMatches(path, fluors[|fluors| - 1]) then [fluors[|fluors| - 1].0] else [])
  }

  /** `used_filenames` after the loops, file by file. */
  function UsedPaths(files: seq<(string, Table)>, fluors: seq<(string, string)>): seq<string> {
    if files == [] then []
    else UsedPaths(files[..|files| - 1], fluors) + MatchedPaths(files[|files| - 1].0, fluors)
  }

  function UsedCodes(files: seq<(string, Table)>, fluors: seq<(string, string)>): seq<string> {
    if files == [] then []
    else UsedCodes(files[..|files| - 1], fluors) + MatchedCodes(files[|files| - 1].0, fluors)
  }

  lemma {:induction false} RgFluorFoldUsed(st: RgState, path: string, t: Table, fluors: seq<(string, string)>)
    requires RgFluorFold(st, path, t, fluors).Ok?
    ensures var st' := RgFluorFold(st, path, t, fluors).value.0;
      st'.used == st.used + MatchedPaths(path, fluors) && st'.usedFluors == st.usedFluors + MatchedCodes(path, fluors)
  {
    if fluors != [] {
      var init, last := fluors[..|fluors| - 1], fluors[|fluors| - 1];
      assert RgFluorFold(st, path, t, init).Ok?;
      var p := RgFluorFold(st, path, t, init).value;
      assert RgFluorFold(st, path, t, fluors) == RgFluorStep(p.0, path, p.1, last);
      RgFluorFoldUsed(st, path, t, init);
      RgFluorStepUsed(p.0, path, p.1, last);
      var hit := FileMatches(path, last);
      calc {
        RgFluorFold(st, path, t, fluors).value.0.used;
        p.0.used + (if hit then [path] else []);
        (st.used + MatchedPaths(path, init)) + (if hit then [path] else []);
        st.used + (MatchedPaths(path, init) + (if hit then [path] else []));
        st.used + MatchedPaths(path, fluors);
      }
      calc {
        RgFluorFold(st, path, t, fluors).value.0.usedFluors;
        p.0.usedFluors + (if hit then [last.0] else []);
        (st.usedFluors + MatchedCodes(path, init)) + (if hit then [last.0] else []);
        st.usedFluors + (MatchedCodes(path, init) + (if hit then [last.0] else []));
        st.usedFluors + MatchedCodes(path, fluors);
      }
    }
  }

  /** One fluorophore pass records the path and the code exactly when the
      path matches the fluorophore. */
  lemma RgFluorStepUsed(st: RgState, path: string, t: Table, fluor: (string, string))
    requires RgFluorStep(st, path, t, fluor).Ok?
    ensures var st' := RgFluorStep(st, path, t, fluor).value.0;
      && st'.used == st.used + (if FileMatches(path, fluor) then [path] else [])
      && st'.usedFluors == st.usedFluors + (if FileMatches(path, fluor) then [fluor.0] else [])
  {
  }

  /** Which files and fluorophores the loops record depends only on the
      paths: a file is recorded once for every fluorophore it matches. */
  lemma {:induction false} RgFileFoldUsed(files: seq<(string, Table)>, fluors: seq<(string, string)>, cutoff: Cell)
    requires RgFileFold(files, fluors, cutoff).Ok?
    ensures RgFileFold(files, fluors, cutoff).value.used == UsedPaths(files, fluors)
    ensures RgFileFold(files, fluors, cutoff).value.usedFluors == UsedCodes(files, fluors)
  {
    if files != [] {
      var init, last := files[..|files| - 1], files[|files| - 1];
      RgFileFoldUsed(init, fluors, cutoff);
      var st := RgFileFold(init, fluors, cutoff).value;
      var ct := IndexOf(last.1.columns, "Ct").value;
      RgFluorFoldUsed(st, last.0, Substitute(last.1, ct, Missing, cutoff), fluors);
    }
  }

  /** Labels of a Rotor-Gene summary: the sample columns, then one CT column
      per recorded fluorophore. */
  function RgColumns(used: seq<string>): seq<string> {
    if used == [] then [WellPosition, SampleName, Copies, Comments]
    else RgColumns(used[..|used| - 1]) + [CtLabel(used[|used| - 1])]
  }

  lemma {:induction false} RgColumnsShape(used: seq<string>)
    ensures |RgColumns(used)| == 4 + |used|
    ensures RgColumns(used)[..4] == [WellPosition, SampleName, Copies, Comments]
    ensures forall x :: x in RgColumns(used) && x !in [WellPosition, SampleName, Copies, Comments] ==>
      exists c :: c in used && x == CtLabel(c)
    ensures forall c :: c in used ==> CtLabel(c) in RgColumns(used)
  {
    if used != [] {
      var init, last := used[..|used| - 1], used[|used| - 1];
      RgColumnsShape(init);
      assert RgColumns(used)[..4] == RgColumns(init)[..4];
      forall x | x in RgColumns(used) && x !in [WellPosition, SampleName, Copies, Comments]
        ensures exists c :: c in used && x == CtLabel(c)
      {
        if x in RgColumns(init) {
          var c :| c in init && x == CtLabel(c);
          assert c in used;
        } else {
          assert last in used;
        }
      }
      forall c | c in used ensures CtLabel(c) in RgColumns(used) {
        if c != last {
          assert c in init;
        }
      }
    }
  }

  /** The summary bound so far carries one CT column per recorded fluorophore. */
  predicate RgColumnsInv(st: RgState) {
    && (st.summary.None? <==> st.usedFluors == [])
    && (st.summary.Some? ==> st.summary.value.columns == RgColumns(st.usedFluors))
  }

  lemma {:induction false} DistinctPrefix(a: seq<string>, b: seq<string>)
    requires Distinct(a + b)
    ensures Distinct(a)
  {
    assert multiset(a + b) == multiset(a) + multiset(b);
    forall x | x in a ensures multiset(a)[x] <= 1 {
      assert multiset(a)[x] <= multiset(a + b)[x];
    }
  }

  lemma {:induction false} RgJoinColumns(l: Table, right: Table, used: seq<string>, code: string)
    requires l.columns == RgColumns(used) && code !in used
    requires right.columns == RgLaterNames(code)
    ensures Join(l, right, WellPosition).Ok?
    ensures Join(l, right, WellPosition).value.columns == RgColumns(used + [code])
  {
    RgColumnsShape(used);
    assert WellPosition in l.columns by {
      assert l.columns[..4][0] == WellPosition;
    }
    forall c | c in l.columns && c in right.columns ensures c == WellPosition {
      LabelsDiffer(code, code);
      if c != WellPosition {
        assert c == CtLabel(code);
        var c' :| c' in used && c == CtLabel(c');
        LabelsDiffer(code, c');
      }
    }
    assert IndexOf(right.columns, WellPosition) == Some(0);
    JoinColumnsDisjoint(l, right, WellPosition);
    assert Drop(right.columns, 0) == [CtLabel(code)];
    assert (used + [code])[..|used|] == used;
  }

  lemma {:induction false} RgFluorStepColumns(st: RgState, path: string, t: Table, fluor: (string, string))
    requires RgColumnsInv(st)
    requires RgFluorStep(st, path, t, fluor).Ok?
    requires Distinct(RgFluorStep(st, path, t, fluor).value.0.usedFluors)
    ensures RgColumnsInv(RgFluorStep(st, path, t, fluor).value.0)
  {
    if FileMatches(path, fluor) {
      var code := fluor.0;
      var st' := RgFluorStep(st, path, t, fluor).value.0;
      assert st'.usedFluors == st.usedFluors + [code];
      DistinctLast(st'.usedFluors);
      assert st'.usedFluors[..|st'.usedFluors| - 1] == st.usedFluors;
      var t' := Rename(t, RgLabels(code));
      if st.summary.None? {
        assert st'.summary.value == Select(t', RgFirstNames(code)).value;
      } else {
        var right := Select(t', RgLaterNames(code)).value;
        RgJoinColumns(st.summary.value, right, st.usedFluors, code);
      }
    }
  }

  lemma {:induction false} RgFluorFoldColumns(st: RgState, path: string, t: Table, fluors: seq<(string, string)>)
    requires RgColumnsInv(st)
    requires RgFluorFold(st, path, t, fluors).Ok?
    requires Distinct(RgFluorFold(st, path, t, fluors).value.0.usedFluors)
    ensures RgColumnsInv(RgFluorFold(st, path, t, fluors).value.0)
  {
    if fluors != [] {
      var init := fluors[..|fluors| - 1];
      var p := RgFluorFold(st, path, t, init).value;
      RgFluorFoldUsed(p.0, path, p.1, [fluors[|fluors| - 1]]);
      assert RgFluorFold(st, path, t, fluors) == RgFluorFold(p.0, path, p.1, [fluors[|fluors| - 1]]) by {
        assert [fluors[|fluors| - 1]][..0] == [];
      }
      DistinctPrefix(p.0.usedFluors, MatchedCodes(path, [fluors[|fluors| - 1]]));
      RgFluorFoldColumns(st, path, t, init);
      RgFluorStepColumns(p.0, path, p.1, fluors[|fluors| - 1]);
    }
  }

  lemma {:induction false} RgFileFoldColumns(files: seq<(string, Table)>, fluors: seq<(string, string)>, cutoff: Cell)
    requires RgFileFold(files, fluors, cutoff).Ok?
    requires Distinct(RgFileFold(files, fluors, cutoff).value.usedFluors)
    ensures RgColumnsInv(RgFileFold(files, fluors, cutoff).value)
  {
    if files != [] {
      var init, last := files[..|files| - 1], files[|files| - 1];
      var st := RgFileFold(init, fluors, cutoff).value;
      var ct := IndexOf(last.1.columns, "Ct").value;
      var t := Substitute(last.1, ct, Missing, cutoff);
      RgFluorFoldUsed(st, last.0, t, fluors);
      DistinctPrefix(st.usedFluors, MatchedCodes(last.0, fluors));
      RgFileFoldColumns(init, fluors, cutoff);
      RgFluorFoldColumns(st, last.0, t, fluors);
    }
  }

  /** What a successful (corrected) Rotor-Gene run yields: one file per
      fluorophore, the first chosen path, and a summary whose columns are
      the sample columns followed by exactly one CT column per fluorophore. */
  lemma {:induction false} RotorgeneCoversFluors(files: seq<(string, Table)>, fluors: FluorNames, cutoff: Cell)
    requires RotorgeneSpec(files, fluors, cutoff).Ok?
    ensures var (s, first) := RotorgeneSpec(files, fluors, cutoff).value;
      && |files| == |fluors| && files != [] && first == files[0].0
      && |s.columns| == 4 + |fluors|
      && s.columns[..4] == [WellPosition, SampleName, Copies, Comments]
      && forall f :: f in fluors ==> CtLabel(f.0) in s.columns
  {
    var st := RgFileFold(files, fluors, cutoff).value;
    var codes := Firsts(fluors);
    assert multiset(st.usedFluors) == multiset(codes);
    forall x | x in st.usedFluors ensures multiset(st.usedFluors)[x] <= 1 {
      assert x in multiset(codes);
    }
    RgFileFoldColumns(files, fluors, cutoff);
    RgColumnsShape(st.usedFluors);
    assert |st.usedFluors| == |multiset(st.usedFluors)| == |codes|;
    forall f | f in fluors ensures f.0 in st.usedFluors {
      var i :| 0 <= i < |fluors| && fluors[i] == f;
      assert codes[i] == f.0;
      assert f.0 in multiset(codes);
    }
  }

  lemma {:induction false} MatchedPathsCount(path: string, fluors: seq<(string, string)>, p: string)
    ensures multiset(MatchedPaths(path, fluors))[p] == if p == path then |MatchedPaths(path, fluors)| else 0
  {
    if fluors != [] {
      MatchedPathsCount(path, fluors[..|fluors| - 1], p);
    }
  }

  lemma {:induction false} UsedPathsCount(files: seq<(string, Table)>, fluors: seq<(string, string)>, p: string)
    ensures multiset(UsedPaths(files, fluors))[p] == Times(multiset(Firsts(files))[p], |MatchedPaths(p, fluors)|)
  {
    if files != [] {
      var init, last := files[..|files| - 1], files[|files| - 1];
      UsedPathsCount(init, fluors, p);
      MatchedPathsCount(last.0, fluors, p);
      UsedPathsCountSnoc(files, fluors, p);
      PathsCountSnoc(files, p);
      TimesStep(last.0 == p, multiset(Firsts(init))[p], |MatchedPaths(p, fluors)|);
    }
  }

  lemma {:induction false} UsedPathsCountSnoc(files: seq<(string, Table)>, fluors: seq<(string, string)>, p: string)
    requires files != []
    ensures multiset(UsedPaths(files, fluors))[p] ==
      multiset(UsedPaths(files[..|files| - 1], fluors))[p] + multiset(MatchedPaths(files[|files| - 1].0, fluors))[p]
  {
    CountConcat(UsedPaths(files[..|files| - 1], fluors), MatchedPaths(files[|files| - 1].0, fluors), p);
  }

  lemma {:induction false} PathsCountSnoc(files: seq<(string, Table)>, p: string)
    requires files != []
    ensures multiset(Firsts(files))[p] == multiset(Firsts(files[..|files| - 1]))[p] + (if files[|files| - 1].0 == p then 1 else 0)
  {
    FirstsSnoc(files);
    CountConcat(Firsts(files[..|files| - 1]), [files[|files| - 1].0], p);
  }

  lemma CountConcat(x: seq<string>, y: seq<string>, p: string)
    ensures multiset(x + y)[p] == multiset(x)[p] + multiset(y)[p]
  {
    assert multiset(x + y) == multiset(x) + multiset(y);
  }

  lemma {:induction false} AsWrittenPasses(files: seq<(string, Table)>, fluors: FluorNames, cutoff: Cell)
    requires RotorgeneAsWritten(files, fluors, cutoff).Ok?
    ensures |files| == |fluors| && RgFileFold(files, fluors, cutoff).Ok?
    ensures multiset(UsedPaths(files, fluors)) == multiset(Firsts(files))
  {
    RgFileFoldUsed(files, fluors, cutoff);
  }

  /** The check as written: with distinct paths, a run passes only when every
      chosen file matched exactly one fluorophore (but nothing requires every
      fluorophore to have been matched). */
  lemma {:induction false} AsWrittenFileOnce(files: seq<(string, Table)>, fluors: FluorNames, cutoff: Cell, i: nat)
    requires RotorgeneAsWritten(files, fluors, cutoff).Ok?
    requires Distinct(Firsts(files)) && i < |files|
    ensures |MatchedPaths(files[i].0, fluors)| == 1
  {
    var p := files[i].0;
    AsWrittenPasses(files, fluors, cutoff);
    UsedPathsCount(files, fluors, p);
    assert Firsts(files)[i] == p;
    OnceIn(Firsts(files), p);
  }

  lemma OnceIn(s: seq<string>, p: string)
    requires Distinct(s) && p in s
    ensures multiset(s)[p] == 1
  {
  }

  /** The corrected check only adds a failure: whenever it passes, the
      original returns the same summary; and the two differ exactly on runs
      where some fluorophore was not used exactly once. */
  lemma {:induction false} CorrectionRefines(files: seq<(string, Table)>, fluors: FluorNames, cutoff: Cell)
    ensures RotorgeneSpec(files, fluors, cutoff).Ok? ==>
      RotorgeneAsWritten(files, fluors, cutoff) == RotorgeneSpec(files, fluors, cutoff)
    ensures RotorgeneAsWritten(files, fluors, cutoff) != RotorgeneSpec(files, fluors, cutoff) ==>
      && RgFileFold(files, fluors, cutoff).Ok?
      && multiset(UsedCodes(files, fluors)) != multiset(Firsts(fluors))
      && RotorgeneSpec(files, fluors, cutoff) == Err(IncompleteFiles)
  {
    if RgFileFold(files, fluors, cutoff).Ok? {
      RgFileFoldUsed(files, fluors, cutoff);
    }
  }

  /** A path that ends with "<code>.csv" matches the fluorophore. */
  lemma EndsWithCode(pre: string, fluor: (string, string))
    ensures FileMatches(pre + fluor.0 + ".csv", fluor)
  {
    var t := fluor.0 + ".csv";
    assert pre + fluor.0 + ".csv" == pre + t;
    assert (pre + t)[|pre|..|pre| + |t|] == t;
    ContainsAt(pre + t, t, |pre|);
  }

  /** A path holding neither the code's nor the target's first character
      matches no file name of the fluorophore. */
  lemma FirstCharsAbsent(path: string, fluor: (string, string))
    requires fluor.0 != [] && fluor.1 != []
    requires fluor.0[0] !in path && fluor.1[0] !in path
    ensures !FileMatches(path, fluor)
  {
    assert (fluor.0 + ".csv")[0] == fluor.0[0] && (fluor.1 + ".csv")[0] == fluor.1[0];
    AbsentFirstChar(path, fluor.0 + ".csv");
    AbsentFirstChar(path, fluor.1 + ".csv");
  }

  /** Both of the example's file names match FAM. */
  lemma ExampleFamMatches()
    ensures FileMatches("FAM.csv", ("FAM", "LASV")) && FileMatches("xFAM.csv", ("FAM", "LASV"))
  {
    EndsWithCode("", ("FAM", "LASV"));
    EndsWithCode("x", ("FAM", "LASV"));
    assert "" + "FAM" + ".csv" == "FAM.csv";
    assert "x" + "FAM" + ".csv" == "xFAM.csv";
  }

  /** Neither of the example's file names matches VIC. */
  lemma ExampleVicMisses()
    ensures !FileMatches("FAM.csv", ("VIC", "Internal Control")) && !FileMatches("xFAM.csv", ("VIC", "Internal Control"))
  {
    FirstCharsAbsent("FAM.csv", ("VIC", "Internal Control"));
    FirstCharsAbsent("xFAM.csv", ("VIC", "Internal Control"));
  }

  /** The labels of a Rotor-Gene export that `rotorgene` renames. */
  const RgExportLabels := ["No.", "Name", "Ct", "Ct Comment", "Given Conc (copies/reaction)"]

  lemma {:induction false} RgRelabels(code: string)
    ensures Relabel("No.", RgLabels(code)) == WellPosition
    ensures Relabel("Name", RgLabels(code)) == SampleName
    ensures Relabel("Ct", RgLabels(code)) == CtLabel(code)
    ensures Relabel("Ct Comment", RgLabels(code)) == Comments
    ensures Relabel("Given Conc (copies/reaction)", RgLabels(code)) == Copies
  {
    var p0 := RgLabels(code);
    var p1 := p0[1..];
    var p2 := p1[1..];
    var p3 := p2[1..];
    var p4 := p3[1..];
    assert p0[0].0 == "No." && p1[0].0 == "Name" && p2[0] == ("Ct", CtLabel(code));
    assert p3[0] == ("Ct Comment", Comments) && p4[0] == ("Given Conc (copies/reaction)", Copies);
    assert "Ct" != "No." && "Ct" != "Name";
    assert Relabel("Ct", p0) == Relabel("Ct", p1) == Relabel("Ct", p2);
    var cc := "Ct Comment";
    assert cc != "No." && cc != "Name" && cc != "Ct";
    assert Relabel(cc, p0) == Relabel(cc, p1) == Relabel(cc, p2) == Relabel(cc, p3);
    var gc := "Given Conc (copies/reaction)";
    assert gc != "No." && gc != "Name" && gc != "Ct" && gc != cc;
    assert Relabel(gc, p0) == Relabel(gc, p1) == Relabel(gc, p2) == Relabel(gc, p3) == Relabel(gc, p4);
  }

  /** An export carrying the Rotor-Gene labels, once renamed for a
      fluorophore, has every column the summary selects. */
  lemma {:induction false} RgRenamedSelects(t: Table, code: string)
    requires forall c :: c in RgExportLabels ==> c in t.columns
    ensures Select(Rename(t, RgLabels(code)), RgFirstNames(code)).Ok?
    ensures Select(Rename(t, RgLabels(code)), RgLaterNames(code)).Ok?
  {
    RgRelabels(code);
    RgExportLabelsAt();
    var pairs := RgLabels(code);
    var r := Rename(t, pairs);
    RenamedHas(t, pairs, RgExportLabels[0]);
    RenamedHas(t, pairs, RgExportLabels[1]);
    RenamedHas(t, pairs, RgExportLabels[2]);
    RenamedHas(t, pairs, RgExportLabels[3]);
    RenamedHas(t, pairs, RgExportLabels[4]);
    assert WellPosition in r.columns && SampleName in r.columns && CtLabel(code) in r.columns;
    assert Comments in r.columns && Copies in r.columns;
    SelectAll(r, RgFirstNames(code));
    SelectAll(r, RgLaterNames(code));
  }

  lemma RgExportLabelsAt()
    ensures RgExportLabels[0] == "No." && RgExportLabels[1] == "Name" && RgExportLabels[2] == "Ct"
    ensures RgExportLabels[3] == "Ct Comment" && RgExportLabels[4] == "Given Conc (copies/reaction)"
  {
  }

  /** The first file of such a run, matching only the first fluorophore,
      starts the summary. */
  lemma {:induction false} RgFirstFileOneMatch(file: (string, Table), fluors: FluorNames, cutoff: Cell)
    requires |fluors| == 2
    requires FileMatches(file.0, fluors[0]) && !FileMatches(file.0, fluors[1])
    requires forall c :: c in RgExportLabels ==> c in file.1.columns
    ensures var r := RgFileStep(RgState([], [], None), file, fluors, cutoff);
      && r.Ok? && r.value.used == [file.0] && r.value.usedFluors == [fluors[0].0]
      && r.value.summary.Some? && WellPosition in r.value.summary.value.columns
  {
    var code := fluors[0].0;
    assert RgExportLabels[2] == "Ct";
    var t := Substitute(file.1, IndexOf(file.1.columns, "Ct").value, Missing, cutoff);
    RgRenamedSelects(t, code);
    var r := Rename(t, RgLabels(code));
    var first := Select(r, RgFirstNames(code)).value;
    assert first.columns[0] == WellPosition;
    var st0 := RgState([], [], None);
    var st1 := RgState(st0.used + [file.0], st0.usedFluors + [code], Some(first));
    assert st1.used == [file.0] && st1.usedFluors == [code];
    assert fluors[..1] == [fluors[0]] && fluors[..1][..0] == [] && fluors[..2] == fluors;
    assert RgFluorStep(st0, file.0, t, fluors[0]) == Ok((st1, r));
    assert RgFluorFold(st0, file.0, t, fluors[..1]) == Ok((st1, r));
    assert RgFluorFold(st0, file.0, t, fluors) == Ok((st1, r));
  }

  /** A later file of such a run, matching only the first fluorophore, is
      joined onto the summary. */
  lemma {:induction false} RgLaterFileOneMatch(st: RgState, file: (string, Table), fluors: FluorNames, cutoff: Cell)
    requires |fluors| == 2
    requires FileMatches(file.0, fluors[0]) && !FileMatches(file.0, fluors[1])
    requires forall c :: c in RgExportLabels ==> c in file.1.columns
    requires st.summary.Some? && WellPosition in st.summary.value.columns
    ensures var r := RgFileStep(st, file, fluors, cutoff);
      && r.Ok? && r.value.used == st.used + [file.0] && r.value.usedFluors == st.usedFluors + [fluors[0].0]
      && r.value.summary.Some?
  {
    var code := fluors[0].0;
    assert RgExportLabels[2] == "Ct";
    var t := Substitute(file.1, IndexOf(file.1.columns, "Ct").value, Missing, cutoff);
    RgRenamedSelects(t, code);
    var r := Rename(t, RgLabels(code));
    var right := Select(r, RgLaterNames(code)).value;
    assert right.columns[0] == WellPosition;
    var joined := Join(st.summary.value, right, WellPosition).value;
    var st1 := RgState(st.used + [file.0], st.usedFluors + [code], Some(joined));
    assert fluors[..1] == [fluors[0]] && fluors[..1][..0] == [] && fluors[..2] == fluors;
    assert RgFluorStep(st, file.0, t, fluors[0]) == Ok((st1, r));
    assert RgFluorFold(st, file.0, t, fluors[..1]) == Ok((st1, r));
    assert RgFluorFold(st, file.0, t, fluors) == Ok((st1, r));
  }

  /** Two exports that both match only the first of two fluorophores: both
      files are used, each time for the first fluorophore. */
  lemma {:induction false} TwoFilesFold(files: seq<(string, Table)>, fluors: FluorNames, cutoff: Cell)
    requires |files| == 2 && |fluors| == 2
    requires forall i :: 0 <= i < 2 ==> FileMatches(files[i].0, fluors[0]) && !FileMatches(files[i].0, fluors[1])
    requires forall i, c :: 0 <= i < 2 && c in RgExportLabels ==> c in files[i].1.columns
    ensures var r := RgFileFold(files, fluors, cutoff);
      && r.Ok? && r.value.used == Firsts(files) && r.value.usedFluors == [fluors[0].0, fluors[0].0]
      && r.value.summary.Some?
  {
    var s0 := RgState([], [], None);
    assert files[..1][..0] == [] && files[..2] == files;
    RgFirstFileOneMatch(files[0], fluors, cutoff);
    var st1 := RgFileStep(s0, files[0], fluors, cutoff).value;
    assert RgFileFold(files[..1], fluors, cutoff) == Ok(st1);
    RgLaterFileOneMatch(st1, files[1], fluors, cutoff);
    var st2 := RgFileStep(st1, files[1], fluors, cutoff).value;
    assert RgFileFold(files, fluors, cutoff) == Ok(st2);
    assert st2.used == Firsts(files);
  }

  /** The original check accepts any two readable exports whose paths both
      match the first of two fluorophores and neither matches the second:
      the second fluorophore then has no CT column at all. The corrected
      check refuses such a run. */
  lemma {:induction false} TwoFilesOneFluor(files: seq<(string, Table)>, fluors: FluorNames, cutoff: Cell)
    requires |files| == 2 && |fluors| == 2
    requires forall i :: 0 <= i < 2 ==> FileMatches(files[i].0, fluors[0]) && !FileMatches(files[i].0, fluors[1])
    requires forall i, c :: 0 <= i < 2 && c in RgExportLabels ==> c in files[i].1.columns
    ensures RotorgeneAsWritten(files, fluors, cutoff).Ok?
    ensures RotorgeneSpec(files, fluors, cutoff) == Err(IncompleteFiles)
  {
    var fam, vic := fluors[0], fluors[1];
    assert Firsts(fluors) == [fam.0, vic.0];
    assert fam.0 != vic.0 by {
      assert multiset(Firsts(fluors))[fam.0] <= 1;
    }
    TwoFilesFold(files, fluors, cutoff);
    var st := RgFileFold(files, fluors, cutoff).value;
    assert multiset(st.usedFluors)[vic.0] == 0;
    assert multiset(Firsts(fluors))[vic.0] == 1;
  }

  /** The instance: "FAM.csv" and "xFAM.csv" chosen for the assay FAM/VIC. */
  lemma AsWrittenMissesFluor(fluors: FluorNames, raw: Table)
    requires fluors == [("FAM", "LASV"), ("VIC", "Internal Control")]
    requires raw.columns == RgExportLabels
    ensures var files := [("FAM.csv", raw), ("xFAM.csv", raw)];
      && RotorgeneAsWritten(files, fluors, Number(40.0)).Ok?
      && (forall i :: 0 <= i < |files| ==> !FileMatches(files[i].0, fluors[1]))
      && RotorgeneSpec(files, fluors, Number(40.0)) == Err(IncompleteFiles)
  {
    var files := [("FAM.csv", raw), ("xFAM.csv", raw)];
    ExampleFamMatches();
    ExampleVicMisses();
    TwoFilesOneFluor(files, fluors, Number(40.0));
  }
}
