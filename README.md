# PANDAA qPCR results: export rows and report tables

This project models the row logic of the PANDAA qPCR results tools. These
tools turn the exports of qPCR instruments (QuantStudio 3/5 and Rotor-Gene)
into one summary table per run, then prepare the rows of a PDF report. The
model covers four pieces:

- **Header/data splitter.** Both `extract_header` modules are modelled.
  - `isblank` tests for a blank row.
  - `csv_to_df` picks out the results block after the row carrying the
    results flag. The first captured row becomes the header. The table
    constructor pads short rows with missing values and fails when the
    widest row and the header differ in width.
  - `extract_header` picks out the metadata block with a capture flag.
    - The newer (`vhf/`) variant takes an optional stop token.
    - The older variant has no stop token and fails on a missing flag.
  - The flag is matched against the printed form `str(row)` of a list of
    strings. That form is modelled character by character: brackets,
    quotes, the separator, and the Latin-1 escapes of Python's `repr`.
- **Cross-machine normaliser** (`xlsx_to_df.py`).
  - `quantstudio`:
    - the sheet offset per machine type;
    - cutoff substitution for "Undetermined" CT values;
    - the reporter-set check;
    - per-fluorophore row selection and column renaming;
    - the fold of inner merges on "Well Position".
  - `rotorgene`:
    - the file-count check;
    - filling missing Ct values with the cutoff;
    - matching files to fluorophores by name;
    - renaming columns, and the fold of merges;
    - the completeness check on the used file names.
  - The pandas operations these use are modelled in `Tables`: column
    selection, row selection, relabelling, value replacement and the inner
    merge.
- **Report table preparation** (`vhf/reportbuilder_2.py`).
  - `strip_ascii`.
  - `csv_to_table`, with its `process_data`. A report cell is modelled as a
    `(text, bold)` pair in place of a reportlab `Paragraph`.
  - `count_columns`.
  - `get_exp_name`: the reader scan `process_reader` and the
    " - Summary" removal on the path.
- **Tag stripping** (`reportlab/reportbuilder.py`).
  - `get_plain_text` finds the lazily matched `<…>` spans of the original
    text, which contain no line break.
  - It then deletes every occurrence of each match in turn. That loop is
    modelled as written, not as a single regex substitution.

Each imperative routine is a `method` whose loop is proved equal to a
recursive specification function. The properties are then proved as lemmas
about those functions:

- the captured rows are an order-preserving subsequence of the input;
- the exact start and stop conditions of capture;
- the cell-wise effect of the CT substitution;
- the columns of a summary table, and the number of rows each well has in it;
- the relation between the file multiset and the fluorophore matches;
- which characters `strip_ascii` keeps;
- the shape and bolding of report rows;
- `get_plain_text` only deletes characters, and its result on tag/text
  concatenations.

Files:

- `wrappers.dfy`: Option, Result.
- `text.dfy`: `str.strip`, substring, `str.replace` and subsequences.
- `pyrepr.dfy`: `str()` of a list of strings.
- `splitter.dfy`: `isblank`, `csv_to_df`.
- `extract_header_mic.dfy`, `extract_header.dfy`: the two `extract_header`s.
- `tables.dfy`: DataFrame operations.
- `xlsx_to_df.dfy`: `quantstudio`, `rotorgene`.
- `reportbuilder_2.dfy`: report rows.
- `reportbuilder.dfy`: `get_plain_text`.

## Model

| member | source | states |
|---|---|---|
| Splitter.IsBlankIff | vhf/extract_header_mic.py:11-12 | a row is blank iff every character of every cell is whitespace; the empty row is blank |
| Splitter.CsvToDf | vhf/extract_header_mic.py:14-31 | the loop takes the first captured row as header and builds the table from the rest, in input order; when nothing is captured the header `pop` fails (error result) |
| Splitter.DataFrameOf | vhf/extract_header_mic.py:29 | the table constructor succeeds iff there are no rows or the widest row has as many cells as the header (otherwise an error); every row then has the header's width, its own cells first and missing values after them |
| Splitter.RaggedRowsExample | vhf/extract_header_mic.py:29 | header `Well, Ct` with rows `1,2` and `3` gives `3` a missing Ct; a two-cell row under a one-cell header is an error |
| Splitter.DataOnIff | vhf/extract_header_mic.py:20-26 | capture is on after a prefix iff some row of it has a cell equal to the flag and no later row of the prefix is blank |
| Splitter.CapturedAtIff | vhf/extract_header_mic.py:21-24 | row k is captured iff capture was on after rows 0..k-1 and row k is not blank; so the flag row itself is never captured |
| Splitter.DataRowsStep | vhf/extract_header_mic.py:20-26 | the captured rows of a prefix grow by row k exactly when row k is captured |
| Splitter.DataRowsSubsequence | vhf/extract_header_mic.py:20-26 | the captured rows are an order-preserving subsequence of the input, and none is blank |
| Splitter.NoFlagNoData | vhf/extract_header_mic.py:25-28 | without a cell equal to the flag nothing is captured (so the header `pop` fails) |
| Splitter.TestCsvToDf | tests/test_data_analysis.py:28-33 | the test file's rows give header `Well, Ct` and body rows `1,2` and `3,4` |
| ExtractHeaderMic.ExtractHeader | vhf/extract_header_mic.py:47-71 | the `headbool` loop returns exactly the header defined by the recursive specification `Head` |
| ExtractHeaderMic.HeadOnIff | vhf/extract_header_mic.py:57-68 | with a flag, capture is on after a prefix iff some row of it mentions the flag in its printed form and no later row ends capture (blank row without stop, stop mentioned with stop) |
| ExtractHeaderMic.HeadStep | vhf/extract_header_mic.py:56-70 | with a flag, row k is in the header iff some row j <= k mentions the flag and no row in (j, k] ends capture; a row mentioning both stop and flag is kept |
| ExtractHeaderMic.NoFlagLeadingRun | vhf/extract_header_mic.py:49-52 | without a flag the header is the leading run of rows before the first row that ends capture, and capture never restarts |
| ExtractHeaderMic.HeadSubsequence | vhf/extract_header_mic.py:56-71 | the header is an order-preserving subsequence of the input rows |
| ExtractHeaderMic.FlagThenStop | tests/test_data_analysis.py:44-53 | rows flag / plain / stop / plain give the first two rows |
| ExtractHeaderLegacy.ExtractHeader | extract_header.py:46-59 | with a missing flag and a non-empty reader the containment test fails (error result); with no rows the result is empty; otherwise the loop returns `LegacyHead` |
| ExtractHeaderLegacy.LegacyAgreesWithMic | extract_header.py:47-58 | with a non-empty flag the older variant keeps exactly the rows the newer one keeps without a stop token |
| ExtractHeaderLegacy.EmptyFlagKeepsAll | extract_header.py:47-56 | with the empty flag every row is kept |
| ExtractHeaderLegacy.BlankRowKeptOnlyIfMentioned | extract_header.py:53-57 | a blank row is kept iff its own printed form contains the flag |
| ExtractHeaderLegacy.FlagRowKept | extract_header.py:55-58 | a row mentioning the flag is kept whatever came before, so capture restarts |
| ExtractHeaderLegacy.LegacyHeadSubsequence | extract_header.py:52-59 | the header is an order-preserving subsequence of the input rows |
| PyRepr.EscapeConcat | vhf/extract_header_mic.py:63 | escaping in `str(line)` works character by character, so it distributes over concatenation |
| PyRepr.CellTokenMentioned | vhf/extract_header_mic.py:67 | a token of plain characters inside a cell is found in the printed row |
| PyRepr.PrintedPlainPair | vhf/extract_header_mic.py:67 | a two-cell row of plain characters prints as `['a', 'b']` |
| PyRepr.MentionAcrossCells | vhf/extract_header_mic.py:67 | a flag can match across cell boundaries: `a', 'b` is found in `['a', 'b']` but in neither cell |
| Tables.Select | xlsx_to_df.py:55 | column selection succeeds iff every name is a column, yields those columns in the order given and each row's cells under them; otherwise it names a missing label |
| Tables.FilterExact | xlsx_to_df.py:46 | row selection keeps exactly the rows whose cell equals the value, with their multiplicity |
| Tables.FilterOrder | xlsx_to_df.py:46 | every selected row carries the value, and the selected rows are a subsequence of the input (input order, nothing added) |
| Tables.Rename | xlsx_to_df.py:48 | relabelling keeps the rows and the number of columns, and maps each label through the pairs |
| Tables.Relabel | xlsx_to_df.py:48 | a label that no pair names is unchanged |
| Tables.Substitute | xlsx_to_df.py:28 | replacement changes exactly the matching cells of the one column, and nothing else |
| Tables.WithColumn | xlsx_to_df.py:31 | assigning a column adds it at the end (or overwrites it), with the given cells, and leaves other columns unchanged |
| Tables.Join | xlsx_to_df.py:58 | the merge succeeds iff the key is a column of both tables, and then has the columns of both minus the right key |
| Tables.MatchRowsSound | xlsx_to_df.py:58 | each row merged from one left row is that row followed by some right row with the same key, minus its key cell |
| Tables.MatchRowsComplete | xlsx_to_df.py:58 | every right row with the left row's key gives a merged row |
| Tables.JoinRowsSound | xlsx_to_df.py:58 | every row of the inner merge is some left row followed by some right row with the same key, minus the right key cell |
| Tables.JoinRowsComplete | xlsx_to_df.py:58 | every pair of a left row and a right row with the same key gives a row of the inner merge |
| Tables.JoinRowsLeftOrder | xlsx_to_df.py:58 | the merged rows follow the left rows: merging `a + b` gives the rows of `a` then those of `b` |
| Tables.JoinCount | xlsx_to_df.py:58 | in the inner merge a key value occurs (left count) x (right count) times (the product written as repeated addition, `Times`, which `Tables.TimesIsProduct` equates with `*`) |
| Tables.TimesIsProduct | xlsx_to_df.py:58 | the repeated-addition product used for merge multiplicities equals the arithmetic product |
| Tables.JoinColumnsDisjoint | xlsx_to_df.py:58 | when the tables share only the key, the merged labels are the left labels then the right labels without the key |
| Tables.SelectKeyCount | xlsx_to_df.py:55 | selecting columns does not change how many rows carry a key value |
| XlsxToDf.MachineOffsets | xlsx_to_df.py:15-18 | an unknown machine fails; QuantStudio 5 reads the sheet only at offset 47, QuantStudio 3 only at offset 43 |
| XlsxToDf.PrepareCt | xlsx_to_df.py:28 | one row's CT after preparation: the cutoff if it was "Undetermined", else unchanged |
| XlsxToDf.PrepareCells | xlsx_to_df.py:26-35 | preparation fails iff "CT" or "Comments" is missing; otherwise every "Undetermined" CT becomes the cutoff, others are unchanged, "Copies" is computed from "Comments", and every other cell is unchanged |
| XlsxToDf.FluorTableShape | xlsx_to_df.py:46-48 | a fluorophore's table holds exactly the rows whose reporter is its code, and renames CT and Cq Conf to the fluorophore's labels |
| XlsxToDf.QsFoldErrSticky | xlsx_to_df.py:43-58 | once a pass of the loop fails, the run ends with that failure |
| XlsxToDf.FoldFluors | xlsx_to_df.py:43-58 | the `first_loop` loop computes the fold `QsFold` |
| XlsxToDf.QuantStudio | xlsx_to_df.py:9-60 | the whole routine equals `QuantStudioSpec`: machine check, read, preparation, reporter check, fold |
| XlsxToDf.WellProductPositive | xlsx_to_df.py:54-58 | a well's row count is positive iff the well is present in every fluorophore's table |
| XlsxToDf.QsFoldWells | xlsx_to_df.py:54-58 | a well occurs in the folded summary (product of its counts per fluorophore) times |
| XlsxToDf.QsFoldColumns | xlsx_to_df.py:54-58 | with distinct codes the summary's columns are Well Position, Sample Name, Copies, Comments, then each code's CT and Cq Conf in order |
| XlsxToDf.QsFoldColumnsStep | xlsx_to_df.py:53-58 | a pass for a new code appends that code's CT and Cq Conf labels to the summary's columns (the first pass selects the sample columns and them) |
| XlsxToDf.QuantStudioSummary | xlsx_to_df.py:37-58 | a successful summary means the reporters equal the codes; its columns are as above; a well is in it iff it is in every fluorophore's table |
| XlsxToDf.FluorColumnsFrom | xlsx_to_df.py:55-58 | every fluorophore column of the summary belongs to one of the codes |
| XlsxToDf.LabelsDiffer | xlsx_to_df.py:48 | the renamed CT and Cq Conf labels are distinct from each other and from the sample columns, and injective in the code |
| XlsxToDf.RgFluorFoldErrSticky | xlsx_to_df.py:88-101 | once a fluorophore pass fails, the file's inner loop ends with that failure |
| XlsxToDf.RgFileFoldErrSticky | xlsx_to_df.py:75-101 | once a file fails, the run ends with that failure |
| XlsxToDf.MatchFluors | xlsx_to_df.py:88-101 | the inner loop over fluorophores computes `RgFluorFold` |
| XlsxToDf.MatchFiles | xlsx_to_df.py:75-101 | the outer loop over files computes `RgFileFold` |
| XlsxToDf.Rotorgene | xlsx_to_df.py:63-109 | the routine (with the corrected completeness check, see Findings) equals `RotorgeneSpec` |
| XlsxToDf.EndsWithCode | xlsx_to_df.py:89 | a file name ending with "<code>.csv" matches the fluorophore, whatever precedes it |
| XlsxToDf.FirstCharsAbsent | xlsx_to_df.py:89 | a file name holding neither the code's nor the target's first character matches neither "<code>.csv" nor "<target>.csv" |
| XlsxToDf.RgFluorStepUsed | xlsx_to_df.py:88-90 | one fluorophore pass appends the path to `used_filenames` (and the code to the used codes) exactly when the path matches the fluorophore |
| XlsxToDf.RgFluorFoldUsed | xlsx_to_df.py:89-90 | after a file's inner loop, `used_filenames` has grown by the file once per matching fluorophore |
| XlsxToDf.RgFileFoldUsed | xlsx_to_df.py:75-90 | after all files, `used_filenames` lists each file once per matching fluorophore, in order |
| XlsxToDf.RgColumnsShape | xlsx_to_df.py:98-101 | the Rotor-Gene summary has the four sample columns then one CT column per used fluorophore |
| XlsxToDf.RgJoinColumns | xlsx_to_df.py:101 | merging a new fluorophore's CT column appends exactly that column |
| XlsxToDf.RgFluorFoldColumns | xlsx_to_df.py:88-101 | the summary's columns follow the used fluorophores through a file's inner loop |
| XlsxToDf.RgFileFoldColumns | xlsx_to_df.py:75-101 | with distinct used fluorophores the summary's columns are the sample columns then their CT columns |
| XlsxToDf.RotorgeneCoversFluors | xlsx_to_df.py:70-109 | a successful (corrected) run has one file per fluorophore, returns the first path, and has a CT column for every fluorophore after the four sample columns |
| XlsxToDf.UsedPathsCount | xlsx_to_df.py:88-90 | a path occurs in `used_filenames` (its count among the chosen files) x (number of fluorophores matching it) times |
| XlsxToDf.AsWrittenPasses | xlsx_to_df.py:104-107 | a successful run as written means the used names equal the chosen files as multisets |
| XlsxToDf.AsWrittenFileOnce | xlsx_to_df.py:104-107 | with distinct paths, a run as written that succeeds has every file matched by exactly one fluorophore |
| XlsxToDf.CorrectionRefines | xlsx_to_df.py:104-109 | the corrected routine agrees with the one as written whenever it succeeds; they differ only when some fluorophore was not used exactly once, and then the corrected one fails |
| XlsxToDf.RgRelabels | xlsx_to_df.py:91-95 | "No.", "Name", "Ct", "Ct Comment" and the conc column become the canonical labels |
| XlsxToDf.RgRenamedSelects | xlsx_to_df.py:91-101 | an export with its five labels always has the columns both selections need after the rename |
| XlsxToDf.RgFirstFileOneMatch | xlsx_to_df.py:88-99 | a first file matching one fluorophore of two is used once and binds the summary |
| XlsxToDf.RgLaterFileOneMatch | xlsx_to_df.py:88-101 | a later file matching one fluorophore of two is used once and extends the summary |
| XlsxToDf.TwoFilesFold | xlsx_to_df.py:75-101 | two readable files that both match only the first of two fluorophores are both used, each for that fluorophore, and the summary is bound |
| XlsxToDf.TwoFilesOneFluor | xlsx_to_df.py:70-109 | two files that both match only the first of two fluorophores pass the check as written but fail the corrected one |
| XlsxToDf.AsWrittenMissesFluor | xlsx_to_df.py:104-109 | the files "FAM.csv" and "xFAM.csv" for FAM and VIC pass as written although no file matches VIC |
| ReportBuilder.Printables | vhf/reportbuilder_2.py:55-58 | the kept string is no longer than the input and holds only codes 32..126 |
| ReportBuilder.StripAscii | vhf/reportbuilder_2.py:50-64 | a string stays a string with only its printable characters; a float is rounded; any other item is returned unchanged |
| ReportBuilder.PrintablesExact | vhf/reportbuilder_2.py:56-58 | the kept string is a subsequence of the input with every printable character kept as often as it occurs and every other removed |
| ReportBuilder.PrintablesUnchangedIff | vhf/reportbuilder_2.py:56-58 | a string is unchanged iff all its characters are printable |
| ReportBuilder.StripAsciiIdempotent | vhf/reportbuilder_2.py:55-58 | stripping a string twice gives what stripping once gives |
| ReportBuilder.Kept | vhf/reportbuilder_2.py:226-227 | the non-empty items of a row: no more than the row and none empty |
| ReportBuilder.KeptExact | vhf/reportbuilder_2.py:226-227 | the kept items are a subsequence of the row with every non-empty item kept as often as it occurs |
| ReportBuilder.ProcessData | vhf/reportbuilder_2.py:219-257 | the nested loops with their `first` flags compute `ProcessDataSpec`; a mode other than 'left'/'top' is an error |
| ReportBuilder.LeftCellsKept | vhf/reportbuilder_2.py:222-233 | in 'left' mode a row's cells are its non-empty items, stripped, in order, the first one bold |
| ReportBuilder.TopCellsKept | vhf/reportbuilder_2.py:238-248 | in 'top' mode a row's cells are its non-empty items, stripped, in order, all with the row's bold flag |
| ReportBuilder.LeftDataShape | vhf/reportbuilder_2.py:222-235 | every output row has more than one cell, is bold exactly in its first cell, and comes from an input row |
| ReportBuilder.LeftDataIsWideRows | vhf/reportbuilder_2.py:222-235 | the 'left' table is exactly the input rows with more than one kept item, all of them, in input order, each as its cells |
| ReportBuilder.TopDataIsWideRows | vhf/reportbuilder_2.py:238-252 | the 'top' table is exactly the input rows with more than one kept item, in input order: the first input row with bold cells, the later ones plain |
| ReportBuilder.TopDataShape | vhf/reportbuilder_2.py:238-252 | every output row has more than one cell; a cell is bold iff it is in the first output row and that row is the first input row; a wide first input row becomes a bold first output row |
| ReportBuilder.ModesAgreeOnText | vhf/reportbuilder_2.py:222-252 | both modes keep the same rows with the same texts and differ only in bolding |
| ReportBuilder.Grid | vhf/reportbuilder_2.py:260-267 | a DataFrame becomes its column labels followed by its value rows; a list is used as is |
| ReportBuilder.CsvToTable | vhf/reportbuilder_2.py:260-267 | the table is `process_data` of that grid |
| ReportBuilder.FrameLabelsOnTop | vhf/reportbuilder_2.py:263-267 | in 'top' mode a DataFrame's labels become the bold first row |
| ReportBuilder.MaxLen | vhf/reportbuilder_2.py:284 | the widest row's length bounds every row and is attained |
| ReportBuilder.CountColumns | vhf/reportbuilder_2.py:283-287 | the empty list is an error (`max` of nothing); a DataFrame gives its number of labels; a list gives its widest row's length |
| ReportBuilder.ProcessReader | vhf/reportbuilder_2.py:190-199 | the loop with its early return computes `FindName` |
| ReportBuilder.FindNameSkips | vhf/reportbuilder_2.py:192-198 | rows whose first cell does not match are skipped |
| ReportBuilder.FindNameFirstMatch | vhf/reportbuilder_2.py:190-199 | the result is the second cell of the first matching row; 'None' when no row matches; an empty row before any match, or a matching row with only one cell, is an index error |
| ReportBuilder.SampleExperimentName | vhf/reportbuilder_2.py:374-391 | without a keyword, the sample header gives '2024-01-17 - LASV Training Kit QC' |
| ReportBuilder.WithoutSummaryTag | vhf/reportbuilder_2.py:202-203 | a path without " - Summary" is unchanged; otherwise the result is obtained by deletions only |
| ReportBuilder.SummaryTagDeleted | vhf/reportbuilder_2.py:202-203 | the text before the first " - Summary" is kept, that occurrence is deleted, and the text after it goes through the same left-to-right deletion |
| ReportBuilder.SummaryPathExample | vhf/reportbuilder_2.py:202-203 | "Run 5 - Summary.csv" becomes "Run 5.csv" |
| PlainText.Close | reportlab/reportbuilder.py:55 | the lazy `.*?>` ends at the first '>' reached before any line break, and there is none when every '>' has a line break before it |
| PlainText.Tags | reportlab/reportbuilder.py:55-56 | every match found is a tag: '<', no '>' or line break inside, '>' |
| PlainText.GetPlainText | reportlab/reportbuilder.py:54-58 | the loop over the matches of the original text computes `PlainTextOf` |
| PlainText.PlainTextDeletes | reportlab/reportbuilder.py:57 | the result is a subsequence of the input and no longer |
| PlainText.NoAnglesUnchanged | reportlab/reportbuilder.py:54-58 | a text without '<', or without '>', is unchanged |
| PlainText.NewlineBlocksTag | reportlab/reportbuilder.py:55 | a '<' followed by a line break before any '>' starts no match |
| PlainText.LineBreakKeepsMarkup | reportlab/reportbuilder.py:55-57 | "<a\nb>" is returned unchanged |
| PlainText.LoneTagVanishes | reportlab/reportbuilder.py:55-57 | a lone tag maps to the empty string |
| PlainText.EmTagVanishes | reportlab/reportbuilder.py:55-57 | "<em>" maps to the empty string |
| PlainText.PiecesToText | reportlab/reportbuilder.py:56-57 | a text made of tags and tag-free pieces maps to the concatenation of its tag-free pieces |
| PlainText.NestedTagExample | reportlab/reportbuilder.py:54-58 | "<a> <<a>b>" gives " <b>", not the " b>" of a single substitution pass: deleting the first match also deletes its copy inside the second, which is then no longer found |
| PlainText.DeleteAroundPlain | reportlab/reportbuilder.py:56-57 | a match deleted at the front is also deleted after a stretch that holds none of it |
| PlainText.RemoveAllInPieces | reportlab/reportbuilder.py:56-57 | deleting every occurrence of each tag, in turn, deletes exactly those pieces |
| PlainText.WrappedText | reportlab/reportbuilder.py:95-97 | a tag-free text wrapped in two opening and two closing tags maps to the text |
| PlainText.HeaderPlainText | reportlab/reportbuilder.py:95-97 | "<font size=9><em>D - LASV Results</em></font>" maps to "D - LASV Results" for any tag-free date D |

## Left out

- Tkinter dialogs, message boxes and `raise SystemExit`: each abort is an error result (`Failure`, `SplitError`, `LegacyError`, `ReportError`).
- File reading (`open`, `csv.reader`, `read_excel`, `read_csv`): rows and tables are inputs. The QuantStudio sheet is a function from the skipped-row count to a table, or none when no readable file was chosen.
- Rotor-Gene's `skiprows = 27` (xlsx_to_df.py:77) belongs to reading and is not modelled.
- The "Copies" parsing of "Comments" (xlsx_to_df.py:31) is the parameter `copies`. Its regex is not modelled.
- XlsxToDf.QuantStudio: does not return `results_file`, the path chosen in the dialog, because the path comes from I/O.
- XlsxToDf.Prepare: a `.str` accessor applied to non-text comments is not modelled.
- XlsxToDf.QuantStudio: the reporter check compares sets, so reporters that cannot be sorted together (mixed types) are not distinguished from a mismatch.
- Tables.Select: pandas allows duplicate column labels. Here the first column carrying a label is the one looked up.
- Tables.JoinRowsLeftOrder: the merged rows follow the left table's order, as pandas 2.2 and later order an inner merge; earlier pandas versions grouped the rows by key value, and that order is not modelled.
- Tables.Join: the `_x`/`_y` suffixes pandas adds to clashing labels are modelled, but a suffixed label that collides with an existing label is not. The summaries never produce one.
- ReportBuilder.StripAscii: the float branch rounds through a parameter `round2`, so floating point rounding is not modelled.
- Items that are NaN, booleans or None are not modelled: an item is a string, a float or an int.
- PyRepr: `repr` of characters outside Latin-1 (Unicode printability) is not modelled. Such characters are taken as printed unchanged.
- `create_text` markup, reportlab `Paragraph`s, column widths, page canvases, headers/footers and PDF output: rendering, out of scope.
- `get_exp_name`'s `os.path.splitext(os.path.basename(…))` on the path is not modelled, because it is platform-dependent. Only the " - Summary" removal is.
- The date in the header markup (`datetime.now()`) is the parameter `d`.
- `prepend` (a file rewrite) and the module-level scripts with hard-coded paths are not modelled.
- The well classifiers exercised in tests/test_data_analysis.py live in shared/data_analysis.py. That file is not part of this model.
- XlsxToDf.Rotorgene: implements the corrected completeness check of the finding below. The as-written routine is the function `RotorgeneAsWritten`.

## Findings

| source | as written | input that shows it | evidently intended | confidence | as-written member | corrected member |
|---|---|---|---|---|---|---|
| xlsx_to_df.py:104 | the completeness check compares only the sorted chosen file names with the sorted used file names | files "FAM.csv" and "xFAM.csv" for fluorophores FAM→LASV and VIC→Internal Control: both files match FAM, none matches VIC, and the check passes, so no file supplies the VIC CT column | every fluorophore is matched by exactly one file, so the summary has a CT column per fluorophore | not executed | XlsxToDf.AsWrittenMissesFluor | XlsxToDf.RotorgeneCoversFluors |
