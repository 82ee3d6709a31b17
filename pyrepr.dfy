/** `str(line)` for a row read by `csv.reader`, i.e. Python's `repr` of a
    list of strings: `['a', 'b']`. The header scanners test their tokens
    against this printed form, not against the cells. */
module PyRepr {
  import opened Text

  function HexDigit(n: int): char
    requires 0 <= n < 16
  {
    if n < 10 then ('0' as int + n) as char else ('a' as int + n - 10) as char
  }

  /** Characters below U+0100 that `repr` writes as `\xNN`. */
  predicate NonPrintableLatin1(c: char) {
    var n := c as int;
    n < 0x20 || (0x7F <= n <= 0xA0) || n == 0xAD
  }

  /** How `repr` writes one character inside a literal delimited by `quote`. */
  function EscapeChar(c: char, quote: char): string {
    if c == quote || c == '\\' then ['\\', c]
    else if c == '\t' then "\\t"
    else if c == '\n' then "\\n"
    else if c == '\r' then "\\r"
    else if NonPrintableLatin1(c) then "\\x" + [HexDigit(c as int / 16), HexDigit(c as int % 16)]
    else [c]
  }

  function Escape(s: string, quote: char): string {
    if s == [] then [] else EscapeChar(s[0], quote) + Escape(s[1..], quote)
  }

  /** `repr(s)`: single quotes unless the text holds a single quote and no double quote. */
  function ReprQuote(s: string): char {
    if '\'' in s && '"' !in s then '"' else '\''
  }

  function ReprStr(s: string): string {
    [ReprQuote(s)] + Escape(s, ReprQuote(s)) + [ReprQuote(s)]
  }

  function JoinReprs(cells: seq<string>): string {
    if cells == [] then []
    else if |cells| == 1 then ReprStr(cells[0])
    else ReprStr(cells[0]) + ", " + JoinReprs(cells[1..])
  }

  /** `str(row)` for a list of strings. */
  function Printed(row: seq<string>): string {
    "[" + JoinReprs(row) + "]"
  }

  /** `token in str(row)`. */
  predicate Mentions(row: seq<string>, token: string) {
    Contains(Printed(row), token)
  }

  /** Characters that `repr` copies verbatim whatever the quote. */
  predicate PlainChar(c: char) {
    32 <= c as int < 127 && c != '\'' && c != '"' && c != '\\'
  }

  lemma {:induction false} EscapeConcat(a: string, b: string, q: char)
    ensures Escape(a + b, q) == Escape(a, q) + Escape(b, q)
  {
    if a == [] {
      assert a + b == b;
    } else {
      var e := EscapeChar(a[0], q);
      assert (a + b)[0] == a[0] && (a + b)[1..] == a[1..] + b;
      calc {
        Escape(a + b, q);
        e + Escape(a[1..] + b, q);
        { EscapeConcat(a[1..], b, q); }
        e + (Escape(a[1..], q) + Escape(b, q));
        (e + Escape(a[1..], q)) + Escape(b, q);
      }
    }
  }

  lemma {:induction false} EscapePlain(t: string, q: char)
    requires q == '\'' || q == '"'
    requires forall i :: 0 <= i < |t| ==> PlainChar(t[i])
    ensures Escape(t, q) == t
  {
    if t != [] {
      EscapePlain(t[1..], q);
      assert EscapeChar(t[0], q) == [t[0]];
      assert t == [t[0]] + t[1..];
    }
  }

  lemma {:induction false} JoinContains(cells: seq<string>, i: nat, t: string)
    requires i < |cells| && Contains(ReprStr(cells[i]), t)
    ensures Contains(JoinReprs(cells), t)
  {
    if |cells| > 1 {
      var head, rest := ReprStr(cells[0]), JoinReprs(cells[1..]);
      assert JoinReprs(cells) == head + (", " + rest);
      if i > 0 {
        assert cells[1..][i - 1] == cells[i];
        JoinContains(cells[1..], i - 1, t);
      }
      ContainsEither(head, ", ", rest, t);
    }
  }

  lemma {:induction false} EscapeAround(a: string, t: string, b: string, q: char)
    requires q == '\'' || q == '"'
    requires forall j :: 0 <= j < |t| ==> PlainChar(t[j])
    ensures Escape(a + t + b, q) == Escape(a, q) + t + Escape(b, q)
  {
    EscapeConcat(a + t, b, q);
    EscapeConcat(a, t, q);
    EscapePlain(t, q);
  }

  /** A token of plain characters inside a cell survives into `repr(cell)`. */
  lemma {:induction false} ReprContainsPlain(cell: string, k: nat, t: string)
    requires k + |t| <= |cell| && cell[k..k + |t|] == t
    requires forall j :: 0 <= j < |t| ==> PlainChar(t[j])
    ensures Contains(ReprStr(cell), t)
  {
    var q := ReprQuote(cell);
    var a, b := cell[..k], cell[k + |t|..];
    assert cell == a + t + b;
    EscapeAround(a, t, b, q);
    var ea, eb := Escape(a, q), Escape(b, q);
    assert ReprStr(cell) == ([q] + ea) + t + (eb + [q]);
    ContainsAt(t, t, 0);
    ContainsInfix([q] + ea, t, eb + [q], t);
  }

  /** A token of plain characters that occurs inside cell `i` is found in
      the printed row. */
  lemma {:induction false} CellTokenMentioned(row: seq<string>, i: nat, k: nat, t: string)
    requires i < |row| && k + |t| <= |row[i]| && row[i][k..k + |t|] == t
    requires forall j :: 0 <= j < |t| ==> PlainChar(t[j])
    ensures Mentions(row, t)
  {
    ReprContainsPlain(row[i], k, t);
    JoinContains(row, i, t);
    ContainsInfix("[", JoinReprs(row), "]", t);
  }

  /** A row of plain cells prints as `['c1', 'c2', ...]`. */
  lemma {:induction false} PrintedPlainCell(cell: string)
    requires forall i :: 0 <= i < |cell| ==> PlainChar(cell[i])
    ensures ReprStr(cell) == "'" + cell + "'"
  {
    EscapePlain(cell, '\'');
  }

  /** `str([a, b])` for two cells of plain characters. */
  lemma {:induction false} PrintedPlainPair(a: string, b: string)
    requires forall i :: 0 <= i < |a| ==> PlainChar(a[i])
    requires forall i :: 0 <= i < |b| ==> PlainChar(b[i])
    ensures Printed([a, b]) == "['" + a + "', '" + b + "']"
  {
    PrintedPlainCell(a);
    PrintedPlainCell(b);
    assert [a, b][1..] == [b];
    assert JoinReprs([a, b]) == ReprStr(a) + ", " + ReprStr(b);
    assert "['" == "[" + "'" && "', '" == "'" + ", " + "'" && "']" == "'" + "]";
  }

  /** The test can match across cells: `a', 'b` occurs in `str(['a', 'b'])`
      although neither cell holds it. */
  lemma MentionAcrossCells()
    ensures Mentions(["a", "b"], "a', 'b")
    ensures !Contains("a", "a', 'b") && !Contains("b", "a', 'b")
  {
    assert '\'' !in "a" && '\'' !in "b";
    assert Escape("a", '\'') == "a" by { assert "a"[1..] == ""; }
    assert Escape("b", '\'') == "b" by { assert "b"[1..] == ""; }
    assert ReprStr("a") == "'a'";
    assert ReprStr("b") == "'b'";
    assert Printed(["a", "b"]) == "['a', 'b']";
    ContainsAt("['a', 'b']", "a', 'b", 2);
    if Contains("a", "a', 'b") { ContainsLength("a", "a', 'b"); }
    if Contains("b", "a', 'b") { ContainsLength("b", "a', 'b"); }
  }
}
