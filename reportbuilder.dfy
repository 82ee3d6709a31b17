/** `get_plain_text(text)` of reportlab/reportbuilder.py: the markup tags
    that the lazy pattern `<.*?>` finds in the text are each deleted with
    `str.replace`. The matches are found once, in the original text; every
    replacement then removes all occurrences of that match from the text as
    it stands. */
module PlainText {
  import opened Wrappers
  import opened Text

  /** Where `.*?>` stops when it starts at the beginning of `s`: the first
      '>', provided no line break comes before it ('.' does not match one). */
  function Close(s: string): (r: Option<nat>)
    ensures r.Some? ==> r.value < |s| && s[r.value] == '>'
    ensures r.Some? ==> forall j :: 0 <= j < r.value ==> s[j] != '>' && s[j] != '\n'
    ensures r.None? ==> forall j :: 0 <= j < |s| && s[j] == '>' ==> exists i :: 0 <= i < j && s[i] == '\n'
  {
    if s == [] then None
    else if s[0] == '>' then Some(0)
    else if s[0] == '\n' then None
    else
      match Close(s[1..])
        case None =>
          assert forall j :: 1 <= j < |s| ==> s[j] == s[1..][j - 1];
          None
        case Some(k) => Some(k + 1)
  }

  /** A match of `<.*?>`: a '<', then characters other than '>' and line
      breaks, then '>'. */
  predicate IsTag(t: string) {
    |t| >= 2 && t[0] == '<' && t[|t| - 1] == '>' &&
    forall k :: 0 < k < |t| - 1 ==> t[k] != '>' && t[k] != '\n'
  }

  /** `regex.finditer(text)`, as the matched strings: scanning left to
      right, a '<' with a closing '>' on its line gives the shortest match
      and the scan goes on after it; any other character is skipped. */
  function Tags(s: string): (r: seq<string>)
    ensures forall k :: 0 <= k < |r| ==> IsTag(r[k])
    decreases |s|
  {
    if s == [] then []
    else if s[0] == '<' && Close(s[1..]).Some? then
      var c := Close(s[1..]).value;
      assert forall j :: 0 <= j < c ==> s[..c + 2][j + 1] == s[1..][j];
      [s[..c + 2]] + Tags(s[c + 2..])
    else Tags(s[1..])
  }

  /** `text` after `text = text.replace(m, '')` for each `m` of `ms` in turn. */
  function RemoveAll(s: string, ms: seq<string>): string
    requires forall k :: 0 <= k < |ms| ==> ms[k] != []
  {
    if ms == [] then s
    else ReplaceAll(RemoveAll(s, ms[..|ms| - 1]), ms[|ms| - 1], "")
  }

  /** What `get_plain_text(text)` returns. */
  function PlainTextOf(text: string): string {
    RemoveAll(text, Tags(text))
  }

  /** `get_plain_text(text)`: the loop over the matches, rebinding `text`. */
  method GetPlainText(text: string) returns (plain: string)
    ensures plain == PlainTextOf(text)
  {
    var matches := Tags(text);
    plain := text;
    for i := 0 to |matches|
      invariant plain == RemoveAll(text, matches[..i])
    {
      assert matches[..i + 1][..i] == matches[..i];
      plain := ReplaceAll(plain, matches[i], "");
    }
    assert matches[..|matches|] == matches;
  }

  /** Replacing only deletes characters, so the plain text is a
      subsequence of the markup and no longer than it. */
  lemma {:induction false} RemoveAllDeletes(s: string, ms: seq<string>)
    requires forall k :: 0 <= k < |ms| ==> ms[k] != []
    ensures IsSubsequence(RemoveAll(s, ms), s)
  {
    if ms == [] {
      SubsequenceRefl(s);
    } else {
      var prev := RemoveAll(s, ms[..|ms| - 1]);
      RemoveAllDeletes(s, ms[..|ms| - 1]);
      ReplaceDeletes(prev, ms[|ms| - 1]);
      SubsequenceTrans(ReplaceAll(prev, ms[|ms| - 1], ""), prev, s);
    }
  }

  lemma {:induction false} PlainTextDeletes(text: string)
    ensures IsSubsequence(PlainTextOf(text), text)
    ensures |PlainTextOf(text)| <= |text|
  {
    RemoveAllDeletes(text, Tags(text));
    SubsequenceBounds(PlainTextOf(text), text);
  }

  /** Without a '<' or without a '>' there is no match. */
  lemma {:induction false} NoTagsWithoutAngles(s: string)
    requires '<' !in s || '>' !in s
    ensures Tags(s) == []
    decreases |s|
  {
    if s != [] {
      assert forall c :: c in s[1..] ==> c in s;
      NoTagsWithoutAngles(s[1..]);
    }
  }

  /** A text with no '<', or with no '>', is returned unchanged. */
  lemma {:induction false} NoAnglesUnchanged(text: string)
    requires '<' !in text || '>' !in text
    ensures PlainTextOf(text) == text
  {
    NoTagsWithoutAngles(text);
  }

  /** The scan over a tag at the front matches exactly that tag. */
  lemma {:induction false} TagsAfterTag(t: string, rest: string)
    requires IsTag(t)
    ensures Tags(t + rest) == [t] + Tags(rest)
  {
    var s := t + rest;
    var c := |t| - 2;
    CloseAt(s[1..], c);
    assert s[..c + 2] == t;
    assert s[c + 2..] == rest;
  }

  /** `Close` finds a '>' at `c` when nothing before it stops the pattern. */
  lemma {:induction false} CloseAt(s: string, c: nat)
    requires c < |s| && s[c] == '>'
    requires forall j :: 0 <= j < c ==> s[j] != '>' && s[j] != '\n'
    ensures Close(s) == Some(c)
  {
    if c > 0 {
      CloseAt(s[1..], c - 1);
    }
  }

  /** Text without '<' starts no match. */
  lemma {:induction false} TagsAfterPlain(x: string, rest: string)
    requires '<' !in x
    ensures Tags(x + rest) == Tags(rest)
  {
    if x != [] {
      assert (x + rest)[1..] == x[1..] + rest;
      assert forall c :: c in x[1..] ==> c in x;
      TagsAfterPlain(x[1..], rest);
    } else {
      assert x + rest == rest;
    }
  }

  /** A '<' whose line ends before any '>' starts no match: the scan moves
      on to the next character. */
  lemma {:induction false} NewlineBlocksTag(a: string, b: string)
    requires '>' !in a
    ensures Tags("<" + a + "\n" + b) == Tags(a + "\n" + b)
  {
    var s := "<" + a + "\n" + b;
    assert s[1..] == a + "\n" + b;
    NewlineStopsClose(a, b);
  }

  lemma {:induction false} NewlineStopsClose(a: string, b: string)
    requires '>' !in a
    ensures Close(a + "\n" + b) == None
  {
    if a != [] {
      assert (a + "\n" + b)[1..] == a[1..] + "\n" + b;
      assert forall c :: c in a[1..] ==> c in a;
      NewlineStopsClose(a[1..], b);
    }
  }

  /** A lone tag, such as "<em>", maps to the empty string. */
  lemma {:induction false} LoneTagVanishes(t: string)
    requires IsTag(t)
    ensures PlainTextOf(t) == ""
  {
    TagsAfterTag(t, "");
    assert t + "" == t;
    assert Tags(t) == [t];
    assert [t][..0] == [];
    assert RemoveAll(t, [t]) == ReplaceAll(t, t, "");
    ReplaceHead(t, "", "");
    ReplaceShort("", t, "");
    assert "" + "" == "";
  }

  lemma EmTagVanishes()
    ensures PlainTextOf("<em>") == ""
  {
    LoneTagVanishes("<em>");
  }

  /** A line break inside angle brackets stops the pattern: "<a\nb>"
      keeps its markup. */
  lemma LineBreakKeepsMarkup()
    ensures PlainTextOf("<a\nb>") == "<a\nb>"
  {
    NewlineBlocksTag("a", "b>");
    assert "<" + "a" + "\n" + "b>" == "<a\nb>";
    TagsAfterPlain("a\nb", ">");
    assert "a" + "\n" + "b>" == "a\nb" + ">";
    assert Tags(">") == Tags(">"[1..]);
    assert ">"[1..] == [];
  }

  /** Unlike a single substitution pass, the replacements work on the text
      as it stands: deleting the first match "<a>" also deletes the copy
      inside the later match "<<a>", which is then no longer found, so
      "<a> <<a>b>" gives " <b>" and not " b>". */
  lemma NestedTagExample()
    ensures PlainTextOf("<a> <<a>b>") == " <b>"
  {
    var text := "<a> <<a>b>";
    NestedTagsFound();
    assert ["<a>", "<<a>"][..1] == ["<a>"];
    assert ["<a>"][..0] == [];
    assert RemoveAll(text, ["<a>"]) == ReplaceAll(RemoveAll(text, []), "<a>", "");
    assert RemoveAll(text, ["<a>", "<<a>"]) == ReplaceAll(RemoveAll(text, ["<a>"]), "<<a>", "");
    NestedFirstPass();
    NestedSecondPass();
  }

  lemma NestedTagsFound()
    ensures Tags("<a> <<a>b>") == ["<a>", "<<a>"]
  {
    var t, u := "<a>", "<<a>";
    assert t + (" " + (u + "b>")) == "<a> <<a>b>";
    TagsAfterPlain("b>", "");
    assert "b>" + "" == "b>";
    TagsAfterTag(u, "b>");
    TagsAfterPlain(" ", u + "b>");
    TagsAfterTag(t, " " + (u + "b>"));
  }

  /** Deleting "<a>" removes it at the front and inside "<<a>". */
  lemma NestedFirstPass()
    ensures ReplaceAll("<a> <<a>b>", "<a>", "") == " <b>"
  {
    var t, p, y := "<a>", " <", "b>";
    forall k | 0 <= k < |p|
      ensures !(t <= (p + (t + y))[k..])
    {
      assert (p + (t + y))[k..][0] == p[k];
      if k == 1 {
        assert (p + (t + y))[k..][1] == t[0] != t[1];
      }
    }
    DeleteAroundPlain(t, p, y);
    assert t + (p + (t + y)) == "<a> <<a>b>";
    assert p + y == " <b>";
  }

  /** A pattern at the front and again after a stretch holding no
      occurrence of it, with too little left after it for another. */
  lemma {:induction false} DeleteAroundPlain(t: string, p: string, y: string)
    requires t != [] && |y| < |t|
    requires forall k :: 0 <= k < |p| ==> !(t <= (p + (t + y))[k..])
    ensures ReplaceAll(t + (p + (t + y)), t, "") == p + y
  {
    ReplaceShort(y, t, "");
    ReplaceHead(t, y, "");
    ReplaceSkip(p, t + y, t, "");
    ReplaceHead(t, p + (t + y), "");
    assert "" + (p + ("" + y)) == p + y;
  }

  /** No "<<a>" is left for the second deletion. */
  lemma NestedSecondPass()
    ensures ReplaceAll(" <b>", "<<a>", "") == " <b>"
  {
    var s, u := " <b>", "<<a>";
    forall k | 0 <= k < |s|
      ensures !(u <= (s + "")[k..])
    {
      if k == 0 {
        assert (s + "")[k..][0] == ' ' != u[0];
      }
    }
    ReplaceShort("", u, "");
    ReplaceSkip(s, "", u, "");
    assert s + "" == s;
  }

  // Text built from tags and tag-free stretches.

  /** A tag whose only '<' is its first character. */
  predicate SimpleTag(t: string) {
    IsTag(t) && forall k :: 0 < k < |t| ==> t[k] != '<'
  }

  /** A piece of markup: a simple tag, or a stretch without '<'. */
  predicate Piece(x: string) {
    SimpleTag(x) || '<' !in x
  }

  function Concat(ps: seq<string>): string {
    if ps == [] then "" else ps[0] + Concat(ps[1..])
  }

  /** The tag pieces, in order. */
  function TagPieces(ps: seq<string>): (r: seq<string>)
    ensures forall k :: 0 <= k < |r| ==> SimpleTag(r[k]) && r[k] in ps
  {
    if ps == [] then []
    else
      var rest := TagPieces(ps[1..]);
      assert forall p :: p in rest ==> p in ps;
      (if SimpleTag(ps[0]) then [ps[0]] else []) + rest
  }

  /** The tag-free pieces, in order. */
  function TextPieces(ps: seq<string>): seq<string> {
    if ps == [] then []
    else (if SimpleTag(ps[0]) then [] else [ps[0]]) + TextPieces(ps[1..])
  }

  /** The pieces not listed in `ms`, in order. */
  function Keep(ps: seq<string>, ms: seq<string>): (r: seq<string>)
    ensures forall k :: 0 <= k < |r| ==> r[k] in ps && r[k] !in ms
  {
    if ps == [] then []
    else
      var rest := Keep(ps[1..], ms);
      assert forall p :: p in rest ==> p in ps;
      (if ps[0] in ms then [] else [ps[0]]) + rest
  }

  /** The scan over pieces matches exactly the tag pieces. */
  lemma {:induction false} TagsOfPieces(ps: seq<string>)
    requires forall k :: 0 <= k < |ps| ==> Piece(ps[k])
    ensures Tags(Concat(ps)) == TagPieces(ps)
  {
    if ps != [] {
      TagsOfPieces(ps[1..]);
      if SimpleTag(ps[0]) {
        TagsAfterTag(ps[0], Concat(ps[1..]));
      } else {
        TagsAfterPlain(ps[0], Concat(ps[1..]));
      }
    }
  }

  /** A different simple tag, or a stretch without '<', holds no occurrence
      of the simple tag `m` at any of its positions. */
  lemma {:induction false} NoOccurrenceInPiece(x: string, y: string, m: string)
    requires Piece(x) && SimpleTag(m) && x != m
    ensures forall k :: 0 <= k < |x| ==> !(m <= (x + y)[k..])
  {
    forall k | 0 <= k < |x|
      ensures !(m <= (x + y)[k..])
    {
      var s := (x + y)[k..];
      assert s[0] == x[k];
      if k > 0 || !SimpleTag(x) {
        assert x[k] in x;
        assert s[0] != m[0];
      } else if |m| < |x| {
        assert s[|m| - 1] == x[|m| - 1] != m[|m| - 1];
      } else if |m| == |x| {
        assert s[..|m|] == x;
      } else if |m| <= |s| {
        assert s[|x| - 1] == x[|x| - 1] != m[|x| - 1];
      }
    }
  }

  /** Replacing a simple tag in text made of pieces removes exactly the
      pieces equal to it. */
  lemma {:induction false} ReplaceInPieces(ps: seq<string>, m: string)
    requires forall k :: 0 <= k < |ps| ==> Piece(ps[k])
    requires SimpleTag(m)
    ensures ReplaceAll(Concat(ps), m, "") == Concat(Keep(ps, [m]))
  {
    if ps == [] {
      ReplaceShort("", m, "");
    } else {
      ReplaceInPieces(ps[1..], m);
      var rest := Concat(ps[1..]);
      if ps[0] == m {
        ReplaceHead(m, rest, "");
        assert "" + ReplaceAll(rest, m, "") == ReplaceAll(rest, m, "");
        assert Keep(ps, [m]) == Keep(ps[1..], [m]);
      } else {
        NoOccurrenceInPiece(ps[0], rest, m);
        ReplaceSkip(ps[0], rest, m, "");
        assert Keep(ps, [m]) == [ps[0]] + Keep(ps[1..], [m]);
      }
    }
  }

  lemma {:induction false} KeepPieces(ps: seq<string>, ms: seq<string>)
    requires forall k :: 0 <= k < |ps| ==> Piece(ps[k])
    ensures forall k :: 0 <= k < |Keep(ps, ms)| ==> Piece(Keep(ps, ms)[k])
  {
    if ps != [] {
      KeepPieces(ps[1..], ms);
    }
  }

  lemma {:induction false} KeepTwice(ps: seq<string>, a: seq<string>, b: seq<string>)
    ensures Keep(Keep(ps, a), b) == Keep(ps, a + b)
  {
    if ps != [] {
      KeepTwice(ps[1..], a, b);
      assert ps[0] in a + b <==> ps[0] in a || ps[0] in b;
      if ps[0] in a {
        assert Keep(ps, a) == Keep(ps[1..], a);
        assert Keep(ps, a + b) == Keep(ps[1..], a + b);
      } else {
        assert Keep(ps, a) == [ps[0]] + Keep(ps[1..], a);
        assert Keep(ps, a)[1..] == Keep(ps[1..], a);
        assert Keep(ps, a)[0] == ps[0];
      }
    }
  }

  /** Removing simple tags one after another from text made of pieces
      removes exactly the pieces listed. */
  lemma {:induction false} RemoveAllInPieces(ps: seq<string>, ms: seq<string>)
    requires forall k :: 0 <= k < |ps| ==> Piece(ps[k])
    requires forall k :: 0 <= k < |ms| ==> SimpleTag(ms[k]) && ms[k] != []
    ensures RemoveAll(Concat(ps), ms) == Concat(Keep(ps, ms))
  {
    if ms == [] {
      KeepNothing(ps);
    } else {
      var init := ms[..|ms| - 1];
      var last := ms[|ms| - 1];
      RemoveAllInPieces(ps, init);
      KeepPieces(ps, init);
      ReplaceInPieces(Keep(ps, init), last);
      KeepTwice(ps, init, [last]);
      assert init + [last] == ms;
    }
  }

  lemma {:induction false} KeepNothing(ps: seq<string>)
    ensures Keep(ps, []) == ps
  {
    if ps != [] {
      KeepNothing(ps[1..]);
    }
  }

  /** Dropping every tag piece leaves the tag-free pieces. */
  lemma {:induction false} KeepTextPieces(ps: seq<string>, ms: seq<string>)
    requires forall k :: 0 <= k < |ps| ==> Piece(ps[k])
    requires forall k :: 0 <= k < |ps| && SimpleTag(ps[k]) ==> ps[k] in ms
    requires forall k :: 0 <= k < |ms| ==> SimpleTag(ms[k])
    ensures Keep(ps, ms) == TextPieces(ps)
  {
    if ps != [] {
      KeepTextPieces(ps[1..], ms);
      if !SimpleTag(ps[0]) {
        assert ps[0] !in ms;
      }
    }
  }

  /** Markup made of simple tags and stretches without '<' is reduced to
      its stretches of text. */
  lemma {:induction false} PiecesToText(ps: seq<string>)
    requires forall k :: 0 <= k < |ps| ==> Piece(ps[k])
    ensures PlainTextOf(Concat(ps)) == Concat(TextPieces(ps))
  {
    TagsOfPieces(ps);
    var ms := TagPieces(ps);
    RemoveAllInPieces(ps, ms);
    forall k | 0 <= k < |ps| && SimpleTag(ps[k])
      ensures ps[k] in ms
    {
      TagPiecesComplete(ps, k);
    }
    KeepTextPieces(ps, ms);
  }

  lemma {:induction false} TagPiecesComplete(ps: seq<string>, k: nat)
    requires k < |ps| && SimpleTag(ps[k])
    ensures ps[k] in TagPieces(ps)
  {
    if k > 0 {
      TagPiecesComplete(ps[1..], k - 1);
    }
  }

  /** Text wrapped in two simple tags on each side keeps only the text. */
  lemma {:induction false} WrappedText(f: string, em: string, text: string, cem: string, cf: string)
    requires SimpleTag(f) && SimpleTag(em) && SimpleTag(cem) && SimpleTag(cf)
    requires '<' !in text
    ensures PlainTextOf(f + em + text + cem + cf) == text
  {
    var ps := [f, em, text, cem, cf];
    assert !SimpleTag(text) by {
      if text != [] { assert text[0] in text; }
    }
    assert forall k :: 0 <= k < |ps| ==> Piece(ps[k]);
    PiecesToText(ps);
    ConcatFive(f, em, text, cem, cf);
    TextPiecesWrapped(f, em, text, cem, cf);
    assert Concat([text]) == text + "";
  }

  lemma ConcatFive(a: string, b: string, c: string, d: string, e: string)
    ensures Concat([a, b, c, d, e]) == a + b + c + d + e
  {
    assert Concat([e]) == e by { assert [e][1..] == []; }
    assert Concat([d, e]) == d + e by { assert [d, e][1..] == [e]; }
    assert Concat([c, d, e]) == c + (d + e) by { assert [c, d, e][1..] == [d, e]; }
    assert Concat([b, c, d, e]) == b + (c + (d + e)) by { assert [b, c, d, e][1..] == [c, d, e]; }
    assert Concat([a, b, c, d, e]) == a + (b + (c + (d + e))) by { assert [a, b, c, d, e][1..] == [b, c, d, e]; }
  }

  /** Of a text wrapped in two simple tags on each side, only the text is a text piece. */
  lemma TextPiecesWrapped(f: string, em: string, text: string, cem: string, cf: string)
    requires SimpleTag(f) && SimpleTag(em) && SimpleTag(cem) && SimpleTag(cf) && !SimpleTag(text)
    ensures TextPieces([f, em, text, cem, cf]) == [text]
  {
    assert TextPieces([cf]) == [] by { assert [cf][1..] == []; }
    assert TextPieces([cem, cf]) == [] by { assert [cem, cf][1..] == [cf]; }
    assert TextPieces([text, cem, cf]) == [text] by { assert [text, cem, cf][1..] == [cem, cf]; }
    assert TextPieces([em, text, cem, cf]) == [text] by { assert [em, text, cem, cf][1..] == [text, cem, cf]; }
    assert [f, em, text, cem, cf][1..] == [em, text, cem, cf];
  }

  /** The right-hand header markup: whatever the date `d`, as long as it
      holds no '<', the plain text is the date and " - LASV Results". */
  lemma {:induction false} HeaderPlainText(d: string)
    requires '<' !in d
    ensures PlainTextOf("<font size=9><em>" + d + " - LASV Results</em></font>") == d + " - LASV Results"
  {
    var text := d + " - LASV Results";
    HeaderTags();
    assert '<' !in " - LASV Results";
    assert '<' !in text;
    WrappedText("<font size=9>", "<em>", text, "</em>", "</font>");
    HeaderSplit(d);
  }

  lemma HeaderTags()
    ensures SimpleTag("<font size=9>") && SimpleTag("<em>") && SimpleTag("</em>") && SimpleTag("</font>")
  {
  }

  lemma HeaderSplit(d: string)
    ensures "<font size=9><em>" + d + " - LASV Results</em></font>"
      == "<font size=9>" + "<em>" + (d + " - LASV Results") + "</em>" + "</font>"
  {
    calc {
      "<font size=9><em>" + d + " - LASV Results</em></font>";
      { assert "<font size=9><em>" == "<font size=9>" + "<em>";
        assert " - LASV Results</em></font>" == " - LASV Results" + "</em>" + "</font>"; }
      ("<font size=9>" + "<em>") + d + (" - LASV Results" + "</em>" + "</font>");
      "<font size=9>" + "<em>" + (d + " - LASV Results") + "</em>" + "</font>";
    }
  }
}
