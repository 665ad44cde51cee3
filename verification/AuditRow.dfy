/** The audit table's row printer and reader in the Rust source scanner: cells escaped by three
    global replaces in sequence, split on unescaped bars, unescaped by three more. The Unicode test
    behind `str.strip` is a parameter. */
module AuditRow {

  /** `str.replace`: leftmost, non-overlapping. */
  function Replace(s: string, pat: string, new_: string): string
    requires pat != ""
  {
    if s == "" then ""
    else if pat <= s then new_ + Replace(s[|pat|..], pat, new_)
    else [s[0]] + Replace(s[1..], pat, new_)
  }

  function MarkdownEscape(v: string): string {
    Replace(Replace(Replace(v, "\\", "\\\\"), "|", "\\|"), "`", "\\`")
  }

  function LStrip(s: string, space: char -> bool): string {
    if s != "" && space(s[0]) then LStrip(s[1..], space) else s
  }

  function RStrip(s: string, space: char -> bool): string {
    if s != "" && space(s[|s| - 1]) then RStrip(s[..|s| - 1], space) else s
  }

  function Strip(s: string, space: char -> bool): string {
    RStrip(LStrip(s, space), space)
  }

  function Unescape(v: string): string {
    Replace(Replace(Replace(v, "\\|", "|"), "\\`", "`"), "\\\\", "\\")
  }

  function UnquoteCode(value: string, space: char -> bool): string {
    var v := Strip(value, space);
    Unescape(if v != "" && v[0] == '`' && v[|v| - 1] == '`' then (if |v| >= 2 then v[1..|v| - 1] else "") else v)
  }

  /** The cells still to come, with `current` collected and `escaped` pending. */
  function CellsFrom(line: string, current: string, escaped: bool, space: char -> bool): (r: seq<string>)
    ensures |r| > 0
    decreases line
  {
    if line == "" then [Strip(current, space)]
    else if escaped then CellsFrom(line[1..], current + ['\\', line[0]], false, space)
    else if line[0] == '\\' then CellsFrom(line[1..], current, true, space)
    else if line[0] == '|' then [Strip(current, space)] + CellsFrom(line[1..], "", false, space)
    else CellsFrom(line[1..], current + [line[0]], false, space)
  }

  function DropEmptyEnds(cells: seq<string>): seq<string> {
    var front := if cells != [] && cells[0] == "" then cells[1..] else cells;
    if front != [] && front[|front| - 1] == "" then front[..|front| - 1] else front
  }

  method SplitMarkdownRow(line: string, space: char -> bool) returns (cells: seq<string>)
    ensures cells == DropEmptyEnds(CellsFrom(line, "", false, space))
  {
    cells := [];
    var current, escaped := "", false;
    ghost var all := CellsFrom(line, "", false, space);
    assert line[0..] == line && all == [] + all;
    for i := 0 to |line|
      invariant all == cells + CellsFrom(line[i..], current, escaped, space)
    {
      assert line[i..][1..] == line[i + 1..];
      ghost var was := cells;
      if escaped {
        current, escaped := current + ['\\', line[i]], false;
      } else if line[i] == '\\' {
        escaped := true;
      } else if line[i] == '|' {
        cells := cells + [Strip(current, space)];
        assert was + ([Strip(current, space)] + CellsFrom(line[i + 1..], "", false, space)) ==
               cells + CellsFrom(line[i + 1..], "", false, space);
        current := "";
      } else {
        current := current + [line[i]];
      }
    }
    cells := cells + [Strip(current, space)];
    if cells != [] && cells[0] == "" { cells := cells[1..]; }
    if cells != [] && cells[|cells| - 1] == "" { cells := cells[..|cells| - 1]; }
  }

  // --- Escaping, character by character ------------------------------------------------------------

  function EscapeChar(c: char): string {
    if c == '\\' then "\\\\" else if c == '|' then "\\|" else if c == '`' then "\\`" else [c]
  }

  function EscapeEach(v: string): string {
    if v == "" then "" else EscapeChar(v[0]) + EscapeEach(v[1..])
  }

  /** Replacing a single character commutes with concatenation. */
  lemma {:induction false} ReplaceCharConcat(a: string, b: string, c: char, new_: string)
    ensures Replace(a + b, [c], new_) == Replace(a, [c], new_) + Replace(b, [c], new_)
    decreases a
  {
    if a == "" {
      assert a + b == b;
    } else {
      assert (a + b)[1..] == a[1..] + b;
      ReplaceCharConcat(a[1..], b, c, new_);
      OneCharPrefix(a + b, c);
      OneCharPrefix(a, c);
      if a[0] == c {
        assert new_ + (Replace(a[1..], [c], new_) + Replace(b, [c], new_)) ==
            Replace(a, [c], new_) + Replace(b, [c], new_);
      } else {
        assert [a[0]] + (Replace(a[1..], [c], new_) + Replace(b, [c], new_)) ==
            Replace(a, [c], new_) + Replace(b, [c], new_);
      }
    }
  }

  lemma OneCharPrefix(s: string, c: char)
    requires s != ""
    ensures [c] <= s <==> s[0] == c
  {
  }

  lemma ReplaceOne(x: char, c: char, new_: string)
    ensures Replace([x], [c], new_) == if x == c then new_ else [x]
  {
    OneCharPrefix([x], c);
    assert [x][1..] == "";
  }

  lemma EscapeOfChar(c: char)
    ensures MarkdownEscape([c]) == EscapeChar(c)
  {
    hide Replace;
    ReplaceOne(c, '\\', "\\\\");
    ReplaceOne(c, '|', "\\|");
    ReplaceOne(c, '`', "\\`");
    if c == '\\' {
      assert "\\\\" == "\\" + "\\";
      ReplaceCharConcat("\\", "\\", '|', "\\|");
      ReplaceOne('\\', '|', "\\|");
      ReplaceCharConcat("\\", "\\", '`', "\\`");
      ReplaceOne('\\', '`', "\\`");
    } else if c == '|' {
      assert "\\|" == "\\" + "|";
      ReplaceCharConcat("\\", "|", '`', "\\`");
      ReplaceOne('\\', '`', "\\`");
    }
  }

  /** The three sequential replaces escape each character on its own. */
  lemma {:induction false} EscapeIsPerCharacter(v: string)
    ensures MarkdownEscape(v) == EscapeEach(v)
  {
    if v == "" {
    } else {
      hide Replace;
      var (h, t) := ([v[0]], v[1..]);
      assert v == h + t;
      ReplaceCharConcat(h, t, '\\', "\\\\");
      var (h1, t1) := (Replace(h, "\\", "\\\\"), Replace(t, "\\", "\\\\"));
      ReplaceCharConcat(h1, t1, '|', "\\|");
      ReplaceCharConcat(Replace(h1, "|", "\\|"), Replace(t1, "|", "\\|"), '`', "\\`");
      EscapeOfChar(v[0]);
      EscapeIsPerCharacter(t);
    }
  }

  // --- Unescaping ------------------------------------------------------------------------------------

  /** What is left after the bars are unescaped, and after the backticks are too. */
  function BarsDone(v: string): string {
    if v == "" then "" else (if v[0] == '|' then "|" else EscapeChar(v[0])) + BarsDone(v[1..])
  }

  function TicksDone(v: string): string {
    if v == "" then "" else (if v[0] == '\\' then "\\\\" else [v[0]]) + TicksDone(v[1..])
  }

  lemma TwoCharPrefix(s: string, a: char, b: char)
    ensures [a, b] <= s <==> |s| >= 2 && s[0] == a && s[1] == b
  {
  }

  lemma ReplacePair(a: char, b: char, rest: string, new_: string)
    ensures Replace([a, b] + rest, [a, b], new_) == new_ + Replace(rest, [a, b], new_)
  {
    var s := [a, b] + rest;
    TwoCharPrefix(s, a, b);
    assert s[2..] == rest;
  }

  lemma ReplaceSkip(c: char, rest: string, a: char, b: char, new_: string)
    requires c != a || rest == "" || rest[0] != b
    ensures Replace([c] + rest, [a, b], new_) == [c] + Replace(rest, [a, b], new_)
  {
    var s := [c] + rest;
    TwoCharPrefix(s, a, b);
    assert s[1..] == rest;
  }

  lemma {:induction false} FirstPass(v: string)
    ensures Replace(EscapeEach(v), "\\|", "|") == BarsDone(v)
  {
    hide Replace;
    if v == "" {
      ReplaceEmpty("\\|", "|");
    } else {
      var rest := EscapeEach(v[1..]);
      FirstPass(v[1..]);
      match v[0]
      case '|' => ReplacePair('\\', '|', rest, "|");
      case '\\' =>
        ReplaceSkip('\\', rest, '\\', '|', "|");
        ReplaceSkip('\\', "\\" + rest, '\\', '|', "|");
        assert "\\\\" + rest == "\\" + ("\\" + rest);
      case '`' =>
        ReplaceSkip('`', rest, '\\', '|', "|");
        ReplaceSkip('\\', "`" + rest, '\\', '|', "|");
        assert "\\`" + rest == "\\" + ("`" + rest);
      case c => ReplaceSkip(c, rest, '\\', '|', "|");
    }
  }

  lemma ReplaceEmpty(pat: string, new_: string)
    requires pat != ""
    ensures Replace("", pat, new_) == ""
  {
  }

  lemma {:induction false} SecondPass(v: string)
    ensures Replace(BarsDone(v), "\\`", "`") == TicksDone(v)
  {
    hide Replace;
    if v == "" {
      ReplaceEmpty("\\`", "`");
    } else {
      var rest := BarsDone(v[1..]);
      SecondPass(v[1..]);
      match v[0]
      case '`' => ReplacePair('\\', '`', rest, "`");
      case '\\' =>
        ReplaceSkip('\\', rest, '\\', '`', "`");
        ReplaceSkip('\\', "\\" + rest, '\\', '`', "`");
        assert "\\\\" + rest == "\\" + ("\\" + rest);
      case c => ReplaceSkip(c, rest, '\\', '`', "`");
    }
  }

  lemma {:induction false} ThirdPass(v: string)
    ensures Replace(TicksDone(v), "\\\\", "\\") == v
  {
    hide Replace;
    if v == "" {
      ReplaceEmpty("\\\\", "\\");
    } else {
      var rest := TicksDone(v[1..]);
      ThirdPass(v[1..]);
      if v[0] == '\\' { ReplacePair('\\', '\\', rest, "\\"); } else { ReplaceSkip(v[0], rest, '\\', '\\', "\\"); }
      assert v == [v[0]] + v[1..];
    }
  }

  /** Unescaping undoes escaping, for every string, although both are global replaces in sequence. */
  lemma EscapeRoundTrip(v: string)
    ensures Unescape(MarkdownEscape(v)) == v
  {
    hide Replace, EscapeEach, BarsDone, TicksDone;
    EscapeIsPerCharacter(v);
    FirstPass(v);
    SecondPass(v);
    ThirdPass(v);
  }

  // --- Whole rows ---------------------------------------------------------------------------------------

  /** Text the splitter passes through: complete escapes and no bare bar. */
  predicate Neutral(t: string) {
    if t == "" then true
    else if t[0] == '\\' then |t| >= 2 && Neutral(t[2..])
    else t[0] != '|' && Neutral(t[1..])
  }

  lemma {:induction false} NeutralPasses(t: string, rest: string, current: string, space: char -> bool)
    requires Neutral(t)
    ensures CellsFrom(t + rest, current, false, space) == CellsFrom(rest, current + t, false, space)
    decreases t
  {
    var s := t + rest;
    if t == "" {
      assert s == rest && current + t == current;
    } else if t[0] == '\\' {
      assert s[1..][1..] == t[2..] + rest;
      assert s[1..][0] == t[1];
      NeutralPasses(t[2..], rest, current + ['\\', t[1]], space);
      assert current + ['\\', t[1]] + t[2..] == current + t;
    } else {
      assert s[1..] == t[1..] + rest;
      NeutralPasses(t[1..], rest, current + [t[0]], space);
      assert current + [t[0]] + t[1..] == current + t;
    }
  }

  /** One cell and the bar that ends it. */
  lemma CellEnds(t: string, rest: string, space: char -> bool)
    requires Neutral(t)
    ensures CellsFrom(t + "|" + rest, "", false, space) == [Strip(t, space)] + CellsFrom(rest, "", false, space)
  {
    assert t + "|" + rest == t + ("|" + rest);
    NeutralPasses(t, "|" + rest, "", space);
    assert "" + t == t;
    assert ("|" + rest)[1..] == rest;
  }

  lemma {:induction false} NeutralConcat(a: string, b: string)
    requires Neutral(a) && Neutral(b)
    ensures Neutral(a + b)
    decreases a
  {
    if a == "" {
      assert a + b == b;
    } else if a[0] == '\\' {
      assert (a + b)[2..] == a[2..] + b;
      NeutralConcat(a[2..], b);
    } else {
      assert (a + b)[1..] == a[1..] + b;
      NeutralConcat(a[1..], b);
    }
  }

  lemma {:induction false} EscapedIsNeutral(v: string)
    ensures Neutral(EscapeEach(v))
  {
    if v != "" {
      EscapedIsNeutral(v[1..]);
      var h := EscapeChar(v[0]);
      assert Neutral(h) by { assert |h| == 2 ==> h[2..] == ""; assert |h| == 1 ==> h[1..] == ""; }
      NeutralConcat(h, EscapeEach(v[1..]));
    }
  }

  /** A cell value that needs no escaping and no trimming: a line number or a category letter. */
  predicate PlainCell(v: string, space: char -> bool) {
    v != "" && Neutral(v) && !space(v[0]) && !space(v[|v| - 1])
  }

  function Quoted(v: string): string {
    "`" + MarkdownEscape(v) + "`"
  }

  /** Texts each followed by a bar. */
  function Barred(texts: seq<string>): string {
    if texts == [] then "" else texts[0] + "|" + Barred(texts[1..])
  }

  function Padded(cell: string): string {
    " " + cell + " "
  }

  /** The rendered row: an opening bar, then five cells, each padded and closed by a bar. */
  function RenderRow(line: string, kind: string, category: string, reason: string, snippet: string): string {
    Barred(["", Padded(line), Padded(Quoted(kind)), Padded(category), Padded(MarkdownEscape(reason)),
        Padded(Quoted(snippet))])
  }

  predicate PaddingTest(space: char -> bool) {
    space(' ') && !space('`')
  }

  lemma StripPadded(t: string, space: char -> bool)
    requires t != "" && space(' ') && !space(t[0]) && !space(t[|t| - 1])
    ensures Strip(Padded(t), space) == t
  {
    var s := " " + t + " ";
    assert s[1..] == t + " ";
    assert LStrip(s, space) == LStrip(t + " ", space) == t + " ";
    assert (t + " ")[..|t|] == t;
    assert RStrip(t + " ", space) == RStrip(t, space) == t;
  }

  lemma QuotedCell(v: string, space: char -> bool)
    requires PaddingTest(space)
    ensures Neutral(Padded(Quoted(v))) && Strip(Padded(Quoted(v)), space) == Quoted(v)
    ensures UnquoteCode(Quoted(v), space) == v
  {
    hide MarkdownEscape, Unescape, Neutral;
    EscapeIsPerCharacter(v);
    EscapedIsNeutral(v);
    var (e, q) := (MarkdownEscape(v), Quoted(v));
    TickIsNeutral();
    NeutralConcat("`", e);
    NeutralConcat("`" + e, "`");
    PaddedNeutral(q);
    assert q[0] == '`' && q[|q| - 1] == '`';
    StripPadded(q, space);
    assert Strip(q, space) == q;
    assert q[1..|q| - 1] == e;
    EscapeRoundTrip(v);
  }

  lemma TickIsNeutral()
    ensures Neutral("`")
  {
    assert "`"[1..] == "";
  }

  lemma PaddedNeutral(t: string)
    requires Neutral(t)
    ensures Neutral(Padded(t))
  {
    assert Neutral(" ") by { assert " "[1..] == ""; }
    NeutralConcat(" ", t);
    NeutralConcat(" " + t, " ");
  }

  /** Splitting a rendered row gives exactly five cells; the line and category come back as they
      are, and unquoting the kind and snippet cells returns the originals, whatever they contain. */
  lemma RowRoundTrip(line: string, kind: string, category: string, reason: string, snippet: string, space: char -> bool)
    requires PaddingTest(space) && PlainCell(line, space) && PlainCell(category, space)
    ensures var cells := DropEmptyEnds(CellsFrom(RenderRow(line, kind, category, reason, snippet), "", false, space));
            && |cells| == 5 && cells[0] == line && cells[2] == category
            && UnquoteCode(cells[1], space) == kind && UnquoteCode(cells[4], space) == snippet
  {
    hide MarkdownEscape, UnquoteCode, Neutral, Strip, Quoted, CellsFrom, Barred, Padded;
    var (k, r, sn) := (Quoted(kind), MarkdownEscape(reason), Quoted(snippet));
    EscapeIsPerCharacter(reason);
    EscapedIsNeutral(reason);
    QuotedCell(kind, space);
    QuotedCell(snippet, space);
    PaddedNeutral(line);
    PaddedNeutral(category);
    PaddedNeutral(r);
    StripPadded(line, space);
    StripPadded(category, space);
    EmptyText(space);
    var texts := ["", Padded(line), Padded(k), Padded(category), Padded(r), Padded(sn)];
    BarredCells(texts, space);
    var cells := CellsFrom(RenderRow(line, kind, category, reason, snippet), "", false, space);
    assert |cells| == 7 && cells[0] == "" && cells[6] == "";
    assert cells[1] == line && cells[2] == k && cells[3] == category && cells[5] == sn;
  }

  /** Splitting barred texts gives them back stripped, and an empty last cell. */
  lemma {:induction false} BarredCells(texts: seq<string>, space: char -> bool)
    requires forall t <- texts :: Neutral(t)
    ensures var cells := CellsFrom(Barred(texts), "", false, space);
            && |cells| == |texts| + 1 && cells[|texts|] == ""
            && forall i :: 0 <= i < |texts| ==> cells[i] == Strip(texts[i], space)
  {
    hide Strip, CellsFrom, Neutral;
    if texts == [] {
      NothingBarred(space);
    } else {
      var rest := texts[1..];
      BarredCells(rest, space);
      CellEnds(texts[0], Barred(rest), space);
      var cells := CellsFrom(Barred(texts), "", false, space);
      forall i | 0 < i < |texts|
        ensures cells[i] == Strip(texts[i], space)
      {
        assert texts[i] == rest[i - 1];
      }
    }
  }

  lemma NothingBarred(space: char -> bool)
    ensures CellsFrom(Barred([]), "", false, space) == [""]
  {
  }

  lemma EmptyText(space: char -> bool)
    ensures Neutral("") && Strip("", space) == ""
  {
  }
}
