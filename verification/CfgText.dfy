/** From attribute text to the cfg judgement (`_is_test_only_attribute`): whitespace removed, tokens
    found left to right, the expression judged. The Unicode whitespace test is a parameter. */
module CfgText {
  import opened CfgAbstraction
  import opened CfgKeys

  predicate IdentStart(c: char) {
    'a' <= c <= 'z' || 'A' <= c <= 'Z' || c == '_'
  }

  predicate IdentChar(c: char) {
    IdentStart(c) || '0' <= c <= '9'
  }

  /** Identifier characters, by code: ASCII letters and underscore, then digits too. */
  lemma IdentCharIff(c: char)
    ensures IdentStart(c) <==> 65 <= c as int <= 90 || 97 <= c as int <= 122 || c as int == 95
    ensures IdentChar(c) <==> IdentStart(c) || 48 <= c as int <= 57
  {
  }

  /** The length of the run of identifier characters at the front. */
  function RunLength(s: string): (n: nat)
    ensures n <= |s| && (s != "" && IdentChar(s[0]) ==> n > 0)
  {
    if s == "" || !IdentChar(s[0]) then 0 else 1 + RunLength(s[1..])
  }

  function Punctuation(c: char): Tokens {
    match c
    case '(' => [LParen]
    case ')' => [RParen]
    case ',' => [Comma]
    case '=' => [Equals]
    case '!' => [Bang]
    case _ => []
  }

  /** The tokens, with every other character skipped. */
  function Tokenize(s: string): Tokens
    decreases |s|
  {
    if s == "" then []
    else if IdentStart(s[0]) then [Ident(s[..RunLength(s)])] + Tokenize(s[RunLength(s)..])
    else Punctuation(s[0]) + Tokenize(s[1..])
  }

  function Compact(s: string, space: char -> bool): string {
    if s == "" then "" else (if space(s[0]) then "" else [s[0]]) + Compact(s[1..], space)
  }

  predicate EndsWith(s: string, t: string) {
    |t| <= |s| && s[|s| - |t|..] == t
  }

  predicate IsTestOnlyAttribute(attribute: string, space: char -> bool) {
    var compact := Compact(attribute, space);
    if compact == "test" || compact == "doctest" || EndsWith(compact, "::test") then true
    else if !("cfg(" <= compact) || !EndsWith(compact, ")") then false
    else |compact| >= 5 && JudgedTestOnly(Tokenize(compact[4..|compact| - 1]))
  }

  // --- The text of an expression -------------------------------------------------------------------

  function Text(e: Cfg): string {
    match e
    case Flag(n) => n
    case KeyValue(k, _) => k + "="
    case All(es, t) => "all(" + TextList(es, t) + ")"
    case Any(es, t) => "any(" + TextList(es, t) + ")"
    case Not(o) => "not(" + Text(o) + ")"
  }

  function TextList(es: seq<Cfg>, trailing: bool): string {
    if es == [] then ""
    else if |es| == 1 then Text(es[0]) + if trailing then "," else ""
    else Text(es[0]) + "," + TextList(es[1..], trailing)
  }

  predicate IsName(n: string) {
    n != "" && IdentStart(n[0]) && forall c <- n :: IdentChar(c)
  }

  predicate ValidNames(e: Cfg) {
    match e
    case Flag(n) => IsName(n)
    case KeyValue(k, _) => IsName(k)
    case All(es, _) => AllValidNames(es)
    case Any(es, _) => AllValidNames(es)
    case Not(o) => ValidNames(o)
  }

  predicate AllValidNames(es: seq<Cfg>) {
    es == [] || (ValidNames(es[0]) && AllValidNames(es[1..]))
  }

  /** What may follow a name. */
  predicate Breaks(rest: string) {
    rest == "" || !IdentChar(rest[0])
  }

  lemma {:induction false} RunOfName(n: string, rest: string)
    requires (forall c <- n :: IdentChar(c)) && Breaks(rest)
    ensures RunLength(n + rest) == |n|
  {
    if n == "" {
      assert n + rest == rest;
    } else {
      assert (n + rest)[1..] == n[1..] + rest;
      RunOfName(n[1..], rest);
    }
  }

  lemma TokenizeName(n: string, rest: string)
    requires IsName(n) && Breaks(rest)
    ensures Tokenize(n + rest) == [Ident(n)] + Tokenize(rest)
  {
    RunOfName(n, rest);
    var s := n + rest;
    assert s[..|n|] == n && s[|n|..] == rest;
  }

  lemma TokenizeMark(c: char, rest: string)
    requires c in "(),=!"
    ensures Tokenize([c] + rest) == Punctuation(c) + Tokenize(rest)
  {
    assert ([c] + rest)[1..] == rest;
  }

  /** Any other character is passed over. */
  lemma TokenizeOther(c: char, rest: string)
    requires !IdentStart(c) && c !in "(),=!"
    ensures Tokenize([c] + rest) == Tokenize(rest)
  {
    assert ([c] + rest)[1..] == rest;
  }

  /** An operator, its parenthesised operands and what follows. */
  lemma TokenizeGroup(name: string, open: string, inner: string, ts: Tokens, rest: string)
    requires IsName(name) && open == name + "(" && Tokenize(inner + (")" + rest)) == ts + Tokenize(")" + rest)
    ensures Tokenize(open + inner + ")" + rest) == [Ident(name), LParen] + ts + [RParen] + Tokenize(rest)
  {
    hide Tokenize, IsName;
    var tail := inner + (")" + rest);
    JoinGroup(name, inner, rest);
    TokenizeName(name, "(" + tail);
    TokenizeMark('(', tail);
    TokenizeMark(')', rest);
    JoinTokens([Ident(name)], [LParen], ts, [RParen], Tokenize(rest));
    assert [Ident(name)] + [LParen] == [Ident(name), LParen];
  }

  lemma TokenizeKey(key: string, rest: string)
    requires IsName(key)
    ensures Tokenize(key + "=" + rest) == [Ident(key), Equals] + Tokenize(rest)
  {
    hide Tokenize, IsName;
    assert key + "=" + rest == key + ("=" + rest);
    TokenizeName(key, "=" + rest);
    TokenizeMark('=', rest);
  }

  lemma JoinGroup(name: string, inner: string, rest: string)
    ensures name + "(" + inner + ")" + rest == name + ("(" + (inner + (")" + rest)))
  {
  }

  lemma JoinTokens(a: Tokens, b: Tokens, c: Tokens, d: Tokens, e: Tokens)
    ensures a + (b + (c + (d + e))) == a + b + c + d + e
  {
  }

  lemma OperatorNames()
    ensures IsName("all") && IsName("any") && IsName("not")
  {
  }

  /** Tokenizing the text of an expression gives the expression's tokens. */
  lemma {:induction false} TokenizeText(e: Cfg, rest: string)
    requires ValidNames(e) && Breaks(rest)
    ensures Tokenize(Text(e) + rest) == Print(e) + Tokenize(rest)
    decreases e, 0
  {
    hide Tokenize, IsName, TextList, PrintList, AllValidNames;
    OperatorNames();
    match e {
      case Flag(n) => TokenizeName(n, rest);
      case KeyValue(k, _) =>
        TokenizeKey(k, rest);
      case All(es, t) =>
        TokenizeTextList(es, t, ")" + rest);
        TokenizeGroup("all", "all(", TextList(es, t), PrintList(es, t), rest);
      case Any(es, t) =>
        TokenizeTextList(es, t, ")" + rest);
        TokenizeGroup("any", "any(", TextList(es, t), PrintList(es, t), rest);
      case Not(o) =>
        TokenizeText(o, ")" + rest);
        TokenizeGroup("not", "not(", Text(o), Print(o), rest);
    }
  }

  lemma {:induction false} TokenizeTextList(es: seq<Cfg>, trailing: bool, rest: string)
    requires AllValidNames(es) && Breaks(rest)
    ensures Tokenize(TextList(es, trailing) + rest) == PrintList(es, trailing) + Tokenize(rest)
    decreases es
  {
    hide Tokenize, Text, Print, ValidNames;
    if es == [] {
      assert "" + rest == rest;
    } else if |es| == 1 && !trailing {
      TokenizeText(es[0], rest);
      assert Text(es[0]) + "" == Text(es[0]) && Print(es[0]) + [] == Print(es[0]);
    } else if |es| == 1 {
      assert "" + rest == rest && [] + Tokenize(rest) == Tokenize(rest);
      TokenizeOperand(es[0], "", [], rest);
      assert Text(es[0]) + "," + "" == Text(es[0]) + "," && Print(es[0]) + [Comma] + [] == Print(es[0]) + [Comma];
    } else {
      TokenizeTextList(es[1..], trailing, rest);
      hide TextList, PrintList, AllValidNames;
      ListHeads(es, trailing);
      TokenizeOperand(es[0], TextList(es[1..], trailing), PrintList(es[1..], trailing), rest);
    }
  }

  lemma ListHeads(es: seq<Cfg>, trailing: bool)
    requires |es| > 1 && AllValidNames(es)
    ensures TextList(es, trailing) == Text(es[0]) + "," + TextList(es[1..], trailing)
    ensures PrintList(es, trailing) == Print(es[0]) + [Comma] + PrintList(es[1..], trailing)
    ensures ValidNames(es[0])
  {
  }

  lemma {:induction false} TokenizeOperand(e: Cfg, tail: string, tokens: Tokens, rest: string)
    requires ValidNames(e) && Tokenize(tail + rest) == tokens + Tokenize(rest)
    ensures Tokenize(Text(e) + "," + tail + rest) == Print(e) + [Comma] + tokens + Tokenize(rest)
    decreases e, 1
  {
    hide Tokenize, Text, Print, ValidNames;
    TokenizeText(e, "," + (tail + rest));
    TokenizeMark(',', tail + rest);
    JoinOperand(Text(e), tail, rest);
    assert Print(e) + ([Comma] + (tokens + Tokenize(rest))) == Print(e) + [Comma] + tokens + Tokenize(rest);
  }

  lemma JoinOperand(a: string, tail: string, rest: string)
    ensures a + "," + tail + rest == a + ("," + (tail + rest))
  {
  }

  // --- Attributes ----------------------------------------------------------------------------------------

  /** The text with whitespace put in anywhere. */
  ghost predicate Spread(s: string, text: string, space: char -> bool)
    decreases s
  {
    if s == "" then text == ""
    else if space(s[0]) then Spread(s[1..], text, space)
    else text != "" && s[0] == text[0] && Spread(s[1..], text[1..], space)
  }

  /** Removing whitespace undoes putting it in, and nothing else is changed. */
  lemma {:induction false} CompactIff(s: string, text: string, space: char -> bool)
    ensures Compact(s, space) == text <==> Spread(s, text, space)
    decreases s
  {
    if s == "" {
    } else if space(s[0]) {
      CompactIff(s[1..], text, space);
    } else {
      if text != "" {
        CompactIff(s[1..], text[1..], space);
        assert text == [text[0]] + text[1..];
      }
      assert ([s[0]] + Compact(s[1..], space))[1..] == Compact(s[1..], space);
    }
  }

  /** The forms of attribute that are removed: `test`, `doctest`, a path that ends in `::test`, and a cfg
      whose tokens are judged test-only. */
  ghost predicate TestForm(text: string) {
    || text == "test" || text == "doctest"
    || (exists path: string :: text == path + "::test")
    || (exists inner: string :: text == "cfg(" + inner + ")" && JudgedTestOnly(Tokenize(inner)))
  }

  /** An attribute is removed if and only if, whitespace aside, it has one of these forms. */
  lemma RemovedIffTestForm(attribute: string, text: string, space: char -> bool)
    requires Spread(attribute, text, space)
    ensures IsTestOnlyAttribute(attribute, space) <==> TestForm(text)
  {
    hide Compact, JudgedTestOnly, Tokenize, Spread, EndsWith;
    CompactIff(attribute, text, space);
    PathForm(text);
    if "cfg(" <= text && EndsWith(text, ")") { CfgSplit(text); }
    if inner: string :| text == "cfg(" + inner + ")" && JudgedTestOnly(Tokenize(inner)) { CfgJoin(inner); }
  }

  lemma PathForm(text: string)
    ensures EndsWith(text, "::test") <==> exists path: string :: text == path + "::test"
  {
    if EndsWith(text, "::test") { assert text == text[..|text| - 6] + "::test"; }
    if path: string :| text == path + "::test" { assert text[|text| - 6..] == "::test"; }
  }

  lemma CfgSplit(text: string)
    requires "cfg(" <= text && EndsWith(text, ")")
    ensures |text| >= 5 && text == "cfg(" + text[4..|text| - 1] + ")"
  {
    assert text[3] == "cfg("[3] && text[|text| - 1] == text[|text| - 1..][0];
  }

  lemma CfgJoin(inner: string)
    ensures var text := "cfg(" + inner + ")";
            "cfg(" <= text && EndsWith(text, ")") && |text| >= 5 && text[4..|text| - 1] == inner
  {
  }

  /** What is neither of the names, no such path and no cfg at all is never removed. */
  lemma OtherAttributesAreKept(attribute: string, text: string, space: char -> bool)
    requires Spread(attribute, text, space) && text != "test" && text != "doctest"
    requires !EndsWith(text, "::test") && !("cfg(" <= text && EndsWith(text, ")"))
    ensures !IsTestOnlyAttribute(attribute, space)
  {
    hide Compact, JudgedTestOnly, Tokenize, Spread;
    CompactIff(attribute, text, space);
  }

  /** The two names and every path to `test` are always removed. */
  lemma TestNamesAreRemoved(attribute: string, text: string, path: string, space: char -> bool)
    requires Spread(attribute, text, space) && (text == "test" || text == "doctest" || text == path + "::test")
    ensures IsTestOnlyAttribute(attribute, space)
  {
    hide JudgedTestOnly, Tokenize, Compact, Spread;
    RemovedIffTestForm(attribute, text, space);
  }

  /** The attribute text of an expression, with whitespace anywhere. */
  ghost predicate IsCfgAttribute(attribute: string, e: Cfg, space: char -> bool) {
    ValidNames(e) && Compact(attribute, space) == "cfg(" + Text(e) + ")"
  }

  /** Whatever stands between the parentheses of a cfg is judged by its tokens. */
  lemma CfgTextJudgement(attribute: string, text: string, space: char -> bool)
    requires Compact(attribute, space) == "cfg(" + text + ")"
    ensures IsTestOnlyAttribute(attribute, space) <==> JudgedTestOnly(Tokenize(text))
  {
    var compact := Compact(attribute, space);
    hide Compact, JudgedTestOnly;
    assert compact[..4] == "cfg(" && compact[4..|compact| - 1] == text && compact[|compact| - 1..] == ")";
    assert compact[|compact| - 1] == ')';
    assert !EndsWith(compact, "::test") by { if |compact| >= 6 { assert compact[|compact| - 6..][5] == ')'; } }
    assert compact != "test" && compact != "doctest";
  }

  /** On the attribute of any expression, the text is judged as the expression's tokens are. */
  lemma AttributeJudgement(attribute: string, e: Cfg, space: char -> bool)
    requires IsCfgAttribute(attribute, e, space)
    ensures IsTestOnlyAttribute(attribute, space) <==> JudgedTestOnly(Print(e))
  {
    hide Compact, JudgedTestOnly, Text, IsTestOnlyAttribute;
    CfgTextJudgement(attribute, Text(e), space);
    TokenizeText(e, "");
    assert Text(e) + "" == Text(e) && Tokenize("") == [] && Print(e) + [] == Print(e);
  }

  /** No attribute the scanner removes guards an item some non-test build enables, as long as no key has
      a test name, and no operand follows a key-value atom or no constant occurs. */
  lemma RemovedAttributeIsNeverEnabled(attribute: string, e: Cfg, space: char -> bool, on: set<Atom>)
    requires IsCfgAttribute(attribute, e, space) && IsTestOnlyAttribute(attribute, space)
    requires JudgedRightly(e)
    ensures !Holds(e, on)
  {
    hide IsTestOnlyAttribute, IsCfgAttribute, JudgedRightly;
    AttributeJudgement(attribute, e, space);
    TestOnlyIsNeverEnabled(e, on);
  }

  /** And where no atom is repeated, the scanner removes exactly those attributes. */
  lemma RemovedIffNeverEnabled(attribute: string, e: Cfg, space: char -> bool)
    requires IsCfgAttribute(attribute, e, space) && JudgedRightly(e) && Linear(e)
    ensures IsTestOnlyAttribute(attribute, space) <==> forall on: set<Atom> :: !Holds(e, on)
  {
    hide IsTestOnlyAttribute, IsCfgAttribute, JudgedRightly;
    AttributeJudgement(attribute, e, space);
    LinearJudgementIsExact(e);
  }

  /** Whatever text stands between the parentheses, well formed or not: without a test name and without
      an empty group among its tokens it is never removed. */
  lemma NoConstantTextIsKept(attribute: string, text: string, space: char -> bool)
    requires Compact(attribute, space) == "cfg(" + text + ")" && NoConstantTokens(Tokenize(text))
    ensures !IsTestOnlyAttribute(attribute, space)
  {
    hide Compact, JudgedTestOnly, NoConstantTokens, Tokenize;
    CfgTextJudgement(attribute, text, space);
    NoConstantIsKept(Tokenize(text));
  }
}
