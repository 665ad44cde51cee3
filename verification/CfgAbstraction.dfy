/** The cfg-expression abstract interpreter of the Rust source scanner (`_CfgParser`): which truth
    values an attribute can take in a non-test build. */
module CfgAbstraction {
  import opened Wrappers

  datatype Token = Ident(name: string) | LParen | RParen | Comma | Equals | Bang

  type Tokens = seq<Token>

  predicate At(ts: Tokens, c: nat, t: Token) {
    c < |ts| && ts[c] == t
  }

  const ANY_VALUE: set<bool> := {false, true}

  function AndSets(a: set<bool>, b: set<bool>): set<bool> {
    set x, y | x in a && y in b :: x && y
  }

  function OrSets(a: set<bool>, b: set<bool>): set<bool> {
    set x, y | x in a && y in b :: x || y
  }

  function NotSet(a: set<bool>): set<bool> {
    set x | x in a :: !x
  }

  function FoldAnd(values: set<bool>, children: seq<set<bool>>): set<bool>
    decreases children
  {
    if children == [] then values else FoldAnd(AndSets(values, children[0]), children[1..])
  }

  function FoldOr(values: set<bool>, children: seq<set<bool>>): set<bool>
    decreases children
  {
    if children == [] then values else FoldOr(OrSets(values, children[0]), children[1..])
  }

  /** What a parenthesised operator makes of its operands' value sets. */
  function Combine(name: string, children: seq<set<bool>>): set<bool> {
    if name == "all" then FoldAnd({true}, children)
    else if name == "any" then FoldOr({false}, children)
    else if name == "not" && |children| == 1 then NotSet(children[0])
    else ANY_VALUE
  }

  /** An unknown operator, or `not` around other than one operand, can take both values whatever its
      operands are. */
  lemma UnknownOperator(name: string, children: seq<set<bool>>)
    requires name != "all" && name != "any" && (name == "not" ==> |children| != 1)
    ensures Combine(name, children) == {false, true}
  {
  }

  function AtomValues(name: string): set<bool> {
    if name == "test" || name == "doctest" then {false} else ANY_VALUE
  }

  datatype Parsed = Parsed(values: Option<set<bool>>, cursor: nat)

  /** One expression from cursor `c`. The cursor stays in range on every token list and moves
      forward whenever there is a token to read. */
  function ParseExpr(ts: Tokens, c: nat): (r: Parsed)
    requires c <= |ts|
    ensures c <= r.cursor <= |ts| && (c < |ts| ==> c < r.cursor)
    decreases |ts| - c, 1
  {
    if c >= |ts| then Parsed(None, c)
    else if !ts[c].Ident? then Parsed(None, c + 1)
    else if At(ts, c + 1, LParen) then
      var kids := ParseChildren(ts, c + 2);
      Parsed(Some(Combine(ts[c].name, kids.0)), if At(ts, kids.1, RParen) then kids.1 + 1 else kids.1)
    else if At(ts, c + 1, Equals) then
      Parsed(Some(AtomValues(ts[c].name)), if c + 2 < |ts| then c + 3 else c + 2)
    else Parsed(Some(AtomValues(ts[c].name)), c + 1)
  }

  function ParseChildren(ts: Tokens, c: nat): (r: (seq<set<bool>>, nat))
    requires c <= |ts|
    ensures c <= r.1 <= |ts|
    decreases |ts| - c, 2
  {
    if c >= |ts| || ts[c] == RParen then ([], c)
    else
      var child := ParseExpr(ts, c);
      var rest := ParseChildren(ts, if child.cursor < |ts| &&
          ts[child.cursor] != RParen then child.cursor + 1 else child.cursor);
      ([if child.values.Some? then child.values.value else ANY_VALUE] + rest.0, rest.1)
  }

  function ParseCfg(ts: Tokens): set<bool> {
    var r := ParseExpr(ts, 0);
    if r.values.Some? then r.values.value else ANY_VALUE
  }

  /** The parser object: a token list and a cursor that its methods advance. */
  class CfgParser {
    const tokens: Tokens
    var cursor: nat

    constructor (ts: Tokens)
      ensures tokens == ts && cursor == 0
    {
      tokens := ts;
      cursor := 0;
    }

    method Parse() returns (values: set<bool>)
      requires cursor == 0
      modifies this`cursor
      ensures values == ParseCfg(tokens) && cursor <= |tokens|
    {
      var v := Expr();
      return if v.Some? then v.value else ANY_VALUE;
    }

    method Expr() returns (values: Option<set<bool>>)
      requires cursor <= |tokens|
      modifies this`cursor
      ensures old(cursor) <= cursor <= |tokens| && (old(cursor) < |tokens| ==> old(cursor) < cursor)
      ensures Parsed(values, cursor) == ParseExpr(tokens, old(cursor))
      decreases |tokens| - cursor, 1
    {
      hide Combine, AtomValues, ParseChildren;
      if cursor >= |tokens| { return None; }
      var token := tokens[cursor];
      cursor := cursor + 1;
      if !token.Ident? { return None; }
      if At(tokens, cursor, LParen) {
        cursor := cursor + 1;
        var children := Operands();
        if At(tokens, cursor, RParen) { cursor := cursor + 1; }
        return Some(Combine(token.name, children));
      }
      if At(tokens, cursor, Equals) {
        cursor := cursor + 1;
        if cursor < |tokens| { cursor := cursor + 1; }
      }
      return Some(AtomValues(token.name));
    }

    /** The operand loop of `_expr`. */
    method Operands() returns (children: seq<set<bool>>)
      requires cursor <= |tokens|
      modifies this`cursor
      ensures old(cursor) <= cursor <= |tokens|
      ensures (children, cursor) == ParseChildren(tokens, old(cursor))
      decreases |tokens| - cursor, 2
    {
      hide ParseExpr, ParseChildren;
      children := [];
      ghost var all := ParseChildren(tokens, cursor);
      assert all.0 == [] + all.0;
      while cursor < |tokens| && tokens[cursor] != RParen
        invariant old(cursor) <= cursor <= |tokens|
        invariant all.0 == children + ParseChildren(tokens, cursor).0 && all.1 == ParseChildren(tokens, cursor).1
        decreases |tokens| - cursor
      {
        ghost var before, kids := cursor, children;
        OperandStep(tokens, cursor);
        var child := Expr();
        var v := if child.Some? then child.value else ANY_VALUE;
        children := children + [v];
        if At(tokens, cursor, Comma) {
          cursor := cursor + 1;
        } else if cursor < |tokens| && tokens[cursor] != RParen {
          cursor := cursor + 1;
        }
        assert kids + ([v] + ParseChildren(tokens, cursor).0) == children + ParseChildren(tokens, cursor).0;
      }
      NoMoreOperands(tokens, cursor);
      assert all.0 == children + [] == children;
    }
  }

  lemma NoMoreOperands(ts: Tokens, c: nat)
    requires c <= |ts| && (c < |ts| ==> ts[c] == RParen)
    ensures ParseChildren(ts, c) == ([], c)
  {
  }

  /** The cursor after an operand: one separator is skipped, whatever it is, unless it closes. */
  function AfterOperand(ts: Tokens, c: nat): (r: nat)
    requires c <= |ts|
    ensures r <= |ts|
  {
    if c < |ts| && ts[c] != RParen then c + 1 else c
  }

  lemma OperandStep(ts: Tokens, c: nat)
    requires c < |ts| && ts[c] != RParen
    ensures var child := ParseExpr(ts, c);
            var rest := ParseChildren(ts, AfterOperand(ts, child.cursor));
            ParseChildren(ts, c) == ([if child.values.Some? then child.values.value else ANY_VALUE] + rest.0, rest.1)
  {
  }

  lemma GroupStep(ts: Tokens, c: nat, name: string)
    requires c + 2 <= |ts| && ts[c] == Ident(name) && ts[c + 1] == LParen
    ensures var kids := ParseChildren(ts, c + 2);
            ParseExpr(ts, c) == Parsed(Some(Combine(name, kids.0)), if At(ts, kids.1, RParen) then kids.1 + 1
                else kids.1)
  {
    hide Combine, ParseChildren;
  }

  lemma FlagStep(ts: Tokens, c: nat, name: string)
    requires c < |ts| && ts[c] == Ident(name) && (c + 1 < |ts| ==> ts[c + 1] != LParen && ts[c + 1] != Equals)
    ensures ParseExpr(ts, c) == Parsed(Some(AtomValues(name)), c + 1)
  {
    hide Combine, ParseChildren;
  }

  // --- cfg expressions and their truth ---------------------------------------------------------

  /** What a build may set. */
  datatype Atom = FlagAtom(name: string) | KeyAtom(key: string, value: string)

  /** Expressions over flags and key-value atoms. An operand list may end in a comma. */
  datatype Cfg =
    | Flag(name: string)
    | KeyValue(key: string, value: string)
    | All(operands: seq<Cfg>, trailing: bool)
    | Any(operands: seq<Cfg>, trailing: bool)
    | Not(operand: Cfg)

  predicate IsTestName(name: string) {
    name == "test" || name == "doctest"
  }

  /** Truth in a non-test build that sets exactly the atoms in `on`; the flags `test` and `doctest` are
      off. */
  predicate Holds(e: Cfg, on: set<Atom>) {
    match e
    case Flag(n) => FlagAtom(n) in on && !IsTestName(n)
    case KeyValue(k, v) => KeyAtom(k, v) in on
    case All(es, _) => HoldsAll(es, on)
    case Any(es, _) => HoldsAny(es, on)
    case Not(o) => !Holds(o, on)
  }

  predicate HoldsAll(es: seq<Cfg>, on: set<Atom>) {
    es == [] || (Holds(es[0], on) && HoldsAll(es[1..], on))
  }

  predicate HoldsAny(es: seq<Cfg>, on: set<Atom>) {
    es != [] && (Holds(es[0], on) || HoldsAny(es[1..], on))
  }

  /** The tokens of an expression in masked source: the literal of a key-value atom is blanked away. */
  function Print(e: Cfg): (ts: Tokens)
    ensures |ts| > 0 && ts[0].Ident?
  {
    match e
    case Flag(n) => [Ident(n)]
    case KeyValue(k, _) => [Ident(k), Equals]
    case All(es, t) => [Ident("all"), LParen] + PrintList(es, t) + [RParen]
    case Any(es, t) => [Ident("any"), LParen] + PrintList(es, t) + [RParen]
    case Not(o) => [Ident("not"), LParen] + Print(o) + [RParen]
  }

  function PrintList(es: seq<Cfg>, trailing: bool): Tokens {
    if es == [] then []
    else if |es| == 1 then Print(es[0]) + if trailing then [Comma] else []
    else Print(es[0]) + [Comma] + PrintList(es[1..], trailing)
  }

  predicate PlainFlags(e: Cfg) {
    match e
    case Flag(_) => true
    case KeyValue(_, _) => false
    case All(es, _) => AllPlain(es)
    case Any(es, _) => AllPlain(es)
    case Not(o) => PlainFlags(o)
  }

  predicate AllPlain(es: seq<Cfg>) {
    es == [] || (PlainFlags(es[0]) && AllPlain(es[1..]))
  }

  /** The value set of an expression, by its structure. */
  function Values(e: Cfg): set<bool> {
    match e
    case Flag(n) => AtomValues(n)
    case KeyValue(_, _) => ANY_VALUE
    case All(es, _) => FoldAnd({true}, ValuesOf(es))
    case Any(es, _) => FoldOr({false}, ValuesOf(es))
    case Not(o) => NotSet(Values(o))
  }

  function ValuesOf(es: seq<Cfg>): (r: seq<set<bool>>)
    ensures |r| == |es|
  {
    if es == [] then [] else [Values(es[0])] + ValuesOf(es[1..])
  }

  // --- The parser reads printed expressions back --------------------------------------------------

  /** What may follow an expression: nothing, a comma, or a closing parenthesis. */
  predicate Follows(ts: Tokens) {
    ts == [] || ts[0] == Comma || ts[0] == RParen
  }

  lemma TailIndex(ts: Tokens, c: nat, k: nat)
    requires c + k < |ts|
    ensures ts[c..][k] == ts[c + k]
  {
  }

  lemma {:induction false} ParsePrinted(ts: Tokens, c: nat, e: Cfg, post: Tokens)
    requires c <= |ts| && ts[c..] == Print(e) + post && Follows(post) && PlainFlags(e)
    ensures ParseExpr(ts, c) == Parsed(Some(Values(e)), c + |Print(e)|)
    decreases e, 1
  {
    hide ParseExpr, ParseChildren, PlainFlags, Print, PrintList, Values, Combine;
    PrintShape(e);
    ValuesShape(e);
    NotPlain(e);
    match e {
      case Flag(n) =>
        FlagFollowed(ts, c, n, post);
        FlagStep(ts, c, n);
      case Not(o) =>
        GroupText(ts, c, "not", Print(o), post);
        ParsePrinted(ts, c + 2, o, [RParen] + post);
        OnlyOperand(ts, c + 2, Values(o), c + 2 + |Print(o)|);
        GroupParsed(ts, c, "not", Print(o), post, [Values(o)]);
      case All(es, tr) =>
        GroupText(ts, c, "all", PrintList(es, tr), post);
        ParsePrintedList(ts, c + 2, es, tr, post);
        GroupParsed(ts, c, "all", PrintList(es, tr), post, ValuesOf(es));
      case Any(es, tr) =>
        GroupText(ts, c, "any", PrintList(es, tr), post);
        ParsePrintedList(ts, c + 2, es, tr, post);
        GroupParsed(ts, c, "any", PrintList(es, tr), post, ValuesOf(es));
    }
  }

  lemma OnlyOperand(ts: Tokens, c: nat, v: set<bool>, p: nat)
    requires c < |ts| && ts[c] != RParen && ParseExpr(ts, c) == Parsed(Some(v), p) && At(ts, p, RParen)
    ensures ParseChildren(ts, c) == ([v], p)
  {
    hide ParseExpr, ParseChildren;
    OperandStep(ts, c);
    NoMoreOperands(ts, p);
    assert [v] + [] == [v];
  }

  lemma GroupParsed(ts: Tokens, c: nat, name: string, inner: Tokens, post: Tokens, kids: seq<set<bool>>)
    requires c <= |ts| && ts[c..] == [Ident(name), LParen] + inner + [RParen] + post && c + 2 <= |ts|
    requires ParseChildren(ts, c + 2) == (kids, c + 2 + |inner|)
    ensures ParseExpr(ts, c) == Parsed(Some(Combine(name, kids)), c + |inner| + 3)
  {
    hide ParseExpr, ParseChildren, Combine;
    GroupText(ts, c, name, inner, post);
    GroupStep(ts, c, name);
  }

  lemma PrintShape(e: Cfg)
    ensures match e
            case Flag(n) => Print(e) == [Ident(n)]
            case KeyValue(k, _) => Print(e) == [Ident(k), Equals]
            case All(es, t) => Print(e) == [Ident("all"), LParen] + PrintList(es, t) + [RParen]
            case Any(es, t) => Print(e) == [Ident("any"), LParen] + PrintList(es, t) + [RParen]
            case Not(o) => Print(e) == [Ident("not"), LParen] + Print(o) + [RParen]
  {
  }

  lemma ValuesShape(e: Cfg)
    ensures match e
            case Flag(n) => Values(e) == AtomValues(n)
            case KeyValue(_, _) => Values(e) == ANY_VALUE
            case All(es, _) => Values(e) == Combine("all", ValuesOf(es))
            case Any(es, _) => Values(e) == Combine("any", ValuesOf(es))
            case Not(o) => Values(e) == Combine("not", [Values(o)])
  {
  }

  lemma FlagFollowed(ts: Tokens, c: nat, n: string, post: Tokens)
    requires c <= |ts| && ts[c..] == [Ident(n)] + post && Follows(post)
    ensures c < |ts| && ts[c] == Ident(n) && (c + 1 < |ts| ==> ts[c + 1] != LParen && ts[c + 1] != Equals)
  {
    TailIndex(ts, c, 0);
    if c + 1 < |ts| {
      TailIndex(ts, c, 1);
      assert ts[c..][1] == post[0];
    }
  }

  /** A parenthesised group at the cursor: where it opens, what it holds, where it closes. */
  lemma GroupText(ts: Tokens, c: nat, name: string, inner: Tokens, post: Tokens)
    requires c <= |ts| && ts[c..] == [Ident(name), LParen] + inner + [RParen] + post
    ensures c + 2 <= |ts| && ts[c] == Ident(name) && ts[c + 1] == LParen && ts[c + 2..] == inner + ([RParen] + post)
    ensures c + 2 + |inner| < |ts| && ts[c + 2 + |inner|] == RParen
  {
    assert ts[c..] == [Ident(name), LParen] + (inner + ([RParen] + post));
    OpenGroup(ts, c, name, inner + ([RParen] + post));
    CloseGroup(ts, c + 2, inner, post);
  }

  lemma NotPlain(e: Cfg)
    ensures e.KeyValue? ==> !PlainFlags(e)
    ensures e.Not? && PlainFlags(e) ==> PlainFlags(e.operand)
    ensures (e.All? || e.Any?) && PlainFlags(e) ==> AllPlain(e.operands)
  {
  }

  lemma OpenGroup(ts: Tokens, c: nat, name: string, rest: Tokens)
    requires c <= |ts| && ts[c..] == [Ident(name), LParen] + rest
    ensures c + 2 <= |ts| && ts[c] == Ident(name) && ts[c + 1] == LParen && ts[c + 2..] == rest
  {
    var t := ts[c..];
    TailIndex(ts, c, 0);
    TailIndex(ts, c, 1);
    assert ts[c + 2..] == t[2..];
  }

  lemma CloseGroup(ts: Tokens, c: nat, inner: Tokens, post: Tokens)
    requires c <= |ts| && ts[c..] == inner + ([RParen] + post)
    ensures c + |inner| < |ts| && ts[c + |inner|] == RParen
  {
    TailIndex(ts, c, |inner|);
  }

  function Separator(es: seq<Cfg>, trailing: bool): Tokens {
    if |es| == 1 && !trailing then [] else [Comma]
  }

  lemma {:induction false} ParsePrintedList(ts: Tokens, c: nat, es: seq<Cfg>, trailing: bool, post: Tokens)
    requires c <= |ts| && ts[c..] == PrintList(es, trailing) + ([RParen] + post) && AllPlain(es)
    ensures ParseChildren(ts, c) == (ValuesOf(es), c + |PrintList(es, trailing)|)
    decreases es, 0
  {
    hide Values, ParseExpr, ParseChildren, Print, PrintList, PlainFlags, Separator;
    if es == [] {
      assert PrintList(es, trailing) == [] by { NoOperands(trailing); }
      CloseGroup(ts, c, PrintList(es, trailing), post);
      NoMoreOperands(ts, c);
    } else {
      var sep := Separator(es, trailing);
      var rest := PrintList(es[1..], trailing) + ([RParen] + post);
      SplitList(ts, c, es, trailing, post);
      OperandStep(ts, c);
      ParsePrinted(ts, c, es[0], sep + rest);
      ParsePrintedList(ts, c + |Print(es[0])| + |sep|, es[1..], trailing, post);
    }
  }

  lemma NoOperands(trailing: bool)
    ensures PrintList([], trailing) == []
  {
  }

  /** The first operand of a printed list, its separator and the rest. */
  lemma SplitList(ts: Tokens, c: nat, es: seq<Cfg>, trailing: bool, post: Tokens)
    requires c <= |ts| && es != [] && ts[c..] == PrintList(es, trailing) + ([RParen] + post)
    ensures var (first, sep) := (Print(es[0]), Separator(es, trailing));
            var rest := PrintList(es[1..], trailing) + ([RParen] + post);
            && ts[c..] == first + (sep + rest) && c + |first| + |sep| < |ts| && ts[c] == first[0]
            && ts[c + |first| + |sep|..] == rest && Follows(sep + rest)
            && AfterOperand(ts, c + |first|) == c + |first| + |sep|
            && |PrintList(es, trailing)| == |first| + |sep| + |PrintList(es[1..], trailing)|
  {
    hide Print, PrintList;
    ListShape(es, trailing);
    Regroup(Print(es[0]), Separator(es, trailing), PrintList(es[1..], trailing), [RParen] + post);
    ListText(ts, c, Print(es[0]), Separator(es, trailing), PrintList(es[1..], trailing) + ([RParen] + post));
  }

  lemma Regroup(a: Tokens, b: Tokens, c: Tokens, d: Tokens)
    ensures a + b + c + d == a + (b + (c + d))
  {
  }

  lemma ListText(ts: Tokens, c: nat, first: Tokens, sep: Tokens, rest: Tokens)
    requires c <= |ts| && ts[c..] == first + (sep + rest) && first != [] && rest != []
    requires sep == [Comma] || (sep == [] && rest[0] == RParen)
    ensures c + |first| + |sep| < |ts| && ts[c] == first[0] && ts[c + |first| + |sep|..] == rest
    ensures AfterOperand(ts, c + |first|) == c + |first| + |sep| && Follows(sep + rest)
  {
    var n := |first|;
    TailIndex(ts, c, 0);
    TailIndex(ts, c, n);
    assert ts[c + n + |sep|..] == ts[c..][n + |sep|..];
  }

  lemma ListShape(es: seq<Cfg>, trailing: bool)
    requires es != []
    ensures PrintList(es, trailing) == Print(es[0]) + Separator(es, trailing) + PrintList(es[1..], trailing)
    ensures |es| == 1 ==> PrintList(es[1..], trailing) == []
  {
    hide Print;
  }

  // --- Soundness ----------------------------------------------------------------------------------

  lemma {:induction false} FoldAndContains(values: set<bool>, es: seq<Cfg>, on: set<Atom>, v: bool)
    requires v in values && forall k :: 0 <= k < |es| ==> Holds(es[k], on) in Values(es[k])
    ensures (v && HoldsAll(es, on)) in FoldAnd(values, ValuesOf(es))
    decreases es
  {
    hide Values, Holds;
    if es != [] {
      var values' := AndSets(values, Values(es[0]));
      assert (v && Holds(es[0], on)) in values';
      FoldAndContains(values', es[1..], on, v && Holds(es[0], on));
      assert ValuesOf(es)[1..] == ValuesOf(es[1..]);
    }
  }

  lemma {:induction false} FoldOrContains(values: set<bool>, es: seq<Cfg>, on: set<Atom>, v: bool)
    requires v in values && forall k :: 0 <= k < |es| ==> Holds(es[k], on) in Values(es[k])
    ensures (v || HoldsAny(es, on)) in FoldOr(values, ValuesOf(es))
    decreases es
  {
    hide Values, Holds;
    if es != [] {
      var values' := OrSets(values, Values(es[0]));
      assert (v || Holds(es[0], on)) in values';
      FoldOrContains(values', es[1..], on, v || Holds(es[0], on));
      assert ValuesOf(es)[1..] == ValuesOf(es[1..]);
    }
  }

  /** Abstraction soundness: the value set contains the concrete truth value of every non-test
      build. */
  lemma {:induction false} ValuesContainTruth(e: Cfg, on: set<Atom>)
    ensures Holds(e, on) in Values(e)
  {
    match e {
      case Flag(_) =>
      case KeyValue(_, _) =>
      case Not(o) => ValuesContainTruth(o, on);
      case All(es, _) =>
        forall k | 0 <= k < |es| ensures Holds(es[k], on) in Values(es[k]) { ValuesContainTruth(es[k], on); }
        FoldAndContains({true}, es, on, true);
      case Any(es, _) =>
        forall k | 0 <= k < |es| ensures Holds(es[k], on) in Values(es[k]) { ValuesContainTruth(es[k], on); }
        FoldOrContains({false}, es, on, false);
    }
  }

  /** `_is_test_only_attribute` on a cfg's tokens: true is impossible. */
  predicate JudgedTestOnly(ts: Tokens) {
    true !in ParseCfg(ts)
  }

  // --- Exactness ------------------------------------------------------------------------------------

  function Atoms(e: Cfg): set<Atom> {
    match e
    case Flag(n) => {FlagAtom(n)}
    case KeyValue(k, v) => {KeyAtom(k, v)}
    case All(es, _) => AtomsOf(es)
    case Any(es, _) => AtomsOf(es)
    case Not(o) => Atoms(o)
  }

  function AtomsOf(es: seq<Cfg>): set<Atom> {
    if es == [] then {} else Atoms(es[0]) + AtomsOf(es[1..])
  }

  /** No atom is mentioned twice. */
  predicate Linear(e: Cfg) {
    match e
    case Flag(_) => true
    case KeyValue(_, _) => true
    case All(es, _) => LinearList(es)
    case Any(es, _) => LinearList(es)
    case Not(o) => Linear(o)
  }

  predicate LinearList(es: seq<Cfg>) {
    es == [] || (Linear(es[0]) && LinearList(es[1..]) && Atoms(es[0]) !! AtomsOf(es[1..]))
  }

  lemma {:induction false} OnlyOwnAtomsMatter(e: Cfg, a: set<Atom>, b: set<Atom>)
    requires a * Atoms(e) == b * Atoms(e)
    ensures Holds(e, a) == Holds(e, b)
    decreases e, 1
  {
    match e {
      case Flag(n) => assert FlagAtom(n) in a * Atoms(e) <==> FlagAtom(n) in b * Atoms(e);
      case KeyValue(k, v) => assert KeyAtom(k, v) in a * Atoms(e) <==> KeyAtom(k, v) in b * Atoms(e);
      case Not(o) => OnlyOwnAtomsMatter(o, a, b);
      case All(es, _) => OnlyOwnAtomsMatterList(es, a, b);
      case Any(es, _) => OnlyOwnAtomsMatterList(es, a, b);
    }
  }

  lemma {:induction false} OnlyOwnAtomsMatterList(es: seq<Cfg>, a: set<Atom>, b: set<Atom>)
    requires a * AtomsOf(es) == b * AtomsOf(es)
    ensures HoldsAll(es, a) == HoldsAll(es, b) && HoldsAny(es, a) == HoldsAny(es, b)
    decreases es, 0
  {
    if es != [] {
      assert a * Atoms(es[0]) == a * AtomsOf(es) * Atoms(es[0]) && b * Atoms(es[0]) == b * AtomsOf(es) * Atoms(es[0]);
      assert a * AtomsOf(es[1..]) == a * AtomsOf(es) * AtomsOf(es[1..]) &&
          b * AtomsOf(es[1..]) == b * AtomsOf(es) * AtomsOf(es[1..]);
      OnlyOwnAtomsMatter(es[0], a, b);
      OnlyOwnAtomsMatterList(es[1..], a, b);
    }
  }

  /** A build for the head and a build for the rest, over disjoint atoms, make one build for both. */
  lemma JoinBuilds(es: seq<Cfg>, a: set<Atom>, b: set<Atom>)
    requires es != [] && LinearList(es) && a <= Atoms(es[0]) && b <= AtomsOf(es[1..])
    ensures Holds(es[0], a + b) == Holds(es[0], a)
    ensures HoldsAll(es[1..], a + b) == HoldsAll(es[1..], b) && HoldsAny(es[1..], a + b) == HoldsAny(es[1..], b)
  {
    hide Linear, Atoms, AtomsOf, Holds;
    assert (a + b) * Atoms(es[0]) == a * Atoms(es[0]);
    assert (a + b) * AtomsOf(es[1..]) == b * AtomsOf(es[1..]);
    OnlyOwnAtomsMatter(es[0], a + b, a);
    OnlyOwnAtomsMatterList(es[1..], a + b, b);
  }

  /** Exactness: when no atom is repeated, every value in the set is the truth in some build. */
  lemma {:induction false} EveryValueIsReached(e: Cfg, v: bool) returns (on: set<Atom>)
    requires Linear(e) && v in Values(e)
    ensures on <= Atoms(e) && Holds(e, on) == v
    decreases e, 1
  {
    match e {
      case Flag(n) => on := if v then {FlagAtom(n)} else {};
      case KeyValue(k, w) => on := if v then {KeyAtom(k, w)} else {};
      case Not(o) => on := EveryValueIsReached(o, !v);
      case All(es, _) => on := ReachAll(es, {true}, true, v);
      case Any(es, _) => on := ReachAny(es, {false}, false, v);
    }
  }

  lemma {:induction false} ReachAll(es: seq<Cfg>, values: set<bool>, u: bool, v: bool) returns (on: set<Atom>)
    requires LinearList(es) && values == {u} && v in FoldAnd(values, ValuesOf(es))
    ensures on <= AtomsOf(es) && (u && HoldsAll(es, on)) == v
    decreases es, 0
  {
    if es == [] {
      on := {};
    } else {
      assert ValuesOf(es)[1..] == ValuesOf(es[1..]);
      var head: bool := SplitAnd(AndSets(values, Values(es[0])), values, Values(es[0]), ValuesOf(es[1..]), u, v);
      var a := EveryValueIsReached(es[0], head);
      var b := ReachAll(es[1..], {u && head}, u && head, v);
      JoinBuilds(es, a, b);
      on := a + b;
    }
  }

  lemma {:induction false} ReachAny(es: seq<Cfg>, values: set<bool>, u: bool, v: bool) returns (on: set<Atom>)
    requires LinearList(es) && values == {u} && v in FoldOr(values, ValuesOf(es))
    ensures on <= AtomsOf(es) && (u || HoldsAny(es, on)) == v
    decreases es, 0
  {
    if es == [] {
      on := {};
    } else {
      assert ValuesOf(es)[1..] == ValuesOf(es[1..]);
      var head: bool := SplitOr(OrSets(values, Values(es[0])), values, Values(es[0]), ValuesOf(es[1..]), u, v);
      var a := EveryValueIsReached(es[0], head);
      var b := ReachAny(es[1..], {u || head}, u || head, v);
      JoinBuilds(es, a, b);
      on := a + b;
    }
  }

  /** A folded value comes from one choice of the head's value. */
  lemma SplitAnd(joined: set<bool>, values: set<bool>, head: set<bool>, rest: seq<set<bool>>, u: bool,
      v: bool) returns (h: bool)
    requires values == {u} && joined == AndSets(values, head) && v in FoldAnd(joined, rest)
    ensures h in head && v in FoldAnd({u && h}, rest)
  {
    FoldAndUnion(joined, rest, v);
    var w :| w in joined && v in FoldAnd({w}, rest);
    var y :| y in head && w == (u && y);
    h := y;
  }

  lemma SplitOr(joined: set<bool>, values: set<bool>, head: set<bool>, rest: seq<set<bool>>, u: bool,
      v: bool) returns (h: bool)
    requires values == {u} && joined == OrSets(values, head) && v in FoldOr(joined, rest)
    ensures h in head && v in FoldOr({u || h}, rest)
  {
    FoldOrUnion(joined, rest, v);
    var w :| w in joined && v in FoldOr({w}, rest);
    var y :| y in head && w == (u || y);
    h := y;
  }

  lemma {:induction false} FoldAndUnion(values: set<bool>, rest: seq<set<bool>>, v: bool)
    requires v in FoldAnd(values, rest)
    ensures exists w :: w in values && v in FoldAnd({w}, rest)
    decreases rest
  {
    if rest == [] {
      assert v in FoldAnd({v}, rest);
    } else {
      FoldAndUnion(AndSets(values, rest[0]), rest[1..], v);
      var m :| m in AndSets(values, rest[0]) && v in FoldAnd({m}, rest[1..]);
      var x, y :| x in values && y in rest[0] && m == (x && y);
      assert m in AndSets({x}, rest[0]);
      FoldAndMonotone({m}, AndSets({x}, rest[0]), rest[1..]);
      assert v in FoldAnd({x}, rest);
    }
  }

  lemma {:induction false} FoldOrUnion(values: set<bool>, rest: seq<set<bool>>, v: bool)
    requires v in FoldOr(values, rest)
    ensures exists w :: w in values && v in FoldOr({w}, rest)
    decreases rest
  {
    if rest == [] {
      assert v in FoldOr({v}, rest);
    } else {
      FoldOrUnion(OrSets(values, rest[0]), rest[1..], v);
      var m :| m in OrSets(values, rest[0]) && v in FoldOr({m}, rest[1..]);
      var x, y :| x in values && y in rest[0] && m == (x || y);
      assert m in OrSets({x}, rest[0]);
      FoldOrMonotone({m}, OrSets({x}, rest[0]), rest[1..]);
      assert v in FoldOr({x}, rest);
    }
  }

  lemma {:induction false} FoldAndMonotone(a: set<bool>, b: set<bool>, rest: seq<set<bool>>)
    requires a <= b
    ensures FoldAnd(a, rest) <= FoldAnd(b, rest)
    decreases rest
  {
    if rest != [] { FoldAndMonotone(AndSets(a, rest[0]), AndSets(b, rest[0]), rest[1..]); }
  }

  lemma {:induction false} FoldOrMonotone(a: set<bool>, b: set<bool>, rest: seq<set<bool>>)
    requires a <= b
    ensures FoldOr(a, rest) <= FoldOr(b, rest)
    decreases rest
  {
    if rest != [] { FoldOrMonotone(OrSets(a, rest[0]), OrSets(b, rest[0]), rest[1..]); }
  }
}
