/** Key-value atoms in the cfg judgement. Masking blanks the literal of `key = "value"`, so the parser
    takes the token after the equals sign for the value: a comma or a closing parenthesis. When no
    operand follows the atom, or nothing in the expression has a fixed value, this is harmless;
    otherwise it can hide production code. */
module CfgKeys {
  import opened Wrappers
  import opened CfgAbstraction

  function KeysIn(e: Cfg): set<string> {
    match e
    case Flag(_) => {}
    case KeyValue(k, _) => {k}
    case All(es, _) => KeysInList(es)
    case Any(es, _) => KeysInList(es)
    case Not(o) => KeysIn(o)
  }

  function KeysInList(es: seq<Cfg>): set<string> {
    if es == [] then {} else KeysIn(es[0]) + KeysInList(es[1..])
  }

  /** The parser takes `test` and `doctest` to be off, whatever value they are compared with. */
  predicate NoTestKey(keys: set<string>) {
    "test" !in keys && "doctest" !in keys
  }

  /** No operand follows a key-value atom: after it come only closing parentheses and the commas that
      end operand lists. */
  predicate KeysLast(e: Cfg) {
    match e
    case Flag(_) => true
    case KeyValue(_, _) => true
    case All(es, _) => KeysLastList(es)
    case Any(es, _) => KeysLastList(es)
    case Not(o) => KeysLast(o)
  }

  predicate KeysLastList(es: seq<Cfg>) {
    if es == [] then true
    else if |es| == 1 then KeysLast(es[0])
    else PlainFlags(es[0]) && KeysLastList(es[1..])
  }

  // --- Reading back an atom at the end ---------------------------------------------------------------

  /** How one enclosing group ends: an optional comma and its parenthesis. */
  function Ending(trailing: bool): Tokens {
    if trailing then [Comma, RParen] else [RParen]
  }

  function Endings(levels: seq<bool>): Tokens {
    if levels == [] then [] else Ending(levels[0]) + Endings(levels[1..])
  }

  /** How far the parser may run past an expression: over part or all of the first ending. */
  function Slack(levels: seq<bool>): nat {
    if levels == [] then 0 else |Ending(levels[0])|
  }

  lemma EndingsAt(ts: Tokens, c: nat, levels: seq<bool>)
    requires c <= |ts| && ts[c..] == Endings(levels)
    ensures levels == [] ==> c == |ts|
    ensures levels != [] ==> c + Slack(levels) <= |ts| && ts[c + Slack(levels) - 1] == RParen &&
                             ts[c + Slack(levels)..] == Endings(levels[1..]) && (levels[0] ==> ts[c] == Comma)
    ensures Follows(Endings(levels))
  {
    if levels != [] {
      var (n, t) := (Slack(levels), ts[c..]);
      TailIndex(ts, c, 0);
      TailIndex(ts, c, n - 1);
      assert t[n..] == Endings(levels[1..]);
      assert ts[c + n..] == t[n..];
    }
  }

  /** After the last operand the loop stops at the group's own parenthesis or, if the atom has taken
      that one, at the parenthesis of the next group out or at the end. Either way the group ends no
      later than the next one does. */
  lemma LoopStops(ts: Tokens, c: nat, x: nat, trailing: bool, levels: seq<bool>)
    requires c <= |ts| && ts[c..] == Endings([trailing] + levels) && x <= |Ending(trailing)|
    ensures c + x <= |ts|
    ensures var d := AfterOperand(ts, c + x);
            var end := c + |Ending(trailing)|;
            ParseChildren(ts, d) == ([], d) && end <= (if At(ts, d, RParen) then d + 1 else d) <= end + Slack(levels)
  {
    hide ParseChildren, Endings;
    assert ([trailing] + levels)[1..] == levels;
    EndingsAt(ts, c, [trailing] + levels);
    var end := c + |Ending(trailing)|;
    if x < |Ending(trailing)| {
      assert AfterOperand(ts, c + x) == end - 1;
    } else {
      EndingsAt(ts, end, levels);
      assert levels != [] ==> AfterOperand(ts, end) == end + Slack(levels) - 1;
    }
    NoMoreOperands(ts, AfterOperand(ts, c + x));
  }

  lemma EndPlain(e: Cfg)
    requires PlainFlags(e)
    ensures KeysLast(e) && KeysIn(e) == {}
    decreases e, 0
  {
    match e
    case Flag(_) =>
    case All(es, _) => EndAllPlain(es);
    case Any(es, _) => EndAllPlain(es);
    case Not(o) => EndPlain(o);
  }

  lemma {:induction false} EndAllPlain(es: seq<Cfg>)
    requires AllPlain(es)
    ensures KeysLastList(es) && KeysInList(es) == {}
    decreases es
  {
    if es != [] {
      EndPlain(es[0]);
      EndAllPlain(es[1..]);
    }
  }

  lemma LastShape(e: Cfg)
    ensures e.Not? ==> KeysLast(e) == KeysLast(e.operand) && KeysIn(e) == KeysIn(e.operand)
    ensures e.All? || e.Any? ==> KeysLast(e) == KeysLastList(e.operands) && KeysIn(e) == KeysInList(e.operands)
    ensures e.KeyValue? ==> KeysIn(e) == {e.key}
  {
  }

  /** An expression whose key-value atom comes last is given its value set, whatever groups close
      after it; the cursor may run past the first of them. */
  lemma {:induction false} ParseLast(ts: Tokens, c: nat, e: Cfg, levels: seq<bool>)
    requires c <= |ts| && ts[c..] == Print(e) + Endings(levels) && KeysLast(e) && NoTestKey(KeysIn(e))
    ensures ParseExpr(ts, c).values == Some(Values(e))
    ensures c + |Print(e)| <= ParseExpr(ts, c).cursor <= c + |Print(e)| + Slack(levels)
    decreases e, 1
  {
    hide ParseExpr, ParseChildren, KeysLast, Print, PrintList, Values, Endings, PlainFlags, KeysIn;
    SplitTail(ts, c, Print(e), Endings(levels));
    EndingsAt(ts, c + |Print(e)|, levels);
    PrintShape(e);
    ValuesShape(e);
    LastShape(e);
    match e {
      case Flag(n) =>
        FlagFollowed(ts, c, n, Endings(levels));
        FlagStep(ts, c, n);
      case KeyValue(k, _) => KeyRead(ts, c, k, levels);
      case Not(o) =>
        LastGroup(ts, c, "not", Print(o), levels);
        ParseLastOperand(ts, c + 2, o, false, levels);
        GroupStep(ts, c, "not");
      case All(es, tr) =>
        LastGroup(ts, c, "all", PrintList(es, tr), levels);
        ParseLastList(ts, c + 2, es, tr, levels);
        GroupStep(ts, c, "all");
      case Any(es, tr) =>
        LastGroup(ts, c, "any", PrintList(es, tr), levels);
        ParseLastList(ts, c + 2, es, tr, levels);
        GroupStep(ts, c, "any");
    }
  }

  lemma SplitTail(ts: Tokens, c: nat, a: Tokens, b: Tokens)
    requires c <= |ts| && ts[c..] == a + b
    ensures c + |a| <= |ts| && ts[c + |a|..] == b
  {
    assert ts[c + |a|..] == ts[c..][|a|..];
  }

  lemma LastSingle(o: Cfg)
    ensures PrintList([o], false) == Print(o) && ValuesOf([o]) == [Values(o)]
    ensures KeysLastList([o]) == KeysLast(o) && KeysInList([o]) == KeysIn(o)
  {
    assert [o][1..] == [] && Print(o) + [] == Print(o) && [Values(o)] + [] == [Values(o)];
  }

  lemma KeyRead(ts: Tokens, c: nat, k: string, levels: seq<bool>)
    requires c <= |ts| && ts[c..] == [Ident(k), Equals] + Endings(levels) && k != "test" && k != "doctest"
    ensures ParseExpr(ts, c).values == Some(ANY_VALUE)
    ensures c + 2 <= ParseExpr(ts, c).cursor <= c + 2 + Slack(levels)
  {
    TailIndex(ts, c, 0);
    TailIndex(ts, c, 1);
    SplitTail(ts, c, [Ident(k), Equals], Endings(levels));
    EndingsAt(ts, c + 2, levels);
    hide ParseChildren, Endings;
    KeyStep(ts, c, k);
  }

  lemma KeyStep(ts: Tokens, c: nat, name: string)
    requires c + 1 < |ts| && ts[c] == Ident(name) && ts[c + 1] == Equals
    ensures ParseExpr(ts, c) == Parsed(Some(AtomValues(name)), if c + 2 < |ts| then c + 3 else c + 2)
  {
    hide Combine, ParseChildren;
  }

  lemma LastGroup(ts: Tokens, c: nat, name: string, inner: Tokens, levels: seq<bool>)
    requires c <= |ts| && ts[c..] == [Ident(name), LParen] + inner + [RParen] + Endings(levels)
    ensures c + 2 <= |ts| && ts[c] == Ident(name) && ts[c + 1] == LParen &&
        ts[c + 2..] == inner + Endings([false] + levels)
  {
    GroupText(ts, c, name, inner, Endings(levels));
    assert ([false] + levels)[1..] == levels;
    assert Endings([false] + levels) == [RParen] + Endings(levels);
  }

  /** One last operand, the optional comma and the group's end. */
  lemma {:induction false} ParseLastOperand(ts: Tokens, c: nat, e: Cfg, trailing: bool, levels: seq<bool>)
    requires c <= |ts| && ts[c..] == Print(e) + Endings([trailing] + levels) && KeysLast(e) && NoTestKey(KeysIn(e))
    ensures ParseChildren(ts, c).0 == [Values(e)]
    ensures var (d, end) := (ParseChildren(ts, c).1, c + |Print(e)| + |Ending(trailing)|);
            end <= (if At(ts, d, RParen) then d + 1 else d) <= end + Slack(levels)
    decreases e, 2
  {
    hide Values, ParseExpr, ParseChildren, Print, Endings, KeysLast, KeysIn;
    var n := |Print(e)|;
    SplitTail(ts, c, Print(e), Endings([trailing] + levels));
    TailIndex(ts, c, 0);
    OperandStep(ts, c);
    ParseLast(ts, c, e, [trailing] + levels);
    LoopStops(ts, c + n, ParseExpr(ts, c).cursor - (c + n), trailing, levels);
    assert [Values(e)] + [] == [Values(e)];
  }

  lemma {:induction false} ParseLastList(ts: Tokens, c: nat, es: seq<Cfg>, trailing: bool, levels: seq<bool>)
    requires c <= |ts| && ts[c..] == PrintList(es, trailing) + Endings([false] + levels)
    requires KeysLastList(es) && NoTestKey(KeysInList(es))
    ensures ParseChildren(ts, c).0 == ValuesOf(es)
    ensures var (d, end) := (ParseChildren(ts, c).1, c + |PrintList(es, trailing)| + 1);
            end <= (if At(ts, d, RParen) then d + 1 else d) <= end + Slack(levels)
    decreases es, 0
  {
    hide Values, ParseExpr, ParseChildren, Print, Endings, KeysLast, PlainFlags, KeysIn, PrintList, At;
    if es == [] {
      EmptyList(trailing);
      assert [] + Endings([false] + levels) == Endings([false] + levels);
      EndingsAt(ts, c, [false] + levels);
      NoMoreOperands(ts, c);
      LoopStops(ts, c, 0, false, levels);
    } else if |es| == 1 {
      assert es == [es[0]];
      LastOperand(es[0], trailing, levels);
      LastSingle(es[0]);
      ParseLastOperand(ts, c, es[0], trailing, levels);
    } else {
      var (n, rest) := (|Print(es[0])|, PrintList(es[1..], trailing) + Endings([false] + levels));
      ListShape(es, trailing);
      Regroup(Print(es[0]), [Comma], PrintList(es[1..], trailing), Endings([false] + levels));
      EndingsStart(levels);
      ListText(ts, c, Print(es[0]), [Comma], rest);
      OperandStep(ts, c);
      ParsePrinted(ts, c, es[0], [Comma] + rest);
      ParseLastList(ts, c + n + 1, es[1..], trailing, levels);
    }
  }

  lemma EmptyList(trailing: bool)
    ensures PrintList([], trailing) == [] && ValuesOf([]) == []
  {
  }

  lemma EndingsStart(levels: seq<bool>)
    ensures Endings([false] + levels) != []
  {
  }

  lemma LastOperand(e: Cfg, trailing: bool, levels: seq<bool>)
    ensures PrintList([e], trailing) + Endings([false] + levels) == Print(e) + Endings([trailing] + levels)
    ensures |PrintList([e], trailing)| == |Print(e)| + |Ending(trailing)| - 1
  {
    hide Print;
    assert ([false] + levels)[1..] == levels && ([trailing] + levels)[1..] == levels;
    assert Print(e) + [] == Print(e);
  }

  /** Parsing an expression whose key-value atoms come last computes its value set. */
  lemma ParseComputesValues(e: Cfg)
    requires KeysLast(e) && NoTestKey(KeysIn(e))
    ensures ParseCfg(Print(e)) == Values(e)
  {
    hide ParseExpr, Values, Print;
    assert Print(e)[0..] == Print(e) + Endings([]);
    ParseLast(Print(e), 0, e, []);
  }

  // --- Expressions without constants ------------------------------------------------------------------------

  /** What can make a value set a single value: a test name as a flag, or a group without operands. */
  datatype Constant = TestName | EmptyGroup

  function Constants(e: Cfg): set<Constant> {
    match e
    case Flag(n) => if IsTestName(n) then {TestName} else {}
    case KeyValue(_, _) => {}
    case All(es, _) => if es == [] then {EmptyGroup} else ConstantsOf(es)
    case Any(es, _) => if es == [] then {EmptyGroup} else ConstantsOf(es)
    case Not(o) => Constants(o)
  }

  function ConstantsOf(es: seq<Cfg>): set<Constant> {
    if es == [] then {} else Constants(es[0]) + ConstantsOf(es[1..])
  }

  /** No name is a test name, and every opening parenthesis has something after it that does not close it. */
  predicate NoConstantTokens(ts: Tokens) {
    forall k :: 0 <= k < |ts| ==> NoConstantAt(ts, k)
  }

  predicate NoConstantAt(ts: Tokens, k: nat)
    requires k < |ts|
  {
    && (ts[k].Ident? ==> !IsTestName(ts[k].name))
    && (ts[k] == LParen ==> k + 1 < |ts| && ts[k + 1] != RParen)
  }

  /** Every value set is unknown or holds both values. */
  predicate Undecided(values: Option<set<bool>>) {
    values.None? || values.value == ANY_VALUE
  }

  predicate AllUndecided(children: seq<set<bool>>) {
    forall k :: 0 <= k < |children| ==> children[k] == ANY_VALUE
  }

  /** From any cursor of any token list without constants, malformed ones included, nothing is decided. */
  lemma {:induction false} NothingDecided(ts: Tokens, c: nat)
    requires c <= |ts| && NoConstantTokens(ts)
    ensures Undecided(ParseExpr(ts, c).values)
    decreases |ts| - c, 1
  {
    hide Combine, ParseChildren, NoConstantTokens;
    if c < |ts| && ts[c].Ident? {
      TokenFacts(ts, c);
      if At(ts, c + 1, LParen) {
        TokenFacts(ts, c + 1);
        NoOperandDecided(ts, c + 2);
        OperandStep(ts, c + 2);
        CombineUndecided(ts[c].name, ParseChildren(ts, c + 2).0);
      }
    }
  }

  lemma TokenFacts(ts: Tokens, k: nat)
    requires k < |ts| && NoConstantTokens(ts)
    ensures ts[k].Ident? ==> AtomValues(ts[k].name) == ANY_VALUE
    ensures ts[k] == LParen ==> k + 1 < |ts| && ts[k + 1] != RParen
  {
    assert NoConstantAt(ts, k);
  }

  lemma {:induction false} NoOperandDecided(ts: Tokens, c: nat)
    requires c <= |ts| && NoConstantTokens(ts)
    ensures AllUndecided(ParseChildren(ts, c).0)
    decreases |ts| - c, 2
  {
    hide ParseExpr, ParseChildren, NoConstantTokens;
    if c >= |ts| || ts[c] == RParen {
      NoMoreOperands(ts, c);
    } else {
      OperandStep(ts, c);
      NothingDecided(ts, c);
      NoOperandDecided(ts, AfterOperand(ts, ParseExpr(ts, c).cursor));
    }
  }

  lemma CombineUndecided(name: string, children: seq<set<bool>>)
    requires children != [] && AllUndecided(children)
    ensures Combine(name, children) == ANY_VALUE
  {
    hide FoldAnd, FoldOr;
    FoldsUndecided({true}, children);
    FoldsUndecided({false}, children);
    assert NotSet(ANY_VALUE) == ANY_VALUE by {
      assert (!true) in NotSet(ANY_VALUE) && (!false) in NotSet(ANY_VALUE);
    }
  }

  lemma {:induction false} FoldsUndecided(values: set<bool>, children: seq<set<bool>>)
    requires AllUndecided(children)
    ensures (true in values && children != []) || values == ANY_VALUE ==> FoldAnd(values, children) == ANY_VALUE
    ensures (false in values && children != []) || values == ANY_VALUE ==> FoldOr(values, children) == ANY_VALUE
    decreases children
  {
    if children != [] {
      FoldsUndecided(AndSets(values, children[0]), children[1..]);
      FoldsUndecided(OrSets(values, children[0]), children[1..]);
      var (both, either) := (AndSets(values, ANY_VALUE), OrSets(values, ANY_VALUE));
      if true in values { assert (true && true) in both && (true && false) in both; }
      if false in values { assert (false || true) in either && (false || false) in either; }
    }
  }

  /** A cfg without a test name and without an empty group, well formed or not, is never judged
      test-only. */
  lemma NoConstantIsKept(ts: Tokens)
    requires NoConstantTokens(ts)
    ensures !JudgedTestOnly(ts)
  {
    hide NoConstantTokens, ParseExpr;
    NothingDecided(ts, 0);
  }

  lemma {:induction false} PrintNoConstant(e: Cfg)
    requires Constants(e) == {} && NoTestKey(KeysIn(e))
    ensures NoConstantTokens(Print(e))
    decreases e, 1
  {
    hide NoConstantTokens, Print, PrintList;
    PrintShape(e);
    match e {
      case Flag(n) => AtomNoConstant([Ident(n)]);
      case KeyValue(k, _) => AtomNoConstant([Ident(k), Equals]);
      case All(es, t) =>
        PrintListNoConstant(es, t);
        GroupNoConstant("all", PrintList(es, t));
      case Any(es, t) =>
        PrintListNoConstant(es, t);
        GroupNoConstant("any", PrintList(es, t));
      case Not(o) =>
        PrintNoConstant(o);
        GroupNoConstant("not", Print(o));
    }
  }

  lemma {:induction false} PrintListNoConstant(es: seq<Cfg>, trailing: bool)
    requires es != [] && ConstantsOf(es) == {} && NoTestKey(KeysInList(es))
    ensures NoConstantTokens(PrintList(es, trailing))
    ensures PrintList(es, trailing) != [] && PrintList(es, trailing)[0].Ident?
    decreases es, 0
  {
    hide NoConstantTokens, Print;
    PrintNoConstant(es[0]);
    AtomNoConstant([Comma]);
    if |es| > 1 {
      PrintListNoConstant(es[1..], trailing);
      JoinNoConstant(Print(es[0]), [Comma]);
      JoinNoConstant(Print(es[0]) + [Comma], PrintList(es[1..], trailing));
    } else if trailing {
      JoinNoConstant(Print(es[0]), [Comma]);
    } else {
      assert Print(es[0]) + [] == Print(es[0]);
    }
  }

  lemma AtomNoConstant(ts: Tokens)
    requires forall t <- ts :: (t.Ident? ==> !IsTestName(t.name)) && t != LParen
    ensures NoConstantTokens(ts)
  {
  }

  lemma JoinNoConstant(a: Tokens, b: Tokens)
    requires NoConstantTokens(a) && NoConstantTokens(b)
    ensures NoConstantTokens(a + b)
  {
    forall k | 0 <= k < |a + b| ensures NoConstantAt(a + b, k) {
      if k < |a| { TokenFacts(a, k); assert NoConstantAt(a, k); } else { assert NoConstantAt(b, k - |a|); }
    }
  }

  lemma GroupNoConstant(name: string, inner: Tokens)
    requires NoConstantTokens(inner) && inner != [] && inner[0].Ident? && !IsTestName(name)
    ensures NoConstantTokens([Ident(name), LParen] + inner + [RParen])
  {
    var all := [Ident(name), LParen] + inner + [RParen];
    forall k | 0 <= k < |all| ensures NoConstantAt(all, k) {
      if 2 <= k < |all| - 1 { assert NoConstantAt(inner, k - 2); }
    }
  }

  /** The expressions judged rightly: no key has a test name, and no operand follows a key-value atom or
      no constant occurs. */
  predicate JudgedRightly(e: Cfg) {
    NoTestKey(KeysIn(e)) && (KeysLast(e) || Constants(e) == {})
  }

  /** No production code is hidden: such an expression, judged test-only, is off in every non-test
      build. */
  lemma TestOnlyIsNeverEnabled(e: Cfg, on: set<Atom>)
    requires JudgedRightly(e) && JudgedTestOnly(Print(e))
    ensures !Holds(e, on)
  {
    if KeysLast(e) {
      ParseComputesValues(e);
      ValuesContainTruth(e, on);
    } else {
      PrintNoConstant(e);
      NoConstantIsKept(Print(e));
    }
  }

  /** Where no atom is repeated either the judgement is exact: test-only if and only if no non-test
      build enables the item. */
  lemma LinearJudgementIsExact(e: Cfg)
    requires JudgedRightly(e) && Linear(e)
    ensures JudgedTestOnly(Print(e)) <==> forall on: set<Atom> :: !Holds(e, on)
  {
    if JudgedTestOnly(Print(e)) {
      forall on: set<Atom> ensures !Holds(e, on) { TestOnlyIsNeverEnabled(e, on); }
    } else {
      if KeysLast(e) { ParseComputesValues(e); } else { ValuesUndecided(e); }
      var on := EveryValueIsReached(e, true);
      assert Holds(e, on);
    }
  }

  lemma {:induction false} ValuesUndecided(e: Cfg)
    requires Constants(e) == {}
    ensures Values(e) == ANY_VALUE
    decreases e, 1
  {
    match e {
      case Flag(_) =>
      case KeyValue(_, _) =>
      case All(es, _) =>
        ValuesOfUndecided(es);
        CombineUndecided("all", ValuesOf(es));
      case Any(es, _) =>
        ValuesOfUndecided(es);
        CombineUndecided("any", ValuesOf(es));
      case Not(o) =>
        ValuesUndecided(o);
        CombineUndecided("not", [Values(o)]);
    }
  }

  lemma {:induction false} ValuesOfUndecided(es: seq<Cfg>)
    requires ConstantsOf(es) == {}
    ensures AllUndecided(ValuesOf(es))
    decreases es, 0
  {
    hide Constants, Values;
    if es != [] {
      ValuesUndecided(es[0]);
      ValuesOfUndecided(es[1..]);
    }
  }

  // --- What follows an atom ------------------------------------------------------------------------------

  /** The next operand, if any, as the number of groups that close before it. */
  function Outward(after: Option<nat>): Option<nat> {
    if after.Some? then Some(after.value + 1) else None
  }

  /** For each key-value atom that an operand follows, how many groups close in between. */
  function Gaps(e: Cfg, after: Option<nat>): set<nat> {
    match e
    case Flag(_) => {}
    case KeyValue(_, _) => if after.Some? then {after.value} else {}
    case All(es, _) => GapsList(es, Outward(after))
    case Any(es, _) => GapsList(es, Outward(after))
    case Not(o) => Gaps(o, Outward(after))
  }

  function GapsList(es: seq<Cfg>, after: Option<nat>): set<nat> {
    if es == [] then {}
    else if |es| == 1 then Gaps(es[0], after)
    else Gaps(es[0], Some(0)) + GapsList(es[1..], after)
  }

  lemma {:induction false} GapsExact(e: Cfg, after: Option<nat>)
    ensures Gaps(e, after) == {} <==> if after.Some? then PlainFlags(e) else KeysLast(e)
    decreases e, 0
  {
    match e
    case Flag(_) =>
    case KeyValue(_, _) => assert after.Some? ==> after.value in Gaps(e, after);
    case All(es, _) => GapsListExact(es, Outward(after));
    case Any(es, _) => GapsListExact(es, Outward(after));
    case Not(o) => GapsExact(o, Outward(after));
  }

  lemma {:induction false} GapsListExact(es: seq<Cfg>, after: Option<nat>)
    ensures GapsList(es, after) == {} <==> if after.Some? then AllPlain(es) else KeysLastList(es)
    decreases es
  {
    hide PlainFlags, KeysLast, Gaps;
    if es == [] {
    } else if |es| == 1 {
      GapsExact(es[0], after);
      assert AllPlain(es[1..]);
    } else {
      GapsExact(es[0], Some(0));
      GapsListExact(es[1..], after);
    }
  }

  lemma {:induction false} NoKeysIsPlain(e: Cfg)
    requires KeysIn(e) == {}
    ensures PlainFlags(e)
    decreases e, 0
  {
    match e
    case Flag(_) =>
    case KeyValue(_, _) => assert false;
    case All(es, _) => NoKeysAllPlain(es);
    case Any(es, _) => NoKeysAllPlain(es);
    case Not(o) => NoKeysIsPlain(o);
  }

  lemma {:induction false} NoKeysAllPlain(es: seq<Cfg>)
    requires KeysInList(es) == {}
    ensures AllPlain(es)
    decreases es
  {
    if es != [] {
      NoKeysIsPlain(es[0]);
      NoKeysAllPlain(es[1..]);
    }
  }

  // --- An operand after the atom can be hidden ---------------------------------------------------------------

  /** The atom inside `n` groups. */
  function Nested(n: nat, key: string, value: string): Cfg {
    if n == 0 then KeyValue(key, value) else All([Nested(n - 1, key, value)], false)
  }

  function Closers(n: nat): Tokens {
    if n == 0 then [] else [RParen] + Closers(n - 1)
  }

  lemma NestedPrint(n: nat, key: string, value: string)
    ensures n == 0 ==> Print(Nested(n, key, value)) == [Ident(key), Equals]
    ensures n > 0 ==>
              Print(Nested(n, key, value)) == [Ident("all"), LParen] + Print(Nested(n - 1, key, value)) + [RParen]
  {
    if n > 0 { LastSingle(Nested(n - 1, key, value)); }
  }

  /** Inside the groups the parser is one parenthesis ahead all the way out. */
  lemma {:induction false} NestedRunsAhead(ts: Tokens, c: nat, n: nat, key: string, value: string, j: nat, post: Tokens)
    requires j > 0 && c <= |ts| && ts[c..] == Print(Nested(n, key, value)) + (Closers(j) + post)
    ensures ParseExpr(ts, c) == Parsed(Some(AtomValues(key)), c + |Print(Nested(n, key, value))| + 1)
    ensures c + |Print(Nested(n, key, value))| + 1 <= |ts| &&
        ts[c + |Print(Nested(n, key, value))| + 1..] == Closers(j - 1) + post
    decreases n
  {
    hide ParseExpr, ParseChildren, Print, FoldAnd;
    NestedPrint(n, key, value);
    var len := |Print(Nested(n, key, value))|;
    SplitTail(ts, c, Print(Nested(n, key, value)), Closers(j) + post);
    assert Closers(j) + post == [RParen] + (Closers(j - 1) + post);
    SplitTail(ts, c + len, [RParen], Closers(j - 1) + post);
    TailIndex(ts, c, 0);
    TailIndex(ts, c, 1);
    if n == 0 {
      KeyStep(ts, c, key);
    } else {
      var inner := Print(Nested(n - 1, key, value));
      MoreClosers(inner, j, post);
      OpenGroup(ts, c, "all", inner + (Closers(j + 1) + post));
      TailIndex(ts, c + 2, 0);
      NestedRunsAhead(ts, c + 2, n - 1, key, value, j + 1, post);
      var p := c + 2 + |inner| + 1;
      TailIndex(ts, p, 0);
      GroupOfOne(ts, c, AtomValues(key), p);
    }
  }

  lemma MoreClosers(inner: Tokens, j: nat, post: Tokens)
    ensures [Ident("all"), LParen] + inner + [RParen] + (Closers(j) + post) ==
            [Ident("all"), LParen] + (inner + (Closers(j + 1) + post))
  {
  }

  lemma GroupOfOne(ts: Tokens, c: nat, v: set<bool>, p: nat)
    requires c + 2 < |ts| && ts[c] == Ident("all") && ts[c + 1] == LParen && ts[c + 2] != RParen
    requires ParseExpr(ts, c + 2) == Parsed(Some(v), p) && At(ts, p, RParen)
    ensures ParseExpr(ts, c) == Parsed(Some(v), p + 1)
  {
    hide ParseExpr, ParseChildren, FoldAnd;
    OperandStep(ts, c + 2);
    NoMoreOperands(ts, p);
    assert [v] + [] == [v];
    AllOfOne(v);
    GroupStep(ts, c, "all");
  }

  lemma AllOfOne(v: set<bool>)
    ensures FoldAnd({true}, [v]) == v
  {
    assert [v][1..] == [];
    assert forall x :: x in v ==> (true && x) in AndSets({true}, v);
    assert AndSets({true}, v) == v;
  }

  /** An operand that is off in every non-test build because of one constant. */
  function Off(c: Constant): Cfg {
    if c.TestName? then Flag("test") else Any([], false)
  }

  lemma OffFacts(c: Constant)
    ensures PlainFlags(Off(c)) && Values(Off(c)) == {false} && Constants(Off(c)) == {c} && KeysIn(Off(c)) == {}
    ensures forall after :: Gaps(Off(c), after) == {}
  {
  }

  /** What follows an operand when the constant comes next in its group. */
  function OffNext(c: Constant, post: Tokens): Tokens {
    [Comma] + (Print(Off(c)) + ([RParen] + post))
  }

  /** After one or more closing parentheses: the outermost of the groups swallows the next operand. */
  function HiddenByClosing(n: nat, key: string, value: string, c: Constant): Cfg {
    Any([Nested(n, key, value), Off(c)], false)
  }

  lemma ClosingHides(n: nat, key: string, value: string, c: Constant)
    requires n > 0
    ensures JudgedTestOnly(Print(HiddenByClosing(n, key, value, c)))
  {
    hide ParseExpr, ParseChildren, FoldAnd, FoldOr, Print, Nested, Off, OffNext;
    var (ts, rest) := (Print(HiddenByClosing(n, key, value, c)),
        Print(Nested(n - 1, key, value)) + ([RParen] + OffNext(c, [])));
    HiddenPrint(n, key, value, c);
    assert ts[0..] == ts;
    OpenGroup(ts, 0, "any", [Ident("all"), LParen] + rest);
    OpenGroup(ts, 2, "all", rest);
    GroupSwallows(ts, 2, n - 1, key, value, c);
    OperandStep(ts, 2);
    NoMoreOperands(ts, |ts|);
    assert [{false}] + [] == [{false}];
    FalseIsUnit();
    GroupStep(ts, 0, "any");
  }

  lemma GroupSwallows(ts: Tokens, g: nat, n: nat, key: string, value: string, c: Constant)
    requires g + 2 <= |ts| && ts[g] == Ident("all") && ts[g + 1] == LParen
    requires ts[g + 2..] == Print(Nested(n, key, value)) + ([RParen] + OffNext(c, []))
    ensures ParseExpr(ts, g) == Parsed(Some({false}), |ts|)
  {
    hide ParseExpr, ParseChildren, Print, Nested, AtomValues, OffNext, Off;
    OneCloser(OffNext(c, []));
    NestedRunsAhead(ts, g + 2, n, key, value, 1, OffNext(c, []));
    var q := g + 2 + |Print(Nested(n, key, value))| + 1;
    OffFalls(ts, q, c, []);
    TailIndex(ts, g + 2, 0);
    AtomMayBeFalse(key);
    GroupOfTwo(ts, g, AtomValues(key), q, |ts| - 1);
  }

  lemma OneCloser(post: Tokens)
    ensures Closers(1) == [RParen] && Closers(0) + post == post
  {
    assert Closers(0) == [];
  }

  lemma AtomMayBeFalse(key: string)
    ensures false in AtomValues(key)
  {
  }

  lemma GroupOfTwo(ts: Tokens, g: nat, v: set<bool>, q: nat, r: nat)
    requires g + 2 < |ts| && ts[g] == Ident("all") && ts[g + 1] == LParen && ts[g + 2] != RParen && false in v
    requires ParseExpr(ts, g + 2) == Parsed(Some(v), q) && At(ts, q, Comma) && At(ts, r, RParen)
    requires ParseChildren(ts, q + 1) == ([{false}], r)
    ensures ParseExpr(ts, g) == Parsed(Some({false}), r + 1)
  {
    hide ParseExpr, ParseChildren, FoldAnd;
    OperandStep(ts, g + 2);
    assert [v] + [{false}] == [v, {false}];
    FalseAbsorbs(v);
    GroupStep(ts, g, "all");
  }

  lemma OffFalls(ts: Tokens, q: nat, c: Constant, post: Tokens)
    requires q <= |ts| && ts[q..] == OffNext(c, post)
    ensures var r := |ts| - 1 - |post|;
            At(ts, q, Comma) && At(ts, r, RParen) && ParseChildren(ts, q + 1) == ([{false}], r)
  {
    hide ParseExpr, ParseChildren, Print, Off;
    OffFacts(c);
    var off := Print(Off(c));
    SplitTail(ts, q, [Comma], off + ([RParen] + post));
    TailIndex(ts, q, 0);
    TailIndex(ts, q, 1);
    SplitTail(ts, q + 1, off, [RParen] + post);
    TailIndex(ts, q + 1 + |off|, 0);
    ParsePrinted(ts, q + 1, Off(c), [RParen] + post);
    OperandStep(ts, q + 1);
    NoMoreOperands(ts, q + 1 + |off|);
    assert [{false}] + [] == [{false}];
  }

  lemma HiddenPrint(n: nat, key: string, value: string, c: Constant)
    requires n > 0
    ensures Print(HiddenByClosing(n, key, value, c)) ==
            [Ident("any"), LParen] + ([Ident("all"), LParen] +
                (Print(Nested(n - 1, key, value)) + ([RParen] + OffNext(c, []))))
  {
    hide Off, Print, PrintList, Nested;
    NestedPrint(n, key, value);
    LastSingle(Off(c));
    ListPrint(Nested(n, key, value), [Off(c)]);
    assert [Nested(n, key, value)] + [Off(c)] == [Nested(n, key, value), Off(c)];
    PrintShape(HiddenByClosing(n, key, value, c));
    ClosingJoin(Print(Nested(n - 1, key, value)), Print(Off(c)));
  }

  lemma ClosingJoin(inner: Tokens, off: Tokens)
    ensures [Ident("any"), LParen] + ([Ident("all"), LParen] + inner + [RParen] + [Comma] + off) + [RParen] ==
            [Ident("any"), LParen] + ([Ident("all"), LParen] +
                (inner + ([RParen] + ([Comma] + (off + ([RParen] + []))))))
  {
  }

  lemma FalseAbsorbs(k: set<bool>)
    requires false in k
    ensures FoldAnd({true}, [k, {false}]) == {false}
  {
    assert [k, {false}][1..] == [{false}] && [{false}][1..] == [];
    var m := AndSets({true}, k);
    assert (true && false) in m;
    assert AndSets(m, {false}) == {false};
  }

  lemma FalseIsUnit()
    ensures FoldOr({false}, [{false}]) == {false}
  {
    assert [{false}][1..] == [];
    assert OrSets({false}, {false}) == {false};
  }

  const FILLER: Cfg := Any([Flag("a")], false)

  /** After a comma: the next operand's name is skipped, and its closing parenthesis ends the group
      early, so the operand after that falls to the group outside. */
  function HiddenByComma(key: string, value: string, c: Constant): Cfg {
    All([Any([KeyValue(key, value), FILLER, Off(c)], false)], false)
  }

  function CommaHead(key: string): Tokens {
    [Ident("all"), LParen, Ident("any"), LParen, Ident(key), Equals, Comma, Ident("any"), LParen, Ident("a"), RParen]
  }

  lemma CommaPrint(key: string, value: string, c: Constant)
    ensures Print(HiddenByComma(key, value, c)) == CommaHead(key) + OffNext(c, [RParen])
  {
    hide Off, Print, PrintList;
    var (k, t) := (KeyValue(key, value), Off(c));
    var es := [k] + ([FILLER] + [t]);
    assert es == [k, FILLER, t];
    LastSingle(t);
    FillerPrint();
    ListPrint(FILLER, [t]);
    ListPrint(k, [FILLER] + [t]);
    PrintShape(k);
    PrintShape(Any(es, false));
    LastSingle(Any(es, false));
    PrintShape(HiddenByComma(key, value, c));
    CommaJoin(key, Print(t));
  }

  lemma FillerPrint()
    ensures Print(FILLER) == [Ident("any"), LParen, Ident("a"), RParen]
  {
    LastSingle(Flag("a"));
  }

  lemma ListPrint(e: Cfg, es: seq<Cfg>)
    requires es != []
    ensures PrintList([e] + es, false) == Print(e) + [Comma] + PrintList(es, false)
  {
    hide Print;
    assert ([e] + es)[1..] == es;
  }

  lemma CommaJoin(key: string, off: Tokens)
    ensures [Ident("all"), LParen] + ([Ident("any"), LParen] +
                ([Ident(key), Equals] + [Comma] + ([Ident("any"), LParen, Ident("a"), RParen] + [Comma] + off)) +
                [RParen]) + [RParen] ==
            CommaHead(key) + ([Comma] + (off + ([RParen] + [RParen])))
  {
  }

  lemma CommaHides(key: string, value: string, c: Constant)
    ensures JudgedTestOnly(Print(HiddenByComma(key, value, c)))
  {
    hide ParseExpr, ParseChildren, FoldAnd, FoldOr, Print, Off, OffNext;
    CommaPrint(key, value, c);
    var ts := Print(HiddenByComma(key, value, c));
    assert |CommaHead(key)| == 11 && ts[..11] == CommaHead(key) && ts[11..] == OffNext(c, [RParen]);
    OffFalls(ts, 11, c, [RParen]);
    EndsEarly(ts, key);
    FalseRemains(AtomValues(key));
    GroupOfTwo(ts, 0, FoldOr({false}, [AtomValues(key), ANY_VALUE]), 11, |ts| - 2);
  }

  lemma EndsEarly(ts: Tokens, key: string)
    requires |ts| > 11 && ts[..11] == CommaHead(key)
    ensures ParseExpr(ts, 2) == Parsed(Some(FoldOr({false}, [AtomValues(key), ANY_VALUE])), 11)
  {
    hide ParseExpr, ParseChildren, FoldOr;
    var (t, v) := (ts[..11], AtomValues(key));
    assert ts[2] == t[2] && ts[3] == t[3] && ts[4] == t[4] && ts[5] == t[5] && ts[7] == t[7] && ts[8] == t[8] &&
        ts[9] == t[9] && ts[10] == t[10];
    KeyStep(ts, 4, key);
    OperandStep(ts, 4);
    NotAName(ts, 8);
    OperandStep(ts, 8);
    NoMoreOperands(ts, 10);
    assert [v] + ([ANY_VALUE] + []) == [v, ANY_VALUE];
    GroupStep(ts, 2, "any");
  }

  lemma NotAName(ts: Tokens, c: nat)
    requires c < |ts| && !ts[c].Ident?
    ensures ParseExpr(ts, c) == Parsed(None, c + 1)
  {
  }

  lemma FalseRemains(v: set<bool>)
    requires false in v
    ensures false in FoldOr({false}, [v, ANY_VALUE])
  {
    assert [v, ANY_VALUE][1..] == [ANY_VALUE] && [ANY_VALUE][1..] == [];
    var m := OrSets({false}, v);
    assert (false || false) in m && (false || false) in OrSets(m, ANY_VALUE);
    assert FoldOr({false}, [v, ANY_VALUE]) == FoldOr(m, [ANY_VALUE]) == FoldOr(OrSets(m, ANY_VALUE), []);
  }

  /** For every key, every gap and either constant there is an expression with just these that the
      parser judges test-only although a build that sets the key enables it. */
  function Hidden(gap: nat, key: string, value: string, c: Constant): Cfg {
    if gap == 0 then HiddenByComma(key, value, c) else HiddenByClosing(gap, key, value, c)
  }

  lemma KeyValueCanHideProductionCode(gap: nat, key: string, value: string, c: Constant)
    ensures var e := Hidden(gap, key, value, c);
            && Gaps(e, None) == {gap} && KeysIn(e) == {key} && Constants(e) == {c}
            && JudgedTestOnly(Print(e)) && Holds(e, {KeyAtom(key, value)})
  {
    hide JudgedTestOnly, HiddenByComma, HiddenByClosing;
    if gap == 0 {
      CommaHides(key, value, c);
      CommaFacts(key, value, c);
    } else {
      ClosingHides(gap, key, value, c);
      ClosingFacts(gap, key, value, c);
    }
  }

  lemma CommaFacts(key: string, value: string, c: Constant)
    ensures var e := HiddenByComma(key, value, c);
            && Gaps(e, None) == {0} && KeysIn(e) == {key} && Constants(e) == {c}
            && Holds(e, {KeyAtom(key, value)})
  {
    hide Off;
    var (k, t, a) := (KeyValue(key, value), Off(c), Flag("a"));
    OffFacts(c);
    SingleFacts(t);
    SingleFacts(a);
    ListFacts(FILLER, [t]);
    ListFacts(k, [FILLER, t]);
    var es := [k] + [FILLER, t];
    assert es == [k, FILLER, t];
    assert HoldsAny(es, {KeyAtom(key, value)});
    var g := Any(es, false);
    SingleFacts(g);
    assert HoldsAll([g], {KeyAtom(key, value)}) by { assert [g][1..] == []; }
  }

  lemma SingleFacts(e: Cfg)
    ensures KeysInList([e]) == KeysIn(e) && ConstantsOf([e]) == Constants(e)
    ensures forall after :: GapsList([e], after) == Gaps(e, after)
  {
    assert [e][1..] == [];
  }

  lemma ListFacts(e: Cfg, es: seq<Cfg>)
    requires es != []
    ensures KeysInList([e] + es) == KeysIn(e) + KeysInList(es)
    ensures ConstantsOf([e] + es) == Constants(e) + ConstantsOf(es)
    ensures GapsList([e] + es, None) == Gaps(e, Some(0)) + GapsList(es, None)
  {
    assert ([e] + es)[1..] == es;
  }

  lemma {:induction false} NestedFacts(n: nat, key: string, value: string, k: nat)
    ensures Gaps(Nested(n, key, value), Some(k)) == {k + n} && KeysIn(Nested(n, key, value)) == {key}
    ensures Constants(Nested(n, key, value)) == {} && Holds(Nested(n, key, value), {KeyAtom(key, value)})
    decreases n
  {
    if n > 0 {
      NestedFacts(n - 1, key, value, k + 1);
      var o := Nested(n - 1, key, value);
      SingleFacts(o);
      assert [o][1..] == [] && HoldsAll([], {KeyAtom(key, value)});
      assert HoldsAll([o], {KeyAtom(key, value)});
    }
  }

  lemma ClosingFacts(n: nat, key: string, value: string, c: Constant)
    ensures var e := HiddenByClosing(n, key, value, c);
            && Gaps(e, None) == {n} && KeysIn(e) == {key} && Constants(e) == {c}
            && Holds(e, {KeyAtom(key, value)})
  {
    hide Nested, Off;
    NestedFacts(n, key, value, 0);
    var (o, t) := (Nested(n, key, value), Off(c));
    OffFacts(c);
    SingleFacts(t);
    ListFacts(o, [t]);
    assert [o] + [t] == [o, t] && HoldsAny([o, t], {KeyAtom(key, value)});
  }

  /** The judgement never hides production code, over expressions with these gaps, keys and constants. */
  ghost predicate SoundFor(gaps: set<nat>, keys: set<string>, constants: set<Constant>) {
    forall e: Cfg, on: set<Atom> ::
      InClass(e, gaps, keys, constants) && JudgedTestOnly(Print(e)) ==> !Holds(e, on)
  }

  predicate InClass(e: Cfg, gaps: set<nat>, keys: set<string>, constants: set<Constant>) {
    Gaps(e, None) <= gaps && KeysIn(e) <= keys && Constants(e) <= constants
  }

  /** The judgement is sound on a class of expressions if and only if the class has no keys at all, or
      none named `test` or `doctest` and either no operand after a key-value atom or no constant. */
  lemma SoundIff(gaps: set<nat>, keys: set<string>, constants: set<Constant>)
    ensures SoundFor(gaps, keys, constants) <==> keys == {} || (NoTestKey(keys) && (gaps == {} || constants == {}))
  {
    if keys == {} || (NoTestKey(keys) && (gaps == {} || constants == {})) {
      forall e: Cfg, on: set<Atom> | InClass(e, gaps, keys, constants) && JudgedTestOnly(Print(e))
        ensures !Holds(e, on)
      {
        hide JudgedTestOnly, Holds;
        if keys == {} { NoKeysIsPlain(e); EndPlain(e); } else { GapsExact(e, None); }
        TestOnlyIsNeverEnabled(e, on);
      }
    } else if !NoTestKey(keys) {
      var k := if "test" in keys then "test" else "doctest";
      TestKeyHides(k, "");
      assert InClass(KeyValue(k, ""), gaps, keys, constants) && Holds(KeyValue(k, ""), {KeyAtom(k, "")});
    } else {
      hide JudgedTestOnly, Holds, Hidden, Gaps, KeysIn, Constants;
      var g :| g in gaps;
      var k :| k in keys;
      var c :| c in constants;
      KeyValueCanHideProductionCode(g, k, "", c);
      assert InClass(Hidden(g, k, "", c), gaps, keys, constants) && Holds(Hidden(g, k, "", c), {KeyAtom(k, "")});
    }
  }

  lemma TestKeyHides(k: string, value: string)
    requires IsTestName(k)
    ensures var e := KeyValue(k, value);
            JudgedTestOnly(Print(e)) && Gaps(e, None) == {} && KeysIn(e) == {k} && Constants(e) == {}
  {
    KeyStep([Ident(k), Equals], 0, k);
  }
}
