/** The Euclid loop of the interpreter's own tests, as a whole function: `while b != 0 { t = b;
    b = a % b; a = t }` over u8. The correct rotation is accepted whatever the solver, the swapped
    and the stale back edge are accepted by no sound one, and the hypotheses of the main theorem are
    met by an actual pair of runs. */
module Euclid {
  import opened Wrappers
  import opened Bits
  import opened Smt
  import opened TrustIr
  import opened SymbolicFold
  import opened EntryEdge
  import opened Mir
  import opened LoopVc
  import opened LoopConv
  import opened MirAnalysis
  import opened LoopModel
  import opened Bridge
  import opened WholeRun
  import opened Discharge

  const BYTE: ScalarTy := UInt(Size8)

  function Copied(dst: Local, src: Local): Statement {
    Assign(Plain(dst), Use(Read(Plain(src))))
  }

  /** Locals 1 and 2 are the arguments, 3 is `a`, 4 is `b`, 5 is `t`. */
  function EuclidBody(): Body {
    Body([BlockData([Copied(3, 1), Copied(4, 2)], Goto(1)),
          BlockData([], SwitchInt(Read(Plain(4)), [(0, 3)], 2)),
          BlockData([Copied(5, 4), Assign(Plain(4), BinaryOp(MRem, Read(Plain(3)), Read(Plain(4)))), Copied(3, 5)],
              Goto(1)),
          BlockData([], Effect([]))],
         2, map[1 := BYTE, 2 := BYTE, 3 := BYTE, 4 := BYTE, 5 := BYTE])
  }

  function Entry(): Block {
    Block(0, [(1, U8), (2, U8)], [Node(Br(1, [1, 2]), [])])
  }

  function Header(): Block {
    Block(1, [(10, U8), (11, U8)],
          [Node(Const(U8, Int(0)), [20]), Node(ICmp(CmpNe, U8, 11, 20), [21]), Node(CondBr(21, 2, [], 3, []), [])])
  }

  /** The back-edge args are the bridge's to get right. */
  function Latch(backArgs: seq<ValueId>): Block {
    Block(2, [], [Node(Copy(U8, 11), [22]), Node(BinInst(URem, U8, 10, 11), [23]), Node(Copy(U8, 22), [24]),
                  Node(Br(1, backArgs), [])])
  }

  function Exit(): Block {
    Block(3, [], [Node(OtherInst, [])])
  }

  function EuclidFunc(backArgs: seq<ValueId>): Func {
    Func(0, [Entry(), Header(), Latch(backArgs), Exit()])
  }

  const PARAMS: seq<BlockParam> := [BlockParam(3, 10), BlockParam(4, 11)]
  const PREDS: seq<seq<BasicBlock>> := [[], [0, 2], [1], [1]]

  function EuclidUnit(backArgs: seq<ValueId>): Unit {
    Unit(EuclidBody(), PREDS, map[1 := {1, 2, 3}], EuclidFunc(backArgs), map[1 := PARAMS])
  }

  lemma UnitIsWellFormed(backArgs: seq<ValueId>)
    ensures WellFormedUnit(EuclidUnit(backArgs))
  {
    assert CaseTargets([(0, 3)]) == [3];
  }

  // --- The MIR side -----------------------------------------------------------------------------------

  function Skel(): Skeleton {
    Skeleton(0, 2, Branch(Some(4), 2, Some(3)), [2])
  }

  lemma EuclidControlFlow()
    requires WellFormedBody(EuclidBody())
    ensures ControlFlow(EuclidBody(), PREDS, {1, 2, 3}, 1, {3, 4}) == Some(Skel())
  {
    var body := EuclidBody();
    assert HeaderBranch(body.blocks[1], {3, 4}) == Some(Branch(Some(4), 2, Some(3)));
  }

  function LatchStmts(): seq<SpecStmt> {
    [SpecStmt(Param(5), SpecUse(SpecVar(Param(4), BYTE))),
     SpecStmt(Param(4), SpecBinary(SpecRem, BYTE, SpecVar(Param(3), BYTE), SpecVar(Param(4), BYTE))),
     SpecStmt(Param(3), SpecUse(SpecVar(Param(5), BYTE)))]
  }

  lemma EuclidConverts()
    requires InRange(EuclidBody(), [1, 2])
    ensures ConvBlocks(EuclidBody(), Conv([], false, {3, 4}), [1, 2]) == Some(Conv(LatchStmts(), true, {3, 4, 5}))
  {
    var (l, k) := (LatchStmts(), {3, 4, 5});
    assert [] + [l[0]] == l[..1] && l[..1] + [l[1]] == l[..2] && l[..2] + [l[2]] == l;
    assert {3, 4} + {5} == k && k + {4} == k && k + {3} == k;
  }

  lemma EuclidEntryArgs()
    ensures EntryArgs(EuclidBody(), 0, PARAMS, [BYTE, BYTE]) ==
        Some([SpecVar(EntryArg(1), BYTE), SpecVar(EntryArg(2), BYTE)])
  {
    var body := EuclidBody();
    assert EntryValue(body, 0, 3) == Some(SpecVar(EntryArg(1), BYTE));
    hide EntryValue;
    assert PARAMS[1..] == [BlockParam(4, 11)] && [BlockParam(4, 11)][1..] == [] && [BYTE, BYTE][1..] == [BYTE] &&
        [BYTE][1..] == [];
    assert EntryArgs(body, 0, [], []) == Some([]);
    assert [SpecVar(EntryArg(2), BYTE)] + [] == [SpecVar(EntryArg(2), BYTE)];
    assert [SpecVar(EntryArg(1), BYTE)] + [SpecVar(EntryArg(2), BYTE)] ==
        [SpecVar(EntryArg(1), BYTE), SpecVar(EntryArg(2), BYTE)];
  }

  function EuclidModel(): Model {
    Model(MirLoop([(Param(3), BYTE), (Param(4), BYTE)],
                  [SpecVar(EntryArg(1), BYTE), SpecVar(EntryArg(2), BYTE)],
                  LatchStmts(),
                  [SpecVar(Param(3), BYTE), SpecVar(Param(4), BYTE)],
                  Some(SpecVar(Param(4), BYTE))),
          [2], 0, [BYTE, BYTE])
  }

  lemma EuclidParams()
    ensures ParamSet(PARAMS) == {3, 4} && ParamTys(EuclidBody(), PARAMS) == Some([BYTE, BYTE])
  {
    var body := EuclidBody();
    assert ParamTys(body, []) == Some([]) && [BYTE] + [] == [BYTE] && [BYTE] + [BYTE] == [BYTE, BYTE];
  }

  lemma EuclidModelBuilds()
    requires WellFormedBody(EuclidBody()) && InRange(EuclidBody(), PREDS[1])
    ensures BuildModel(EuclidBody(), PREDS, {1, 2, 3}, 1, PARAMS) == Some(EuclidModel())
  {
    hide ControlFlow, ConvBlocks, EntryArgs, ParamTys, ParamSet, SkeletonOk, WellFormedBody;
    EuclidControlFlow();
    EuclidConverts();
    EuclidEntryArgs();
    EuclidParams();
    assert [1] + Skel().chain == [1, 2];
    assert HeaderParams(PARAMS, [BYTE, BYTE]) == EuclidModel().mirLoop.headerParams;
    assert ParamOperands(PARAMS, [BYTE, BYTE]) == EuclidModel().mirLoop.latchArgs;
  }

  // --- The emitted side ---------------------------------------------------------------------------------

  const A: Expr := Var(Param(3), 8)
  const B: Expr := Var(Param(4), 8)

  function HeaderEnv(): SymEnv {
    var zero := MkConst(BitAnd(Wrap(0, 64), LowMask(8)), 8);
    map[10 := A, 11 := B, 20 := zero, 21 := Cset(CmpCond(CmpNe, B, zero))]
  }

  function LatchEnv(): SymEnv {
    HeaderEnv()[22 := B][23 := RemExpr(A, B)][24 := B]
  }

  lemma HeaderFolds()
    ensures FoldBody(map[10 := A, 11 := B], Insts(Header())) == Some(HeaderEnv())
  {
    hide Wrap, Pow2, BitAnd, LowMask;
  }

  lemma LatchFolds(e: SymEnv, backArgs: seq<ValueId>)
    requires 10 in e && 11 in e && e[10] == A && e[11] == B
    ensures FoldBody(e, Insts(Latch(backArgs))) == Some(e[22 := B][23 := RemExpr(A, B)][24 := B])
  {
    hide Wrap, Pow2;
    var n := Insts(Latch(backArgs));
    var e1 := e[22 := B];
    var e2 := e1[23 := RemExpr(A, B)];
    var e3 := e2[24 := B];
    hide InterpInst;
    assert n[1..][1..] == [n[2]] && [n[2]][1..] == [];
    assert FoldBody(e2, [n[2]]) == Some(e3);
  }

  lemma HeaderBinds()
    ensures 10 in HeaderEnv() && 11 in HeaderEnv() && HeaderEnv()[10] == A && HeaderEnv()[11] == B
  {
    hide Wrap, Pow2, BitAnd, LowMask;
  }

  /** Only the entry block and the latch reach the header, on one arm each. */
  lemma EuclidEdges(backArgs: seq<ValueId>)
    ensures EdgesTo(Terminator(Entry()), 1) == [[1, 2]]
    ensures EdgesTo(Terminator(Header()), 1) == [] && EdgesTo(Terminator(Header()), 2) == [[]]
    ensures EdgesTo(Terminator(Latch(backArgs)), 1) == [backArgs] && EdgesTo(Terminator(Exit()), 1) == []
  {
    assert Terminator(Entry()) == Br(1, [1, 2]) && Terminator(Header()) == CondBr(21, 2, [], 3, []);
    assert Terminator(Latch(backArgs)) == Br(1, backArgs) && Terminator(Exit()) == OtherInst;
  }

  lemma EuclidChain(backArgs: seq<ValueId>)
    ensures ChainSpec([Header(), Latch(backArgs)], 1, map[10 := A, 11 := B], true) == ResolveArgs(LatchEnv(), backArgs)
  {
    hide FoldBody, EdgesTo, ResolveArgs, HeaderEnv, Insts, Terminator, Wrap, Pow2;
    HeaderFolds();
    HeaderBinds();
    LatchFolds(HeaderEnv(), backArgs);
    EuclidEdges(backArgs);
  }

  lemma EuclidBlocks(backArgs: seq<ValueId>)
    ensures FindBlock(EuclidFunc(backArgs).blocks, 0) == Some(Entry())
    ensures FindBlock(EuclidFunc(backArgs).blocks, 1) == Some(Header())
    ensures FindBlock(EuclidFunc(backArgs).blocks, 2) == Some(Latch(backArgs))
  {
    hide Entry, Header, Latch, Exit;
    BlockIds(backArgs);
    assert FindBlock([Latch(backArgs), Exit()], 2) == Some(Latch(backArgs));
  }

  lemma BlockIds(backArgs: seq<ValueId>)
    ensures Entry().id == 0 && Header().id == 1 && Latch(backArgs).id == 2 && Exit().id == 3
  {
  }

  lemma EuclidArms(backArgs: seq<ValueId>)
    ensures OnlyModelledArms(EuclidFunc(backArgs), 1, 0, 2) &&
        FindChain(EuclidFunc(backArgs), [2]) == Some([Latch(backArgs)])
  {
    var f := EuclidFunc(backArgs);
    EuclidEdges(backArgs);
    EuclidBlocks(backArgs);
    hide EdgesTo, FindBlock, Entry, Header, Latch, Exit;
    forall i | 0 <= i < 4
      ensures ArmsOk(f.blocks[i], 1, 0, 2)
    {
      assert i == 0 || i == 1 || i == 2 || i == 3;
    }
    assert [Latch(backArgs)] + [] == [Latch(backArgs)];
  }

  /** The one node that defines each of the values 20 to 24. */
  function Defining(k: ValueId, backArgs: seq<ValueId>): Node
    requires 20 <= k <= 24
  {
    if k <= 21 then Header().body[k - 20] else Latch(backArgs).body[k - 22]
  }

  lemma ResultsAre(backArgs: seq<ValueId>, n: Node) returns (k: ValueId)
    requires InFunc(EuclidFunc(backArgs), n) && n.results != []
    ensures 20 <= k <= 24 && n == Defining(k, backArgs) && n.results == [k]
  {
    k := n.results[0];
  }

  lemma ArgsUndefined(backArgs: seq<ValueId>)
    ensures Undefined(EuclidFunc(backArgs), 1) && Undefined(EuclidFunc(backArgs), 2)
    ensures Undefined(EuclidFunc(backArgs), 10) && Undefined(EuclidFunc(backArgs), 11)
  {
    var f := EuclidFunc(backArgs);
    forall n | InFunc(f, n)
      ensures 1 !in n.results && 2 !in n.results && 10 !in n.results && 11 !in n.results
    {
      if n.results != [] { var k := ResultsAre(backArgs, n); }
    }
  }

  const ENTRY_VARS: seq<Expr> := [Var(EntryArg(1), 8), Var(EntryArg(2), 8)]

  lemma EuclidEntryEdge(backArgs: seq<ValueId>)
    ensures EdgeArgsThroughDefs(EuclidFunc(backArgs), 0, 1, ArgNames(EuclidBody())) == Some(ENTRY_VARS)
  {
    hide DefMap, FindBlock, EdgesTo, EuclidFunc, EuclidBody, ArgNames, Entry, Terminator, Undefined, Width;
    var (f, base) := (EuclidFunc(backArgs), ArgNames(EuclidBody()));
    EuclidEdges(backArgs);
    EuclidBlocks(backArgs);
    EntryNotEmpty();
    ArgsUndefined(backArgs);
    UndefinedNotInMap(f, 1);
    UndefinedNotInMap(f, 2);
    ArgBase();
    TwoResolved(DefMap(f), base);
  }

  lemma EntryNotEmpty()
    ensures Entry().body != []
  {
  }

  lemma ArgBase()
    ensures ArgNames(EuclidBody()) == map[1 := Var(EntryArg(1), 8), 2 := Var(EntryArg(2), 8)]
  {
  }

  lemma TwoResolved(defs: Defs, base: Base)
    requires 1 !in defs && 2 !in defs && base == map[1 := Var(EntryArg(1), 8), 2 := Var(EntryArg(2), 8)]
    ensures EntryEdge.ResolveAll(defs, [1, 2], base) == Some(ENTRY_VARS)
  {
    assert ResolveDef(defs, 1, base, 0) == Some(Var(EntryArg(1), 8));
    hide ResolveDef;
    assert [1, 2][1..] == [2] && [2][1..] == [];
    assert EntryEdge.ResolveAll(defs, [], base) == Some([]);
    assert [Var(EntryArg(2), 8)] + [] == [Var(EntryArg(2), 8)];
    assert [Var(EntryArg(1), 8)] + [Var(EntryArg(2), 8)] == ENTRY_VARS;
  }

  /** The emitted edges, for back-edge args that are bytes of the latch. */
  lemma EuclidBridgeBuilds(v: ValueId, w: ValueId)
    requires v in LatchEnv() && w in LatchEnv() && Width(LatchEnv()[v]) == 8 && Width(LatchEnv()[w]) == 8
    ensures BuildBridge(EuclidBody(), EuclidFunc([v, w]), 1, PARAMS, EuclidModel()) ==
            Some(BridgeEdges(ENTRY_VARS, [LatchEnv()[v], LatchEnv()[w]]))
  {
    hide LatchEnv, ChainSpec, Seeds, ResolveArgs, EdgeArgsThroughDefs, FindChain, FindBlock,
      OnlyModelledArms, EuclidBody, EuclidFunc, Header, Latch, HeaderParamsMatch, ArgNames, Width;
    EuclidBlocks([v, w]);
    EuclidArms([v, w]);
    EuclidChain([v, w]);
    EuclidEntryEdge([v, w]);
    EuclidSeeds();
    TwoArgs(LatchEnv(), v, w);
    HeaderMatches();
    assert [Header()] + [Latch([v, w])] == [Header(), Latch([v, w])];
    EntryWidths();
  }

  lemma EntryWidths()
    ensures WidthsMatch(ENTRY_VARS, [BYTE, BYTE])
  {
  }

  lemma HeaderMatches()
    ensures HeaderParamsMatch(Header(), PARAMS, [BYTE, BYTE])
  {
  }

  lemma EuclidSeeds()
    ensures Seeds(PARAMS, [BYTE, BYTE]) == map[10 := A, 11 := B]
  {
    assert Seeds([BlockParam(3, 10)], [BYTE]) == map[10 := A];
  }

  lemma TwoArgs(env: SymEnv, v: ValueId, w: ValueId)
    requires v in env && w in env
    ensures ResolveArgs(env, [v, w]) == Some([env[v], env[w]])
  {
    assert [v, w][1..] == [w] && [w][1..] == [] && ResolveArgs(env, []) == Some([]);
    assert [env[w]] + [] == [env[w]];
    assert [env[v]] + [env[w]] == [env[v], env[w]];
  }

  // --- Verdicts -------------------------------------------------------------------------------------------

  lemma EuclidStore()
    ensures var store := EncodeStore(LatchStmts());
            store.Some? && Param(3) in store.value && store.value[Param(3)] == B &&
            Param(4) in store.value && store.value[Param(4)] == RemExpr(A, B)
  {
    assert EncodeStore([]) == Some(map[]);
  }

  /** The obligations of the four slots: two on the entry edge, two on the back edge. */
  lemma EuclidObligations(x: Expr, y: Expr)
    ensures BuildObligations(EuclidModel().mirLoop, ENTRY_VARS, [x, y]) ==
            Some([Obligation(ENTRY_VARS[0], ENTRY_VARS[0], None), Obligation(ENTRY_VARS[1], ENTRY_VARS[1], None),
                  Obligation(x, B, Some(B)), Obligation(y, RemExpr(A, B), Some(B))])
  {
    EuclidStore();
    var lp := EuclidModel().mirLoop;
    var store := EncodeStore(lp.latchStmts).value;
    hide EncodeStore;
    assert GuardOk(lp) by { assert lp.headerParams[1] in lp.headerParams; }
    assert LoopVc.ResolveAll(store, lp.latchArgs) == [B, RemExpr(A, B)];
    assert LoopVc.ResolveAll(map[], lp.preheaderArgs) == ENTRY_VARS;
    var entry := [Obligation(ENTRY_VARS[0], ENTRY_VARS[0], None), Obligation(ENTRY_VARS[1], ENTRY_VARS[1], None)];
    var back := [Obligation(x, B, Some(B)), Obligation(y, RemExpr(A, B), Some(B))];
    assert PairUp(ENTRY_VARS, ENTRY_VARS, None) == entry;
    assert GuardExpr(lp) == Some(B) && PairUp([x, y], [B, RemExpr(A, B)], Some(B)) == back;
    assert entry + back == [entry[0], entry[1], back[0], back[1]];
  }

  lemma EuclidSlots(v: ValueId, w: ValueId)
    requires v in LatchEnv() && w in LatchEnv() && Width(LatchEnv()[v]) == 8 && Width(LatchEnv()[w]) == 8
    ensures WellFormedUnit(EuclidUnit([v, w])) && ObligationOf(EuclidUnit([v, w]), 1).Some?
    ensures SlotObligations(ObligationOf(EuclidUnit([v, w]), 1).value) ==
            Some([Obligation(ENTRY_VARS[0], ENTRY_VARS[0], None), Obligation(ENTRY_VARS[1], ENTRY_VARS[1], None),
                  Obligation(LatchEnv()[v], B, Some(B)), Obligation(LatchEnv()[w], RemExpr(A, B), Some(B))])
  {
    hide BuildModel, BuildBridge, BuildObligations, LatchEnv, EuclidBody, EuclidFunc, WellFormedBody, ListsEdges,
        InRange, Width;
    UnitIsWellFormed([v, w]);
    EuclidModelBuilds();
    EuclidBridgeBuilds(v, w);
    EuclidObligations(LatchEnv()[v], LatchEnv()[w]);
  }

  lemma LatchValues()
    ensures {10, 23, 24} <= LatchEnv().Keys && LatchEnv()[10] == A && LatchEnv()[23] == RemExpr(A, B) &&
        LatchEnv()[24] == B
    ensures Width(A) == 8 && Width(B) == 8 && Width(RemExpr(A, B)) == 8
  {
    hide Wrap, Pow2, BitAnd, LowMask;
  }

  lemma {:induction false} IdenticalFold(obs: seq<Obligation>, discharge: LoopVc.Discharge)
    requires forall k :: 0 <= k < |obs| ==> obs[k].bridge == obs[k].mir
    ensures FoldVerdicts(obs, discharge) == Refined
  {
    if obs != [] { IdenticalFold(obs[1..], discharge); }
  }

  /** The correct rotation is accepted by every solver, as its sides are built alike. */
  lemma CorrectRotationRefines(discharge: LoopVc.Discharge)
    ensures WellFormedUnit(EuclidUnit([24, 23])) && Check(EuclidUnit([24, 23]), discharge) == Ok
    ensures ObligationOf(EuclidUnit([24, 23]), 1).Some?
  {
    hide LatchEnv, WellFormedUnit, ObligationOf, RemExpr, BuildObligations, FoldVerdicts, EuclidUnit, InOrder;
    HeaderKnown([24, 23]);
    LatchValues();
    EuclidSlots(24, 23);
    var u := EuclidUnit([24, 23]);
    IdenticalFold(SlotObligations(ObligationOf(u, 1).value).value, discharge);
  }

  lemma HeaderKnown(backArgs: seq<ValueId>)
    ensures 1 in EuclidUnit(backArgs).headerParams && InOrder(EuclidUnit(backArgs).headerParams.Keys) == [1]
  {
  }

  /** With a = 0 and b = 1 the first slot must become 1; the swapped and the stale back edge thread 0. */
  lemma WrongFirstSlot(x: Expr, s: Valuation)
    requires (x == A || x == RemExpr(A, B)) && s == map[Param(3) := 0, Param(4) := 1]
    ensures GuardHolds(Some(B), s) && Eval(x, s) != Eval(B, s)
  {
    WrapSmall(0, 8);
    WrapSmall(1, 8);
    RemExprValue(A, B, s);
  }

  /** Neither is accepted by any sound solver. */
  lemma WrongBackEdgeIsRejected(v: ValueId, w: ValueId, discharge: LoopVc.Discharge)
    requires (v == 23 && w == 24) || (v == 10 && w == 23)
    requires SoundSolver(discharge)
    ensures WellFormedUnit(EuclidUnit([v, w])) && Check(EuclidUnit([v, w]), discharge).Err?
  {
    hide LatchEnv, Check, WellFormedUnit, ObligationOf, RemExpr, BuildObligations, Eval, EuclidUnit, SoundSolver;
    HeaderKnown([v, w]);
    LatchValues();
    EuclidSlots(v, w);
    var s: Valuation := map[Param(3) := 0, Param(4) := 1];
    WrongFirstSlot(LatchEnv()[v], s);
    WrongSlotIsRejected(EuclidUnit([v, w]), discharge, 1, 2, s);
  }

  // --- A pair of runs ---------------------------------------------------------------------------------------

  function Byte(n: nat): Value
    requires n < 8
  {
    Pow2Exceeds(8);
    Val(n, 8)
  }

  function Started(e: Env): Env
    requires 1 in e && 2 in e
  {
    e[10 := e[1]][11 := e[2]]
  }

  function Tested(e: Env): Env {
    e[20 := Byte(0)][21 := BoolVal(true)]
  }

  function Computed(e: Env): Env {
    e[22 := Byte(4)][23 := Byte(2)][24 := Byte(4)]
  }

  function Rotated(e: Env): Env {
    Computed(e)[10 := Byte(4)][11 := Byte(2)]
  }

  const ARGS: map<nat, Value> := map[1 := Byte(6), 2 := Byte(4)]

  /** gcd(6, 4): entry, header, latch, header. */
  function EmittedRun(): seq<State> {
    var e := Started(ARGS);
    [State(0, ARGS), State(1, e), State(2, Tested(e)), State(1, Rotated(Tested(e)))]
  }

  function Assigned(s: Store): Store
    requires 1 in s && 2 in s
  {
    s[3 := s[1]][4 := s[2]]
  }

  function Iterated(s: Store): Store {
    s[5 := Byte(4)][4 := Byte(2)][3 := Byte(4)]
  }

  function MirRun(): seq<MirState> {
    var s := Assigned(ARGS);
    [MirState(0, ARGS), MirState(1, s), MirState(2, s), MirState(1, Iterated(s))]
  }

  lemma HeaderRuns(e: Env)
    requires 11 in e && e[11] == Byte(4)
    ensures BodySteps(e, Insts(Header()), e[20 := Byte(0)][21 := BoolVal(true)])
  {
    var n := Insts(Header());
    var e1: Env := e[20 := Byte(0)];
    var e2: Env := e1[21 := BoolVal(true)];
    assert NodeStep(e, n[0], e1);
    assert NodeStep(e1, n[1], e2);
  }

  lemma LatchRuns(e: Env)
    requires 10 in e && 11 in e && e[10] == Byte(6) && e[11] == Byte(4)
    ensures BodySteps(e, Insts(Latch([24, 23])), e[22 := Byte(4)][23 := Byte(2)][24 := Byte(4)])
  {
    var n := Insts(Latch([24, 23]));
    var e1: Env := e[22 := Byte(4)];
    var e2: Env := e1[23 := Byte(2)];
    var e3: Env := e2[24 := Byte(4)];
    assert NodeStep(e, n[0], e1);
    assert NodeStep(e1, n[1], e2);
    assert NodeStep(e2, n[2], e3);
  }

  lemma BindTwo(e: Env, p: ValueId, q: ValueId, x: ValueId, y: ValueId)
    requires x in e && y in e
    ensures Bind(e, e, [(p, U8), (q, U8)], [x, y]) == e[p := e[x]][q := e[y]]
  {
    var e1: Env := e[p := e[x]];
    assert Bind(e1, e, [(q, U8)], [y]) == e1[q := e[y]];
  }

  lemma BlockShapes()
    ensures Entry().body != [] && Insts(Entry()) == [] && Terminator(Entry()) == Br(1, [1, 2])
    ensures Header().body != [] && Header().params == [(10, U8), (11, U8)] &&
        Terminator(Header()) == CondBr(21, 2, [], 3, [])
    ensures Latch([24, 23]).body != [] && Latch([24, 23]).params == [] && Terminator(Latch([24, 23])) == Br(1, [24, 23])
  {
  }

  lemma EnterHeader(e: Env)
    requires 1 in e && 2 in e
    ensures BlockStep(EuclidFunc([24, 23]), State(0, e), State(1, Started(e)))
  {
    hide FindBlock, Pow2, EuclidFunc, Insts, Terminator, Entry, Header;
    EuclidBlocks([24, 23]);
    BlockShapes();
    BindTwo(e, 10, 11, 1, 2);
    assert EdgeStep(e, Terminator(Entry()), Header(), [1, 2], Started(e));
  }

  lemma EnterLatch(e: Env)
    requires 11 in e && e[11] == Byte(4)
    ensures BlockStep(EuclidFunc([24, 23]), State(1, e), State(2, Tested(e)))
  {
    hide FindBlock, Pow2, BodySteps, EuclidFunc, Insts, Terminator, Header, Latch;
    EuclidBlocks([24, 23]);
    BlockShapes();
    HeaderRuns(e);
    assert EdgeStep(Tested(e), Terminator(Header()), Latch([24, 23]), [], Tested(e));
  }

  lemma BackToHeader(e: Env)
    requires 10 in e && 11 in e && e[10] == Byte(6) && e[11] == Byte(4)
    ensures BlockStep(EuclidFunc([24, 23]), State(2, e), State(1, Rotated(e)))
  {
    hide FindBlock, Pow2, BodySteps, EuclidFunc, Insts, Terminator, Header, Latch;
    EuclidBlocks([24, 23]);
    BlockShapes();
    LatchRuns(e);
    BindTwo(Computed(e), 10, 11, 24, 23);
    assert EdgeStep(Computed(e), Terminator(Latch([24, 23])), Header(), [24, 23], Rotated(e));
  }

  lemma EmittedSteps()
    ensures IsRun(EuclidFunc([24, 23]), EmittedRun())
  {
    hide BlockStep, EuclidFunc, Byte, Pow2;
    var (f, run, e) := (EuclidFunc([24, 23]), EmittedRun(), Started(ARGS));
    EnterHeader(ARGS);
    EnterLatch(e);
    BackToHeader(Tested(e));
    forall i | 0 <= i < 3
      ensures BlockStep(f, run[i], run[i + 1])
    {
      assert i == 0 || i == 1 || i == 2;
    }
  }

  // --- The same run in MIR -----------------------------------------------------------------------------------

  lemma Assigns(store: Store, stmts: seq<Statement>, mid: Store, store': Store)
    requires stmts != [] && StmtStep(EuclidBody(), store, stmts[0], mid) &&
        StmtsStep(EuclidBody(), mid, stmts[1..], store')
    ensures StmtsStep(EuclidBody(), store, stmts, store')
  {
  }

  ghost predicate Bytes(s: Store) {
    forall l :: l in s ==> s[l].width == 8
  }

  lemma PreheaderRuns(s: Store)
    requires Bytes(s) && 1 in s && 2 in s
    ensures MirStep(EuclidBody(), MirState(0, s), MirState(1, Assigned(s)))
  {
    hide Pow2;
    var (body, s2) := (EuclidBody(), Assigned(s));
    var n := body.blocks[0].statements;
    var s1: Store := s[3 := s[1]];
    assert StmtStep(body, s, n[0], s1);
    assert StmtStep(body, s1, n[1], s2);
    assert TermStep(body, s2, Goto(1), 1, s2);
  }

  lemma SwitchRuns(s: Store)
    requires Bytes(s) && 4 in s && s[4] == Byte(4)
    ensures MirStep(EuclidBody(), MirState(1, s), MirState(2, s))
  {
    hide Pow2;
    var body := EuclidBody();
    WrapSmall(0, 8);
    hide Wrap;
    assert TermStep(body, s, body.blocks[1].terminator, 2, s);
  }

  lemma BodyRuns(s: Store)
    requires Bytes(s) && 3 in s && s[3] == Byte(6) && 4 in s && s[4] == Byte(4)
    ensures MirStep(EuclidBody(), MirState(2, s), MirState(1, Iterated(s)))
  {
    hide Pow2;
    var (body, s3) := (EuclidBody(), Iterated(s));
    var n := body.blocks[2].statements;
    var s1: Store := s[5 := Byte(4)];
    var s2: Store := s1[4 := Byte(2)];
    assert StmtStep(body, s1, n[1], s2) by { hide EvalBinary; }
    assert StmtStep(body, s2, n[2], s3);
    assert TermStep(body, s3, Goto(1), 1, s3);
    hide StmtStep, TermStep;
    Assigns(s1, n[1..], s2, s3);
  }

  lemma MirSteps()
    ensures IsMirRun(EuclidBody(), MirRun())
  {
    hide MirStep, EuclidBody, Pow2;
    var (body, run, s) := (EuclidBody(), MirRun(), Assigned(ARGS));
    PreheaderRuns(ARGS);
    SwitchRuns(s);
    BodyRuns(s);
    ArgsTyped();
    forall i | 0 <= i < 3
      ensures MirStep(body, run[i], run[i + 1])
    {
      assert i == 0 || i == 1 || i == 2;
    }
  }

  lemma ArgsTyped()
    ensures WellTyped(EuclidBody(), ARGS)
  {
    hide Pow2;
  }

  // --- The hypotheses of the main theorem are met ---------------------------------------------------------------

  const NAMED_ARGS: Valuation := map[EntryArg(1) := 6, EntryArg(2) := 4]

  const BASE: Base := map[1 := Var(EntryArg(1), 8), 2 := Var(EntryArg(2), 8)]

  lemma OneDefinition(n1: Node, n2: Node, v: ValueId)
    requires InFunc(EuclidFunc([24, 23]), n1) && InFunc(EuclidFunc([24, 23]), n2) && v in n1.results && v in n2.results
    ensures n1 == n2
  {
    hide InFunc, EuclidFunc, Defining;
    var k1 := ResultsAre([24, 23], n1);
    var k2 := ResultsAre([24, 23], n2);
  }

  lemma ParamsAreFresh(b: Block, k: nat)
    requires b in EuclidFunc([24, 23]).blocks && k < |b.params|
    ensures b.id == 0 || b.params[k].0 == 10 || b.params[k].0 == 11
    ensures DistinctParams(b.params)
  {
  }

  lemma NoEdgeToEntry(b: Block)
    requires b in EuclidFunc([24, 23]).blocks
    ensures b.body != [] && EdgesTo(Terminator(b), 0) == []
  {
  }

  lemma EuclidIsSsa()
    ensures SsaForm(EuclidFunc([24, 23]), ArgNames(EuclidBody()))
  {
    hide EuclidFunc, ArgNames, EuclidBody, InFunc, Undefined, DistinctParams, EdgesTo, Terminator;
    var f := EuclidFunc([24, 23]);
    ArgBase();
    ArgsUndefined([24, 23]);
    forall n1, n2, v | InFunc(f, n1) && InFunc(f, n2) && v in n1.results && v in n2.results
      ensures n1 == n2
    {
      OneDefinition(n1, n2, v);
    }
    forall n, v | InFunc(f, n) && v in n.results
      ensures v !in BASE
    {
      ArgsNotResults(n, v);
    }
    forall b, k | b in f.blocks && b.id != f.entry && 0 <= k < |b.params|
      ensures Undefined(f, b.params[k].0) && b.params[k].0 !in BASE
    {
      ParamsAreFresh(b, k);
      EntryIsZero();
    }
    forall b | b in f.blocks
      ensures (b.body != [] ==> EdgesTo(Terminator(b), f.entry) == []) && DistinctParams(b.params)
    {
      EntryIsZero();
      NoEdgeToEntry(b);
      NoParamsDistinct(b.params);
      if b.params != [] { ParamsAreFresh(b, 0); }
    }
  }

  lemma NoParamsDistinct(params: seq<(ValueId, Ty)>)
    ensures params == [] ==> DistinctParams(params)
  {
  }

  lemma EntryIsZero()
    ensures EuclidFunc([24, 23]).entry == 0
  {
  }

  lemma ArgsNotResults(n: Node, v: ValueId)
    requires InFunc(EuclidFunc([24, 23]), n) && v in n.results
    ensures v != 1 && v != 2
  {
    ArgsUndefined([24, 23]);
  }

  lemma EuclidStarts()
    ensures EntryState(EuclidFunc([24, 23]), ArgNames(EuclidBody()), EmittedRun()[0], NAMED_ARGS)
  {
    hide ArgNames, EuclidBody, Undefined, Pow2, Wrap, EuclidFunc, FindBlock, Header;
    ArgBase();
    ArgsUndefined([24, 23]);
    EntryIsZero();
    Pow2Exceeds(8);
    WrapSmall(6, 8);
    WrapSmall(4, 8);
  }

  const UNDECIDED: LoopVc.Discharge := ob => Inconclusive

  /** Every hypothesis of the main theorem is met by this function, a solver that decides nothing and
      the runs above, at the second visit of the header. */
  lemma HypothesesAreMet()
    ensures var u := EuclidUnit([24, 23]);
            && WellFormedUnit(u) && SoundSolver(UNDECIDED)
            && Check(u, UNDECIDED) == Ok && ObligationOf(u, 1).Some?
            && Paired(u.body, u.func, MirRun(), EmittedRun(), NAMED_ARGS)
            && |MirRun()| == 4 && MirRun()[1].block == 1 && MirRun()[3].block == 1
  {
    hide WellFormedUnit, Check, ObligationOf, Paired, Valid, EuclidBody, EuclidFunc, EmittedRun;
    CorrectRotationRefines(UNDECIDED);
    EuclidPaired();
  }

  lemma EuclidPaired()
    ensures Paired(EuclidBody(), EuclidFunc([24, 23]), MirRun(), EmittedRun(), NAMED_ARGS)
  {
    hide IsMirRun, IsRun, SsaForm, EntryState, ArgNames, EuclidFunc, Pow2;
    MirSteps();
    EmittedSteps();
    EuclidIsSsa();
    EuclidStarts();
  }
}
