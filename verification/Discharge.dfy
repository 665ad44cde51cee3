/** The per-function check (`check_loop_threading_refinements`): every loop header's obligation is
    built, deduplicated and discharged; one refuted or inconclusive loop fails the compile. */
module Discharge {
  import opened Wrappers
  import opened Smt
  import opened TrustIr
  import opened SymbolicFold
  import opened EntryEdge
  import opened Mir
  import opened LoopVc
  import opened LoopConv
  import opened MirAnalysis
  import opened LoopModel
  import opened Bridge
  import opened WholeRun

  /** One function under check: its MIR, its emitted code, and the header phis the bridge made. */
  datatype Unit = Unit(
    body: Body,
    preds: seq<seq<BasicBlock>>,
    dominated: map<BasicBlock, set<BasicBlock>>,
    func: Func,
    headerParams: map<BasicBlock, seq<BlockParam>>)

  ghost predicate WellFormedUnit(u: Unit) {
    && WellFormedBody(u.body) && ListsEdges(u.body, u.preds)
    && (forall i :: 0 <= i < |u.preds| ==> InRange(u.body, u.preds[i]))
    && (forall h :: h in u.headerParams ==> h < |u.body.blocks| && h in u.dominated)
  }

  datatype Fingerprint = Fingerprint(mirLoop: MirLoop, edges: BridgeEdges)

  /** A header's obligation; `None` when either side is out of the covered slice. */
  function ObligationOf(u: Unit, h: BasicBlock): Option<Fingerprint>
    requires WellFormedUnit(u) && h in u.headerParams
  {
    match BuildModel(u.body, u.preds, u.dominated[h], h, u.headerParams[h])
    case None => None
    case Some(model) =>
      BuiltShape(u.body, u.preds, u.dominated[h], h, u.headerParams[h]);
      match BuildBridge(u.body, u.func, h, u.headerParams[h], model)
      case None => None
      case Some(edges) => Some(Fingerprint(model.mirLoop, edges))
  }

  function VerdictOf(fp: Fingerprint, discharge: Discharge): Verdict {
    CheckLoopCarriedThreading(fp.mirLoop, fp.edges.pre, fp.edges.latch, discharge)
  }

  datatype CheckResult = Ok | Err(header: BasicBlock, verdict: Verdict)

  function CheckFrom(u: Unit, headers: seq<BasicBlock>, seen: set<Fingerprint>, discharge: Discharge): CheckResult
    requires WellFormedUnit(u) && forall i :: 0 <= i < |headers| ==> headers[i] in u.headerParams
    decreases headers
  {
    if headers == [] then Ok
    else
      var fp := ObligationOf(u, headers[0]);
      if fp.None? || fp.value in seen then CheckFrom(u, headers[1..], seen, discharge)
      else
        var v := VerdictOf(fp.value, discharge);
        if v.Refuted? || v.Inconclusive? then Err(headers[0], v)
        else CheckFrom(u, headers[1..], seen + {fp.value}, discharge)
  }

  // --- The order of the headers --------------------------------------------------------------------

  predicate Increasing(blocks: seq<BasicBlock>) {
    forall i, j :: 0 <= i < j < |blocks| ==> blocks[i] < blocks[j]
  }

  function Insert(b: BasicBlock, blocks: seq<BasicBlock>): seq<BasicBlock> {
    if blocks == [] || b <= blocks[0] then [b] + blocks else [blocks[0]] + Insert(b, blocks[1..])
  }

  lemma {:induction false} InsertKeeps(b: BasicBlock, blocks: seq<BasicBlock>)
    requires Increasing(blocks) && b !in blocks
    ensures Increasing(Insert(b, blocks)) && (forall x :: x in Insert(b, blocks) <==> x == b || x in blocks)
  {
    if blocks != [] && b > blocks[0] {
      var rest := Insert(b, blocks[1..]);
      InsertKeeps(b, blocks[1..]);
      assert blocks == [blocks[0]] + blocks[1..];
      forall j | 0 <= j < |rest| ensures blocks[0] < rest[j] {
        assert rest[j] in rest;
      }
    }
  }

  /** The keys in increasing order. */
  ghost function InOrder(keys: set<BasicBlock>): (r: seq<BasicBlock>)
    ensures Increasing(r) && forall x :: x in r <==> x in keys
  {
    if keys == {} then []
    else
      var k :| k in keys;
      InsertKeeps(k, InOrder(keys - {k}));
      Insert(k, InOrder(keys - {k}))
  }

  /** An increasing list is fixed by its elements. */
  lemma {:induction false} IncreasingIsUnique(a: seq<BasicBlock>, b: seq<BasicBlock>)
    requires Increasing(a) && Increasing(b) && forall x :: x in a <==> x in b
    ensures a == b
  {
    assert (a != [] ==> a[0] in b) && (b != [] ==> b[0] in a);
    if a != [] {
      assert a == [a[0]] + a[1..] && b == [b[0]] + b[1..];
      assert a[0] == b[0];
      forall x ensures x in a[1..] <==> x in b[1..] {
        assert x in a[1..] <==> x in a && x != a[0];
        assert x in b[1..] <==> x in b && x != b[0];
      }
      IncreasingIsUnique(a[1..], b[1..]);
    }
  }

  /** The keys of the map, whatever order they are found in, sorted by block. */
  method SortedHeaders(u: Unit) returns (headers: seq<BasicBlock>)
    ensures headers == InOrder(u.headerParams.Keys)
  {
    headers := [];
    var rest := u.headerParams.Keys;
    while rest != {}
      invariant rest <= u.headerParams.Keys && Increasing(headers)
      invariant forall x :: x in headers <==> x in u.headerParams.Keys - rest
      decreases rest
    {
      var k :| k in rest;
      InsertKeeps(k, headers);
      headers := Insert(k, headers);
      rest := rest - {k};
    }
    IncreasingIsUnique(headers, InOrder(u.headerParams.Keys));
  }

  /** The check of a whole function. */
  ghost function Check(u: Unit, discharge: Discharge): CheckResult
    requires WellFormedUnit(u)
  {
    CheckFrom(u, InOrder(u.headerParams.Keys), {}, discharge)
  }

  method CheckLoopThreadingRefinements(u: Unit, discharge: Discharge) returns (r: CheckResult)
    requires WellFormedUnit(u)
    ensures r == Check(u, discharge)
  {
    hide BuildBridge, BuildModel, CheckLoopCarriedThreading, InOrder;
    var headers := SortedHeaders(u);
    var seen: set<Fingerprint> := {};
    for i := 0 to |headers|
      invariant Check(u, discharge) == CheckFrom(u, headers[i..], seen, discharge)
    {
      assert headers[i..][0] == headers[i] && headers[i..][1..] == headers[i + 1..];
      var h := headers[i];
      var model := BuildMirLoopModel(u.body, u.preds, u.dominated[h], h, u.headerParams[h]);
      if model.None? { continue; }
      BuiltShape(u.body, u.preds, u.dominated[h], h, u.headerParams[h]);
      var edges := BuildBridgeEdges(u.body, u.func, h, u.headerParams[h], model.value);
      if edges.None? { continue; }
      var fp := Fingerprint(model.value.mirLoop, edges.value);
      if fp in seen { continue; }
      var v := VerdictOf(fp, discharge);
      if v.Refuted? || v.Inconclusive? { return Err(h, v); }
      seen := seen + {fp};
    }
    return Ok;
  }

  // --- The builder never yields a structural error ------------------------------------------------

  lemma ConvRvalueEncodes(body: Body, rv: Rvalue, readable: set<Local>, store: SymStore)
    requires ConvRvalue(body, rv, readable).Some?
    ensures EncodeRvalue(store, ConvRvalue(body, rv, readable).value).Some?
  {
  }

  lemma ConvStepEncodes(body: Body, c: Conv, stmt: Statement)
    requires EncodeStore(c.stmts).Some? && ConvStep(body, c, stmt).Some?
    ensures EncodeStore(ConvStep(body, c, stmt).value.stmts).Some?
  {
    if stmt.Assign? {
      hide ConvRvalue, EncodeRvalue;
      var c' := ConvStep(body, c, stmt).value;
      assert c'.stmts[..|c'.stmts| - 1] == c.stmts;
      ConvRvalueEncodes(body, stmt.rvalue, c.readable, EncodeStore(c.stmts).value);
    }
  }

  lemma {:induction false} ConvAllEncodes(body: Body, c: Conv, stmts: seq<Statement>)
    requires EncodeStore(c.stmts).Some? && ConvAll(body, c, stmts).Some?
    ensures EncodeStore(ConvAll(body, c, stmts).value.stmts).Some?
    decreases stmts
  {
    hide ConvStep, EncodeStore;
    if stmts != [] {
      ConvStepEncodes(body, c, stmts[0]);
      ConvAllEncodes(body, ConvStep(body, c, stmts[0]).value, stmts[1..]);
    }
  }

  lemma {:induction false} ConvBlocksEncodes(body: Body, c: Conv, blocks: seq<BasicBlock>)
    requires InRange(body, blocks) && EncodeStore(c.stmts).Some? && ConvBlocks(body, c, blocks).Some?
    ensures EncodeStore(ConvBlocks(body, c, blocks).value.stmts).Some?
    decreases blocks
  {
    hide ConvAll, EncodeStore;
    if blocks != [] {
      ConvAllEncodes(body, c, body.blocks[blocks[0]].statements);
      ConvBlocksEncodes(body, ConvAll(body, c, body.blocks[blocks[0]].statements).value, blocks[1..]);
    }
  }

  lemma GuardIsParam(data: BlockData, params: set<Local>)
    requires HeaderBranch(data, params).Some? && HeaderBranch(data, params).value.guard.Some?
    ensures HeaderBranch(data, params).value.guard.value in params
  {
    hide ResolveCond;
    ResolvedInParams(data.statements, OperandLocal(data.terminator.discr).value, params);
  }

  /** A built obligation always passes the verifier's structural checks: its error arm, which would
      skip the loop silently, is dead. */
  lemma NoStructuralError(body: Body, preds: seq<seq<BasicBlock>>, dominated: set<BasicBlock>, f: Func,
      header: BasicBlock,
                          params: seq<BlockParam>, model: Model, edges: BridgeEdges)
    requires WellFormedBody(body) && ListsEdges(body, preds) && header < |body.blocks| && InRange(body, preds[header])
    requires BuildModel(body, preds, dominated, header, params) == Some(model)
    requires |params| == |model.paramTys| && model.chain != [] &&
        BuildBridge(body, f, header, params, model) == Some(edges)
    ensures BuildObligations(model.mirLoop, edges.pre, edges.latch).Some?
  {
    hide BuildModel, BuildBridge, ConvBlocks, ControlFlow, EntryArgs, EncodeStore, HeaderBranch, WellFormedBody,
        ListsEdges, GuardOk;
    assert |preds| == |body.blocks| by { PredsLength(body, preds); }
    var sk, conv := AcceptedFrom(body, preds, dominated, f, header, params, model, edges);
    EdgeLengths(body, f, header, params, model, edges);
    LoopParts(body, preds, dominated, header, params);
    SkeletonRange(body, preds, header, ParamSet(params), sk);
    GuardIsOk(body, header, params, sk.branch, model);
    hide SkeletonOk;
    EmptyEncodes();
    ConvBlocksEncodes(body, Conv([], false, ParamSet(params)), [header] + sk.chain);
    EntryArgsAre(body, sk.preheader, params, model.paramTys);
  }

  lemma PredsLength(body: Body, preds: seq<seq<BasicBlock>>)
    requires ListsEdges(body, preds)
    ensures |preds| == |body.blocks|
  {
  }

  lemma GuardIsOk(body: Body, header: BasicBlock, params: seq<BlockParam>, branch: Branch, model: Model)
    requires header < |body.blocks| && HeaderBranch(body.blocks[header], ParamSet(params)) == Some(branch)
    requires |params| == |model.paramTys| && model.mirLoop.headerParams == HeaderParams(params, model.paramTys)
    requires branch.guard.None? ==> model.mirLoop.guard.None?
    requires branch.guard.Some? ==> model.mirLoop.guard.Some? && model.mirLoop.guard.value.SpecVar? &&
                                    model.mirLoop.guard.value.name == Param(branch.guard.value)
    ensures GuardOk(model.mirLoop)
  {
    hide HeaderBranch;
    if branch.guard.Some? {
      GuardIsParam(body.blocks[header], ParamSet(params));
      var p :| p in params && p.local == branch.guard.value;
      var k :| 0 <= k < |params| && params[k] == p;
      assert model.mirLoop.headerParams[k] in model.mirLoop.headerParams;
    }
  }

  lemma EmptyEncodes()
    ensures EncodeStore([]).Some?
  {
  }

  lemma EdgeLengths(body: Body, f: Func, header: BasicBlock, params: seq<BlockParam>, model: Model, edges: BridgeEdges)
    requires |params| == |model.paramTys| && model.chain != [] &&
        BuildBridge(body, f, header, params, model) == Some(edges)
    ensures |edges.pre| == |params| && |edges.latch| == |params|
  {
    hide ChainSpec, EdgeArgsThroughDefs, HeaderParamsMatch, FindBlock;
  }

  lemma LoopParts(body: Body, preds: seq<seq<BasicBlock>>, dominated: set<BasicBlock>, header: BasicBlock,
      params: seq<BlockParam>)
    requires WellFormedBody(body) && |preds| == |body.blocks| && header < |body.blocks| && InRange(body, preds[header])
    requires BuildModel(body, preds, dominated, header, params).Some?
    ensures var model := BuildModel(body, preds, dominated, header, params).value;
            |model.paramTys| == |params| && model.mirLoop.headerParams == HeaderParams(params, model.paramTys)
  {
    hide ControlFlow, ConvBlocks, ParamTys, EntryArgs, SkeletonOk, WellFormedBody;
    ParamTysShape(body, params);
  }

  // --- Deduplication loses nothing -------------------------------------------------------------------

  ghost predicate AllRefined(seen: set<Fingerprint>, discharge: Discharge) {
    forall fp :: fp in seen ==> VerdictOf(fp, discharge) == Refined
  }

  lemma ObligationBuilds(u: Unit, h: BasicBlock, discharge: Discharge)
    requires WellFormedUnit(u) && h in u.headerParams && ObligationOf(u, h).Some?
    ensures BuildObligations(ObligationOf(u, h).value.mirLoop, ObligationOf(u, h).value.edges.pre,
                             ObligationOf(u, h).value.edges.latch).Some?
  {
    hide BuildModel, BuildBridge, BuildObligations;
    var model := BuildModel(u.body, u.preds, u.dominated[h], h, u.headerParams[h]).value;
    BuiltShape(u.body, u.preds, u.dominated[h], h, u.headerParams[h]);
    NoStructuralError(u.body, u.preds, u.dominated[h], u.func, h, u.headerParams[h], model,
        ObligationOf(u, h).value.edges);
  }

  lemma {:induction false} FoldIsNotStructural(obs: seq<Obligation>, discharge: Discharge)
    requires forall ob :: discharge(ob) != StructuralError
    ensures FoldVerdicts(obs, discharge) != StructuralError
  {
    if obs != [] { FoldIsNotStructural(obs[1..], discharge); }
  }

  /** If the check returns Ok, every in-slice header is Refined, headers skipped as duplicates
      included, and no header is skipped for a structural error. */
  lemma {:induction false} OkMeansAllRefined(u: Unit, headers: seq<BasicBlock>, seen: set<Fingerprint>,
      discharge: Discharge)
    requires WellFormedUnit(u) && forall i :: 0 <= i < |headers| ==> headers[i] in u.headerParams
    requires forall ob :: discharge(ob) != StructuralError
    requires AllRefined(seen, discharge) && CheckFrom(u, headers, seen, discharge) == Ok
    ensures forall i :: 0 <= i < |headers| && ObligationOf(u, headers[i]).Some? ==>
              VerdictOf(ObligationOf(u, headers[i]).value, discharge) == Refined
    decreases headers
  {
    hide ObligationOf, WellFormedUnit, BuildObligations;
    if headers != [] {
      var fp := ObligationOf(u, headers[0]);
      var seen' := seen;
      if fp.Some? && fp.value !in seen {
        ObligationBuilds(u, headers[0], discharge);
        FoldIsNotStructural(BuildObligations(fp.value.mirLoop, fp.value.edges.pre, fp.value.edges.latch).value,
            discharge);
        seen' := seen + {fp.value};
      }
      OkMeansAllRefined(u, headers[1..], seen', discharge);
      forall i | 0 < i < |headers| && ObligationOf(u, headers[i]).Some?
        ensures VerdictOf(ObligationOf(u, headers[i]).value, discharge) == Refined
      {
        assert headers[i] == headers[1..][i - 1];
      }
    }
  }

  /** A rejection names an in-slice header whose own obligation is refuted or undecided. */
  lemma {:induction false} ErrNamesAFailure(u: Unit, headers: seq<BasicBlock>, seen: set<Fingerprint>,
      discharge: Discharge)
    requires WellFormedUnit(u) && forall i :: 0 <= i < |headers| ==> headers[i] in u.headerParams
    requires CheckFrom(u, headers, seen, discharge).Err?
    ensures var r := CheckFrom(u, headers, seen, discharge);
            && r.header in headers && (r.verdict.Refuted? || r.verdict.Inconclusive?)
            && ObligationOf(u, r.header).Some? && VerdictOf(ObligationOf(u, r.header).value, discharge) == r.verdict
    decreases headers
  {
    hide ObligationOf, VerdictOf, WellFormedUnit;
    var fp := ObligationOf(u, headers[0]);
    if fp.None? || fp.value in seen {
      ErrNamesAFailure(u, headers[1..], seen, discharge);
    } else if !VerdictOf(fp.value, discharge).Refuted? && !VerdictOf(fp.value, discharge).Inconclusive? {
      ErrNamesAFailure(u, headers[1..], seen + {fp.value}, discharge);
    }
  }

  /** The header is in the slice, and its own obligation has this verdict. */
  ghost predicate HasVerdict(u: Unit, h: BasicBlock, v: Verdict, discharge: Discharge)
    requires WellFormedUnit(u) && h in u.headerParams
  {
    ObligationOf(u, h).Some? && VerdictOf(ObligationOf(u, h).value, discharge) == v
  }

  /** The check accepts if and only if every in-slice header is Refined. */
  lemma AcceptsIffAllRefined(u: Unit, discharge: Discharge)
    requires WellFormedUnit(u) && forall ob :: discharge(ob) != StructuralError
    ensures Check(u, discharge) == Ok <==>
            forall h <- u.headerParams :: ObligationOf(u, h).Some? ==> HasVerdict(u, h, Refined, discharge)
  {
    hide ObligationOf, VerdictOf, WellFormedUnit, InOrder;
    var headers := InOrder(u.headerParams.Keys);
    if Check(u, discharge) == Ok {
      OkMeansAllRefined(u, headers, {}, discharge);
      forall h | h in u.headerParams && ObligationOf(u, h).Some?
        ensures HasVerdict(u, h, Refined, discharge)
      {
        assert h in headers;
      }
    } else {
      ErrNamesAFailure(u, headers, {}, discharge);
      assert !HasVerdict(u, Check(u, discharge).header, Refined, discharge);
    }
  }

  /** A rejection names the first failing header in block order: before it no in-slice header is refuted
      or undecided. */
  lemma RejectionNamesTheFirst(u: Unit, discharge: Discharge, h: BasicBlock)
    requires WellFormedUnit(u) && Check(u, discharge).Err?
    requires h in u.headerParams && h < Check(u, discharge).header && ObligationOf(u, h).Some?
    ensures var v := VerdictOf(ObligationOf(u, h).value, discharge); !v.Refuted? && !v.Inconclusive?
  {
    hide ObligationOf, VerdictOf, WellFormedUnit, InOrder;
    FailsFirst(u, InOrder(u.headerParams.Keys), {}, discharge, h);
  }

  lemma {:induction false} FailsFirst(u: Unit, headers: seq<BasicBlock>, seen: set<Fingerprint>, discharge: Discharge,
                                      h: BasicBlock)
    requires WellFormedUnit(u) && forall i :: 0 <= i < |headers| ==> headers[i] in u.headerParams
    requires forall fp <- seen :: !VerdictOf(fp, discharge).Refuted? && !VerdictOf(fp, discharge).Inconclusive?
    requires Increasing(headers) && CheckFrom(u, headers, seen, discharge).Err?
    requires h in headers && h < CheckFrom(u, headers, seen, discharge).header && ObligationOf(u, h).Some?
    ensures var v := VerdictOf(ObligationOf(u, h).value, discharge); !v.Refuted? && !v.Inconclusive?
    decreases headers
  {
    hide ObligationOf, VerdictOf, WellFormedUnit;
    assert headers == [headers[0]] + headers[1..];
    var fp := ObligationOf(u, headers[0]);
    if h != headers[0] {
      var seen' := if fp.None? || fp.value in seen then seen else seen + {fp.value};
      FailsFirst(u, headers[1..], seen', discharge, h);
    }
  }

  /** In an accepted loop the guard keeps an unassigned divisor from being zero exactly when it is the
      divisor: `while n != 0 { x = x / y }` is accepted, and its obligations range over y = 0 too. */
  lemma AcceptedDivisorIff(body: Body, preds: seq<seq<BasicBlock>>, dominated: set<BasicBlock>, header: BasicBlock,
                           params: seq<BlockParam>, i: nat)
    requires WellFormedBody(body) && header < |body.blocks| && |preds| == |body.blocks| && InRange(body, preds[header])
    requires BuildModel(body, preds, dominated, header, params).Some?
    requires var lp := BuildModel(body, preds, dominated, header, params).value.mirLoop;
             DividesByInput(lp.latchStmts, i)
    ensures var lp := BuildModel(body, preds, dominated, header, params).value.mirLoop;
            && lp.guard.Some? && lp.guard.value.SpecVar? && EncodeStore(lp.latchStmts[..i]).Some?
            && var divisor := Resolve(EncodeStore(lp.latchStmts[..i]).value, lp.latchStmts[i].rvalue.r);
               (forall s: Valuation :: GuardHolds(GuardExpr(lp), s) ==> Eval(divisor, s) != 0) <==>
               lp.latchStmts[i].rvalue.r.name == lp.guard.value.name
  {
    hide ControlFlow, ConvBlocks, ParamTys, EntryArgs, WellFormedBody, EncodeStore, Resolve, Eval;
    var lp := BuildModel(body, preds, dominated, header, params).value.mirLoop;
    var sk := ControlFlow(body, preds, dominated, header, ParamSet(params)).value;
    SkeletonShape(body, preds, dominated, header, ParamSet(params));
    EmptyEncodes();
    ConvBlocksEncodes(body, Conv([], false, ParamSet(params)), [header] + sk.chain);
    ConvBlocksTyped(body, Conv([], false, ParamSet(params)), [header] + sk.chain);
    assert lp.latchStmts[i] in lp.latchStmts;
    DivisionIsGuarded(body, preds, dominated, header, params);
    PrefixEncodes(lp.latchStmts, i);
    GuardExcludesZeroIff(lp, i);
  }

  // --- What no sound solver accepts -------------------------------------------------------------------

  function SlotObligations(fp: Fingerprint): Option<seq<Obligation>> {
    BuildObligations(fp.mirLoop, fp.edges.pre, fp.edges.latch)
  }

  /** Both sides of every slot of every in-slice header are equal at every valuation the guard admits. */
  ghost predicate AllSlotsAgree(u: Unit)
    requires WellFormedUnit(u)
  {
    forall h <- u.headerParams :: ObligationOf(u, h).Some? ==> SlotsAgree(ObligationOf(u, h).value)
  }

  ghost predicate SlotsAgree(fp: Fingerprint) {
    SlotObligations(fp).Some? && forall ob <- SlotObligations(fp).value :: Valid(ob)
  }

  ghost predicate SoundSolver(discharge: Discharge) {
    SoundDischarge(discharge) && forall ob :: discharge(ob) != StructuralError
  }

  lemma {:induction false} ValidFolds(obs: seq<Obligation>, discharge: Discharge)
    requires forall ob <- obs :: discharge(ob) == Refined
    ensures FoldVerdicts(obs, discharge) == Refined
  {
    if obs != [] { ValidFolds(obs[1..], discharge); }
  }

  lemma RefinedSlotsAgree(fp: Fingerprint, discharge: Discharge)
    requires SoundDischarge(discharge) && VerdictOf(fp, discharge) == Refined
    ensures SlotsAgree(fp)
  {
    hide BuildObligations, FoldVerdicts, Valid;
    FoldVerdictsSound(SlotObligations(fp).value, discharge);
  }

  lemma AcceptedSlotsAgree(u: Unit, discharge: Discharge)
    requires WellFormedUnit(u) && SoundSolver(discharge) && Check(u, discharge) == Ok
    ensures AllSlotsAgree(u)
  {
    hide ObligationOf, VerdictOf, WellFormedUnit, SlotsAgree, Check;
    AcceptsIffAllRefined(u, discharge);
    forall h | h in u.headerParams && ObligationOf(u, h).Some?
      ensures SlotsAgree(ObligationOf(u, h).value)
    {
      assert HasVerdict(u, h, Refined, discharge);
      RefinedSlotsAgree(ObligationOf(u, h).value, discharge);
    }
  }

  /** Some sound solver accepts a function if and only if every slot of every in-slice header agrees: the
      check, given a strong enough solver, decides exactly that. */
  lemma AcceptableIffSlotsAgree(u: Unit)
    requires WellFormedUnit(u)
    ensures (exists d: Discharge :: SoundSolver(d) && Check(u, d) == Ok) <==> AllSlotsAgree(u)
  {
    hide ObligationOf, WellFormedUnit, Check, SlotsAgree;
    if d: Discharge :| SoundSolver(d) && Check(u, d) == Ok {
      AcceptedSlotsAgree(u, d);
    }
    if AllSlotsAgree(u) {
      var d: Discharge := ob => if Valid(ob) then Refined else Refuted;
      assert SoundSolver(d);
      forall h | h in u.headerParams && ObligationOf(u, h).Some?
        ensures HasVerdict(u, h, Refined, d)
      {
        AgreedFolds(ObligationOf(u, h).value, d);
      }
      AcceptsIffAllRefined(u, d);
    }
  }

  lemma AgreedFolds(fp: Fingerprint, discharge: Discharge)
    requires SlotsAgree(fp) && forall ob :: Valid(ob) ==> discharge(ob) == Refined
    ensures VerdictOf(fp, discharge) == Refined
  {
    hide BuildObligations, FoldVerdicts, Valid;
    ValidFolds(SlotObligations(fp).value, discharge);
  }

  /** One slot of one in-slice header that differs at one valuation the guard admits is enough: every
      sound solver leads to rejection. */
  lemma WrongSlotIsRejected(u: Unit, discharge: Discharge, h: BasicBlock, k: nat, s: Valuation)
    requires WellFormedUnit(u) && SoundSolver(discharge) && h in u.headerParams && ObligationOf(u, h).Some?
    requires SlotObligations(ObligationOf(u, h).value).Some?
    requires k < |SlotObligations(ObligationOf(u, h).value).value|
    requires var ob := SlotObligations(ObligationOf(u, h).value).value[k];
             GuardHolds(ob.guard, s) && Eval(ob.bridge, s) != Eval(ob.mir, s)
    ensures Check(u, discharge).Err?
  {
    hide ObligationOf, WellFormedUnit, Check, BuildObligations, Eval;
    var obs := SlotObligations(ObligationOf(u, h).value).value;
    assert obs[k] in obs && !Valid(obs[k]);
    if Check(u, discharge) == Ok {
      AcceptedSlotsAgree(u, discharge);
    }
  }

  lemma RefinedIsValid(fp: Fingerprint, conv: Conv, model: Model, discharge: Discharge)
    requires SoundDischarge(discharge) && VerdictOf(fp, discharge) == Refined
    requires fp.mirLoop == model.mirLoop && model.mirLoop.latchStmts == conv.stmts
    ensures AllValid(model, fp.edges, conv)
  {
    hide Valid, EncodeStore, SoundDischarge, Encode, Resolve, GuardExpr;
    RefinedMeansAllSlotsAgree(fp.mirLoop, fp.edges.pre, fp.edges.latch, discharge);
  }

  /** Top level. If the per-function check accepts and the solver is sound, then for every header
      in the slice, in every pair of runs that visit the same blocks, the emitted header params equal
      the MIR locals they carry at every visit of that header. */
  lemma CheckedFunctionThreadsItsLoops(u: Unit, discharge: Discharge, h: BasicBlock,
                                       mrun: seq<MirState>, erun: seq<State>, s: Valuation, t: nat)
    requires WellFormedUnit(u) && SoundSolver(discharge) && Check(u, discharge) == Ok
    requires h in u.headerParams && ObligationOf(u, h).Some?
    requires Paired(u.body, u.func, mrun, erun, s) && t < |mrun| && mrun[t].block == h
    ensures HeaderAgrees(u.headerParams[h], mrun[t].store, erun[t].env)
  {
    hide Check, SoundDischarge, Paired, BuildModel, BuildBridge, VerdictOf, AllValid, HeaderAgrees;
    var params := u.headerParams[h];
    AcceptsIffAllRefined(u, discharge);
    assert HasVerdict(u, h, Refined, discharge);
    var fp := ObligationOf(u, h).value;
    BuiltShape(u.body, u.preds, u.dominated[h], h, params);
    var model := BuildModel(u.body, u.preds, u.dominated[h], h, params).value;
    var sk, conv := AcceptedFrom(u.body, u.preds, u.dominated[h], u.func, h, params, model, fp.edges);
    assert model.mirLoop.latchStmts == conv.stmts;
    hide Accepted;
    RefinedIsValid(fp, conv, model, discharge);
    EveryHeaderVisitAgrees(u.body, u.preds, u.dominated[h], u.func, h, params, sk, conv, model, fp.edges, mrun, erun,
        s, t);
  }
}
