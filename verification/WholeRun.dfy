/** The main result: once both sides of a loop are built and every obligation is valid, emitted
    header params and MIR locals agree at every header visit of every run. */
module WholeRun {
  import opened Wrappers
  import opened Bits
  import opened Smt
  import opened TrustIr
  import opened SymbolicFold
  import opened EntryEdge
  import opened Mir
  import opened LoopVc
  import opened LoopConv
  import opened MirAnalysis
  import opened LoopModel
  import opened Bridge

  /** The loop-carried values agree: slot by slot, width and bits. */
  ghost predicate HeaderAgrees(params: seq<BlockParam>, store: Store, env: Env) {
    forall k :: 0 <= k < |params| ==>
      params[k].local in store && params[k].value in env && env[params[k].value] == store[params[k].local]
  }

  /** Header params as free variables, at the values this visit happens to have. */
  ghost function HeaderValuation(params: seq<BlockParam>, store: Store): (s: Valuation)
    requires forall p :: p in params ==> p.local in store
    ensures forall p :: p in params ==> Param(p.local) in s && s[Param(p.local)] == store[p.local].bits
  {
    map p | p in params :: Param(p.local) := store[p.local].bits
  }

  /** Everything `build_mir_loop_model` and `build_bridge_edges` produced for one header, with the
      solver's answer taken as validity of every slot. */
  ghost predicate Accepted(body: Body, preds: seq<seq<BasicBlock>>, dominated: set<BasicBlock>, f: Func,
                           header: BasicBlock, params: seq<BlockParam>, sk: Skeleton, conv: Conv, model: Model,
                               edges: BridgeEdges) {
    && WellFormedBody(body) && ListsEdges(body, preds) && header < |body.blocks| && InRange(body, preds[header])
    && ControlFlow(body, preds, dominated, header, ParamSet(params)) == Some(sk)
    && SkeletonOk(body, preds, header, ParamSet(params), sk)
    && ConvBlocks(body, Conv([], false, ParamSet(params)), [header] + sk.chain) == Some(conv)
    && BuildModel(body, preds, dominated, header, params) == Some(model)
    && |params| == |model.paramTys| && model.chain == sk.chain && model.preheader == sk.preheader
    && (forall k :: 0 <= k < |params| ==> LocalTy(body, params[k].local) == Some(model.paramTys[k]))
    && model.mirLoop.latchStmts == conv.stmts && model.mirLoop.latchArgs == ParamOperands(params, model.paramTys)
    && EntryArgs(body, sk.preheader, params, model.paramTys) == Some(model.mirLoop.preheaderArgs)
    && (sk.branch.guard.None? ==> model.mirLoop.guard.None?)
    && (sk.branch.guard.Some? ==>
          sk.branch.guard.value in body.localTys &&
          model.mirLoop.guard == Some(SpecVar(Param(sk.branch.guard.value), body.localTys[sk.branch.guard.value])))
    && sk.chain != [] && BuildBridge(body, f, header, params, model) == Some(edges)
  }

  /** The solver's side: all slots of both edges valid. */
  ghost predicate AllValid(model: Model, edges: BridgeEdges, conv: Conv) {
    && EncodeStore(conv.stmts).Some?
    && |edges.pre| == |edges.latch| == |model.mirLoop.preheaderArgs| == |model.mirLoop.latchArgs|
    && (forall k :: 0 <= k < |edges.pre| ==> Valid(Obligation(edges.pre[k], Encode(model.mirLoop.preheaderArgs[k]),
        None)))
    && (forall k :: 0 <= k < |edges.latch| ==>
          Valid(Obligation(edges.latch[k], Resolve(EncodeStore(conv.stmts).value, model.mirLoop.latchArgs[k]),
              GuardExpr(model.mirLoop))))
  }

  /** Building succeeds only with these ingredients. */
  lemma AcceptedFrom(body: Body, preds: seq<seq<BasicBlock>>, dominated: set<BasicBlock>, f: Func, header: BasicBlock,
                     params: seq<BlockParam>, model: Model, edges: BridgeEdges) returns (sk: Skeleton, conv: Conv)
    requires WellFormedBody(body) && ListsEdges(body, preds) && header < |body.blocks| && InRange(body, preds[header])
    requires BuildModel(body, preds, dominated, header, params) == Some(model)
    requires |params| == |model.paramTys| && model.chain != [] &&
        BuildBridge(body, f, header, params, model) == Some(edges)
    ensures Accepted(body, preds, dominated, f, header, params, sk, conv, model, edges)
  {
    hide ControlFlow, ConvBlocks, ParamTys, EntryArgs, BuildBridge, SkeletonOk, WellFormedBody;
    sk := ControlFlow(body, preds, dominated, header, ParamSet(params)).value;
    ParamTysShape(body, params);
    SkeletonShape(body, preds, dominated, header, ParamSet(params));
    SkeletonRange(body, preds, header, ParamSet(params), sk);
    conv := ConvBlocks(body, Conv([], false, ParamSet(params)), [header] + sk.chain).value;
  }

  lemma SkeletonRange(body: Body, preds: seq<seq<BasicBlock>>, header: BasicBlock, params: set<Local>, sk: Skeleton)
    requires SkeletonOk(body, preds, header, params, sk)
    ensures InRange(body, [header] + sk.chain) && sk.preheader < |body.blocks| && |sk.chain| > 0
  {
  }

  lemma BuiltShape(body: Body, preds: seq<seq<BasicBlock>>, dominated: set<BasicBlock>, header: BasicBlock,
      params: seq<BlockParam>)
    requires WellFormedBody(body) && |preds| == |body.blocks| && header < |body.blocks| && InRange(body, preds[header])
    requires BuildModel(body, preds, dominated, header, params).Some?
    ensures |BuildModel(body, preds, dominated, header, params).value.paramTys| == |params|
    ensures BuildModel(body, preds, dominated, header, params).value.chain != []
  {
    hide ControlFlow, ConvBlocks, ParamTys, EntryArgs, SkeletonOk, WellFormedBody;
    ParamTysShape(body, params);
    SkeletonShape(body, preds, dominated, header, ParamSet(params));
    SkeletonRange(body, preds, header, ParamSet(params),
        ControlFlow(body, preds, dominated, header, ParamSet(params)).value);
  }

  // --- One traversal -----------------------------------------------------------------------------

  /** `value` is the current value of `local`, seen through the header valuation. */
  lemma ParamVarDenotes(body: Body, params: seq<BlockParam>, store: Store, l: Local)
    requires WellTyped(body, store) && (forall p :: p in params ==> p.local in store)
    requires l in ParamSet(params) && l in body.localTys
    ensures l in store && Denotes(Var(Param(l), TyBits(body.localTys[l])), HeaderValuation(params, store), store[l])
  {
    hide HeaderValuation;
    var p :| p in params && p.local == l;
    WrapSmall(store[l].bits, TyBits(body.localTys[l]));
  }

  lemma SeedsAgree(body: Body, params: seq<BlockParam>, tys: seq<ScalarTy>, store: Store, env: Env)
    requires WellTyped(body, store) && HeaderAgrees(params, store, env) && |params| == |tys|
    requires forall k :: 0 <= k < |params| ==> LocalTy(body, params[k].local) == Some(tys[k])
    requires forall p :: p in params ==> p.local in store
    ensures Agree(Seeds(params, tys), env, HeaderValuation(params, store))
  {
    hide Seeds, Denotes, HeaderValuation;
    forall v | v in Seeds(params, tys)
      ensures v in env && Denotes(Seeds(params, tys)[v], HeaderValuation(params, store), env[v])
    {
      SeedsAre(params, tys, v);
      var k :| 0 <= k < |params| && params[k].value == v &&
          Seeds(params, tys)[v] == Var(Param(params[k].local), TyBits(tys[k]));
      assert params[k] in params;
      ParamVarDenotes(body, params, store, params[k].local);
    }
  }

  lemma StoreStartsAgreed(body: Body, params: seq<BlockParam>, store: Store)
    requires WellTyped(body, store) && (forall p :: p in params ==> p.local in store)
    ensures StoreAgrees(body, Conv([], false, ParamSet(params)), store, HeaderValuation(params, store))
  {
    hide Denotes, HeaderValuation, WellTyped;
    forall l | l in ParamSet(params) && l in body.localTys
      ensures l in store && Denotes(Var(Param(l), TyBits(body.localTys[l])), HeaderValuation(params, store), store[l])
    {
      ParamVarDenotes(body, params, store, l);
    }
  }

  /** The guard's param is one of the scanned params. */
  lemma {:induction false} ToParamInParams(stmts: seq<Statement>, upto: nat, local: Local, params: set<Local>)
    requires upto <= |stmts| && ToParam(stmts, upto, local, params).Some?
    ensures ToParam(stmts, upto, local, params).value in params
    decreases upto
  {
    if local !in params {
      var i := LastWriter(stmts, upto, local).value;
      ToParamInParams(stmts, i, OperandLocal(stmts[i].rvalue.operand).value, params);
    }
  }

  lemma {:induction false} ShapeInParams(stmts: seq<Statement>, idx: nat, local: Local, params: set<Local>)
    requires idx <= |stmts| && ShapeFrom(stmts, idx, local, params).Some?
    ensures ShapeFrom(stmts, idx, local, params).value.param in params
    decreases idx
  {
    hide LastWriter, ToParam;
    if local !in params {
      var i := LastWriter(stmts, idx, local).value;
      var rv := stmts[i].rvalue;
      if rv.Use? {
        ShapeInParams(stmts, i, OperandLocal(rv.operand).value, params);
      } else {
        var varSide := if OperandLocal(rv.l).Some? then rv.l else rv.r;
        ToParamInParams(stmts, i, OperandLocal(varSide).value, params);
      }
    }
  }

  /** The header's arms mean what the loop model takes them to mean: without a guard there is only the
      body arm; with one, for every store at header entry, the body arm is taken if and only if the
      guard param's entry value is nonzero, and the exit arm otherwise. */
  lemma HeaderArmIffGuard(body: Body, header: BasicBlock, params: set<Local>, branch: Branch, conv: Conv,
      s: MirState, s': MirState)
    requires header < |body.blocks| && HeaderBranch(body.blocks[header], params) == Some(branch)
    requires ConvAll(body, conv, body.blocks[header].statements).Some?
    requires WellTyped(body, s.store) && s.block == header && MirStep(body, s, s')
    requires branch.exit.Some? ==> branch.exit.value != branch.entry
    requires forall l :: l in params ==> l in s.store
    ensures branch.guard.None? ==> s'.block == branch.entry
    ensures branch.guard.Some? ==>
              && branch.guard.value in params && branch.exit.Some?
              && (s'.block == branch.entry <==> s.store[branch.guard.value].bits != 0)
              && (s'.block == branch.entry || s'.block == branch.exit.value)
    ensures NoTerminatorWrites(body, header)
  {
    hide ConvAll, StmtsStep, ResolveCond, WellTyped;
    var data := body.blocks[header];
    var mid: Store :| StmtsStep(body, s.store, data.statements, mid) &&
        TermStep(body, mid, data.terminator, s'.block, s'.store);
    if data.terminator.SwitchInt? {
      var (discr, cases, otherwise) := (data.terminator.discr, data.terminator.cases, data.terminator.otherwise);
      assert cases == [(0, cases[0].1)];
      assert CaseTargets(cases) == [cases[0].1] by { assert cases[1..] == []; }
      ConvAllConvertible(body, conv, data.statements);
      ResolvedInParams(data.statements, OperandLocal(discr).value, params);
      GuardFaithful(body, header, discr, cases[0].1, otherwise, params, s.store, mid, s'.block, s'.store);
    }
  }

  lemma ResolvedInParams(stmts: seq<Statement>, discr: Local, params: set<Local>)
    requires ResolveCond(stmts, discr, params).Some?
    ensures ResolveCond(stmts, discr, params).value.param in params
  {
    hide ShapeFrom;
    ShapeInParams(stmts, |stmts|, discr, params);
  }

  /** A MIR execution of the header and then the whole chain, back to the header. */
  ghost predicate MirTraversal(body: Body, header: BasicBlock, chain: seq<BasicBlock>, seg: seq<MirState>) {
    && |seg| == |chain| + 2 && InRange(body, [header] + chain)
    && (forall i :: 0 <= i < |chain| + 1 ==> seg[i].block == ([header] + chain)[i] && MirStep(body, seg[i], seg[i + 1]))
    && seg[|chain| + 1].block == header
  }

  /** The emitted blocks run in the same order. */
  ghost predicate EmittedTraversal(f: Func, header: BasicBlock, chain: seq<BasicBlock>, seg: seq<State>) {
    && |seg| == |chain| + 2 && IsRun(f, seg)
    && (forall i :: 0 <= i < |chain| + 1 ==> seg[i].block == ([header] + chain)[i])
    && seg[|chain| + 1].block == header
  }

  lemma EmittedSide(body: Body, f: Func, header: BasicBlock, params: seq<BlockParam>, model: Model, edges: BridgeEdges,
                    eseg: seq<State>, s: Valuation)
    requires |params| == |model.paramTys| && model.chain != [] &&
        BuildBridge(body, f, header, params, model) == Some(edges)
    requires EmittedTraversal(f, header, model.chain, eseg) && (forall b :: b in f.blocks ==> DistinctParams(b.params))
    requires Agree(Seeds(params, model.paramTys), eseg[0].env, s)
    ensures FindBlock(f.blocks, header).Some?
    ensures ParamsDenote(FindBlock(f.blocks, header).value, eseg[|model.chain| + 1].env, edges.latch, s)
  {
    hide ChainSpec, EdgeArgsThroughDefs, Agree, Seeds, IsRun, DistinctParams, FindBlock;
    var hb, blocks := FindBlock(f.blocks, header).value, FindChain(f, model.chain).value;
    FindChainBlocks(f, model.chain);
    var all := [hb] + blocks;
    forall i | 0 <= i < |all| ensures FindBlock(f.blocks, eseg[i].block) == Some(all[i]) {
      assert eseg[i].block == ([header] + model.chain)[i];
    }
    ChainSound(f, eseg, all, hb, Seeds(params, model.paramTys), true, s);
  }

  lemma MirSide(body: Body, header: BasicBlock, chain: seq<BasicBlock>, params: seq<BlockParam>, conv: Conv,
      seg: seq<MirState>)
    requires MirTraversal(body, header, chain, seg) && WellTyped(body, seg[0].store)
    requires forall p :: p in params ==> p.local in seg[0].store
    requires ConvBlocks(body, Conv([], false, ParamSet(params)), [header] + chain) == Some(conv)
    requires forall i :: 0 <= i < |chain| + 1 ==> NoTerminatorWrites(body, ([header] + chain)[i])
    ensures StoreAgrees(body, conv, seg[|chain| + 1].store, HeaderValuation(params, seg[0].store))
  {
    hide ConvBlocks, StoreAgrees, MirStep, HeaderValuation, WellTyped, NoTerminatorWrites;
    StoreStartsAgreed(body, params, seg[0].store);
    ConvBlocksSound(body, Conv([], false, ParamSet(params)), [header] + chain, seg,
        HeaderValuation(params, seg[0].store));
  }

  lemma ChainWritesNothingAtEnd(body: Body, header: BasicBlock, entry: BasicBlock, chain: seq<BasicBlock>)
    requires header < |body.blocks| && NoTerminatorWrites(body, header) && ChainShape(body, header, entry, chain)
    ensures InRange(body, [header] + chain)
    ensures forall i :: 0 <= i < |chain| + 1 ==> NoTerminatorWrites(body, ([header] + chain)[i])
  {
    hide NoRepeats;
    forall j | 0 <= j < |chain| ensures NoTerminatorWrites(body, chain[j]) {
      assert NextInChain(body.blocks[chain[j]].terminator) == Some(ChainNext(chain, header, j));
    }
  }

  lemma {:induction false} ConvFirst(body: Body, c: Conv, header: BasicBlock, chain: seq<BasicBlock>)
    requires InRange(body, [header] + chain) && header < |body.blocks| && ConvBlocks(body, c, [header] + chain).Some?
    ensures ConvAll(body, c, body.blocks[header].statements).Some?
  {
    assert ([header] + chain)[0] == header;
  }

  lemma {:induction false} ReadableGrows(body: Body, c: Conv, stmts: seq<Statement>)
    requires ConvAll(body, c, stmts).Some?
    ensures c.readable <= ConvAll(body, c, stmts).value.readable
    decreases stmts
  {
    hide ConvRvalue;
    if stmts != [] { ReadableGrows(body, ConvStep(body, c, stmts[0]).value, stmts[1..]); }
  }

  lemma {:induction false} ReadableGrowsBlocks(body: Body, c: Conv, blocks: seq<BasicBlock>)
    requires InRange(body, blocks) && ConvBlocks(body, c, blocks).Some?
    ensures c.readable <= ConvBlocks(body, c, blocks).value.readable
    decreases blocks
  {
    hide ConvAll;
    if blocks != [] {
      ReadableGrows(body, c, body.blocks[blocks[0]].statements);
      ReadableGrowsBlocks(body, ConvAll(body, c, body.blocks[blocks[0]].statements).value, blocks[1..]);
    }
  }

  /** Valid slots with equal meanings carry equal values. */
  lemma SlotAgrees(ob: Obligation, s: Valuation, x: Value, y: Value)
    requires Valid(ob) && GuardHolds(ob.guard, s) && Denotes(ob.bridge, s, x) && Denotes(ob.mir, s, y)
    ensures x == y
  {
    hide Eval, Width;
  }

  /** The guard of the obligation reads the guard param at its header-entry value. */
  lemma GuardReadsEntry(body: Body, params: seq<BlockParam>, store: Store, lp: MirLoop, guard: Option<Local>)
    requires WellTyped(body, store) && (forall p :: p in params ==> p.local in store)
    requires guard.None? ==> lp.guard.None?
    requires guard.Some? ==> guard.value in ParamSet(params) && guard.value in body.localTys && guard.value in store &&
                             store[guard.value].bits != 0 &&
                                 lp.guard == Some(SpecVar(Param(guard.value), body.localTys[guard.value]))
    ensures GuardHolds(GuardExpr(lp), HeaderValuation(params, store))
  {
    hide HeaderValuation, WellTyped;
    if guard.Some? { ParamVarDenotes(body, params, store, guard.value); }
  }

  lemma LatchSlots(body: Body, header: Block, params: seq<BlockParam>, model: Model, edges: BridgeEdges, conv: Conv,
                   store: Store, env: Env, s: Valuation)
    requires AllValid(model, edges, conv) && StoreAgrees(body, conv, store, s) &&
        ParamsDenote(header, env, edges.latch, s)
    requires GuardHolds(GuardExpr(model.mirLoop), s) && |params| == |model.paramTys| &&
        HeaderParamsMatch(header, params, model.paramTys)
    requires model.mirLoop.latchArgs == ParamOperands(params, model.paramTys) && ParamSet(params) <= conv.readable
    requires forall k :: 0 <= k < |params| ==> LocalTy(body, params[k].local) == Some(model.paramTys[k])
    ensures HeaderAgrees(params, store, env)
  {
    hide Valid, Denotes, EncodeStore, GuardHolds, WellTyped, Resolve;
    forall k | 0 <= k < |params|
      ensures params[k].local in store && params[k].value in env && env[params[k].value] == store[params[k].local]
    {
      var l := params[k].local;
      assert params[k] in params && l in conv.readable && l in body.localTys;
      assert header.params[k].0 == params[k].value;
      var ob := Obligation(edges.latch[k], Resolve(EncodeStore(conv.stmts).value, model.mirLoop.latchArgs[k]),
          GuardExpr(model.mirLoop));
      SlotAgrees(ob, s, env[params[k].value], store[l]);
    }
  }

  /** One traversal preserves agreement: if the header params agree on entry, and MIR and emitted
      code both run header and chain once, they agree again on return. */
  lemma TraversalKeepsAgreement(body: Body, preds: seq<seq<BasicBlock>>, dominated: set<BasicBlock>, f: Func,
      header: BasicBlock,
                                params: seq<BlockParam>, sk: Skeleton, conv: Conv, model: Model, edges: BridgeEdges,
                                mseg: seq<MirState>, eseg: seq<State>)
    requires Accepted(body, preds, dominated, f, header, params, sk, conv, model, edges) && AllValid(model, edges, conv)
    requires forall b :: b in f.blocks ==> DistinctParams(b.params)
    requires MirTraversal(body, header, sk.chain, mseg) && EmittedTraversal(f, header, sk.chain, eseg)
    requires WellTyped(body, mseg[0].store) && HeaderAgrees(params, mseg[0].store, eseg[0].env)
    ensures HeaderAgrees(params, mseg[|sk.chain| + 1].store, eseg[|sk.chain| + 1].env)
  {
    var (store, env) := (mseg[0].store, eseg[0].env);
    AllParamsPresent(params, store, env);
    hide BuildModel, BuildBridge, ConvBlocks, ControlFlow, EntryArgs, AllValid, DistinctParams, WellTyped, SkeletonOk,
         StoreAgrees, GuardHolds, WellFormedBody, ListsEdges, ParamsDenote, HeaderParamsMatch, Agree,
             EmittedTraversal, MirTraversal,
         HeaderAgrees, HeaderValuation;
    var s := HeaderValuation(params, store);
    MirHalf(body, preds, dominated, f, header, params, sk, conv, model, edges, mseg);
    SeedsAgree(body, params, model.paramTys, store, env);
    EmittedSide(body, f, header, params, model, edges, eseg, s);
    BridgeHeader(body, f, header, params, model, edges);
    LatchSlots(body, FindBlock(f.blocks, header).value, params, model, edges, conv,
               mseg[|sk.chain| + 1].store, eseg[|sk.chain| + 1].env, s);
  }

  /** The MIR half of one traversal: the store the encoding describes, with the guard satisfied. */
  lemma MirHalf(body: Body, preds: seq<seq<BasicBlock>>, dominated: set<BasicBlock>, f: Func, header: BasicBlock,
                params: seq<BlockParam>, sk: Skeleton, conv: Conv, model: Model, edges: BridgeEdges,
                    mseg: seq<MirState>)
    requires Accepted(body, preds, dominated, f, header, params, sk, conv, model, edges)
    requires MirTraversal(body, header, sk.chain, mseg) && WellTyped(body, mseg[0].store)
    requires forall p :: p in params ==> p.local in mseg[0].store
    ensures StoreAgrees(body, conv, mseg[|sk.chain| + 1].store, HeaderValuation(params, mseg[0].store))
    ensures GuardHolds(GuardExpr(model.mirLoop), HeaderValuation(params, mseg[0].store))
    ensures ParamSet(params) <= conv.readable
  {
    TraversalBasics(body, preds, header, params, sk, mseg);
    hide BuildModel, BuildBridge, ConvBlocks, ControlFlow, EntryArgs, WellTyped, HeaderBranch, StoreAgrees, GuardHolds,
         WellFormedBody, ListsEdges, SkeletonOk, MirStep, MirTraversal, HeaderValuation, ChainShape;
    var c0 := Conv([], false, ParamSet(params));
    ConvFirst(body, c0, header, sk.chain);
    HeaderArmIffGuard(body, header, ParamSet(params), sk.branch, c0, mseg[0], mseg[1]);
    ChainWritesNothingAtEnd(body, header, sk.branch.entry, sk.chain);
    MirSide(body, header, sk.chain, params, conv, mseg);
    GuardReadsEntry(body, params, mseg[0].store, model.mirLoop, sk.branch.guard);
    ReadableGrowsBlocks(body, c0, [header] + sk.chain);
  }

  lemma AllParamsPresent(params: seq<BlockParam>, store: Store, env: Env)
    requires HeaderAgrees(params, store, env)
    ensures forall p :: p in params ==> p.local in store
    ensures forall l :: l in ParamSet(params) ==> l in store
  {
  }

  lemma TraversalBasics(body: Body, preds: seq<seq<BasicBlock>>, header: BasicBlock, params: seq<BlockParam>,
      sk: Skeleton,
                        mseg: seq<MirState>)
    requires SkeletonOk(body, preds, header, ParamSet(params), sk) && MirTraversal(body, header, sk.chain, mseg)
    ensures header < |body.blocks| && InRange(body, [header] + sk.chain) &&
        ChainShape(body, header, sk.branch.entry, sk.chain)
    ensures HeaderBranch(body.blocks[header], ParamSet(params)) == Some(sk.branch)
    ensures |mseg| >= 2 && mseg[0].block == header && MirStep(body, mseg[0], mseg[1]) &&
        mseg[1].block == sk.branch.entry
    ensures sk.branch.exit.Some? ==> sk.branch.exit.value != sk.branch.entry
  {
    hide NoRepeats, HeaderBranch, MirStep, StraightLine;
    var all := [header] + sk.chain;
    assert mseg[0].block == all[0] && mseg[1].block == all[1];
    assert sk.chain[0] in sk.chain;
  }

  lemma BridgeHeader(body: Body, f: Func, header: BasicBlock, params: seq<BlockParam>, model: Model, edges: BridgeEdges)
    requires |params| == |model.paramTys| && model.chain != [] &&
        BuildBridge(body, f, header, params, model) == Some(edges)
    ensures FindBlock(f.blocks, header).Some? &&
        HeaderParamsMatch(FindBlock(f.blocks, header).value, params, model.paramTys)
    ensures EdgeArgsThroughDefs(f, model.preheader, header, ArgNames(body)) == Some(edges.pre)
  {
    hide ChainSpec, EdgeArgsThroughDefs, HeaderParamsMatch, FindBlock;
  }

  // --- Whole runs ------------------------------------------------------------------------------------

  /** A MIR run and an emitted run that visit the same blocks in the same order, entered with the
      same arguments. */
  ghost predicate Paired(body: Body, f: Func, mrun: seq<MirState>, erun: seq<State>, s: Valuation) {
    && IsMirRun(body, mrun) && IsRun(f, erun) && |mrun| == |erun|
    && (forall i :: 0 <= i < |mrun| ==> mrun[i].block == erun[i].block)
    && SsaForm(f, ArgNames(body)) && EntryState(f, ArgNames(body), erun[0], s)
    && (forall l :: IsEntryArg(body, l) && l in body.localTys ==>
          l in mrun[0].store && EntryArg(l) in s && s[EntryArg(l)] == mrun[0].store[l].bits)
  }

  lemma {:induction false} RunTyped(body: Body, run: seq<MirState>, i: nat)
    requires IsMirRun(body, run) && i < |run|
    ensures WellTyped(body, run[i].store)
  {
    hide StmtsStep;
    if i > 0 { assert MirStep(body, run[i - 1], run[i - 1 + 1]); }
  }

  lemma {:induction false} RunIsPath(body: Body, run: seq<MirState>) returns (path: seq<BasicBlock>)
    requires WellFormedBody(body) && IsMirRun(body, run)
    ensures |path| == |run| && (forall i :: 0 <= i < |run| ==> path[i] == run[i].block) && IsCfgPath(body, path)
  {
    hide StmtsStep;
    path := seq(|run|, i requires 0 <= i < |run| => run[i].block);
    forall i | 0 <= i < |run| - 1
      ensures path[i] < |body.blocks| && path[i + 1] in Successors(body.blocks[path[i]].terminator)
    {
      assert MirStep(body, run[i], run[i + 1]);
    }
    if |run| > 1 {
      var i := |run| - 2;
      assert path[i + 1] in Successors(body.blocks[path[i]].terminator);
    }
  }

  /** The two entry analyses meet: arriving from the preheader, the values agree. */
  lemma EntrySlots(body: Body, header: Block, params: seq<BlockParam>, model: Model, edges: BridgeEdges, conv: Conv,
                   start: Store, store: Store, env: Env, s: Valuation)
    requires AllValid(model, edges, conv) && ParamsDenote(header, env, edges.pre, s)
    requires |params| == |model.paramTys| && HeaderParamsMatch(header, params, model.paramTys) &&
        |model.mirLoop.preheaderArgs| == |params|
    requires forall k :: 0 <= k < |params| ==>
               params[k].local in store && OperandIs(model.mirLoop.preheaderArgs[k], start, store[params[k].local])
    requires forall k :: 0 <= k < |params| ==> ArgTyped(body, model.mirLoop.preheaderArgs[k], start, s)
    ensures HeaderAgrees(params, store, env)
  {
    hide Valid, Denotes, EncodeStore, Encode, OperandIs, ArgTyped;
    forall k | 0 <= k < |params|
      ensures params[k].local in store && params[k].value in env && env[params[k].value] == store[params[k].local]
    {
      var arg := model.mirLoop.preheaderArgs[k];
      assert header.params[k].0 == params[k].value;
      OperandDenotes(body, arg, start, store[params[k].local], s);
      SlotAgrees(Obligation(edges.pre[k], Encode(arg), None), s, env[params[k].value], store[params[k].local]);
    }
  }

  /** An argument operand names an argument at its declared type. */
  ghost predicate ArgTyped(body: Body, o: SpecOperand, start: Store, s: Valuation) {
    o.SpecVar? && o.name.EntryArg? && o.name.local in start ==>
      start[o.name.local].width == TyBits(o.ty) && Lookup(s, o.name) == start[o.name.local].bits
  }

  lemma OperandDenotes(body: Body, o: SpecOperand, start: Store, v: Value, s: Valuation)
    requires OperandIs(o, start, v) && ArgTyped(body, o, start, s)
    ensures Denotes(Encode(o), s, v)
  {
    hide Pow2;
    match o
    case SpecConst(c, ty) => WrapSmall(Wrap(c, TyBits(ty)), TyBits(ty));
    case SpecVar(n, ty) => WrapSmall(v.bits, TyBits(ty));
  }

  lemma {:induction false} EntryArgsAre(body: Body, preheader: BasicBlock, params: seq<BlockParam>, tys: seq<ScalarTy>)
    requires preheader < |body.blocks| && |params| == |tys| && EntryArgs(body, preheader, params, tys).Some?
    ensures |EntryArgs(body, preheader, params, tys).value| == |params|
    ensures forall k :: 0 <= k < |params| ==>
              EntryValue(body, preheader, params[k].local) == Some(EntryArgs(body, preheader, params, tys).value[k])
  {
    hide EntryValue;
    if params != [] { EntryArgsAre(body, preheader, params[1..], tys[1..]); }
  }

  lemma {:induction false} ScanArgTyped(body: Body, stmts: seq<Statement>, idx: nat, local: Local, atStart: bool)
    requires idx <= |stmts| && ScanEntry(body, stmts, idx, local, atStart).Some?
    ensures var o := ScanEntry(body, stmts, idx, local, atStart).value;
            o.SpecVar? ==>
              o.name.EntryArg? && IsEntryArg(body, o.name.local) && LocalTy(body, o.name.local) == Some(o.ty)
    decreases idx
  {
    hide LastWriter;
    var w := LastWriter(stmts, idx, local);
    if w.Some? && OperandLocal(stmts[w.value].rvalue.operand).Some? {
      ScanArgTyped(body, stmts, w.value, OperandLocal(stmts[w.value].rvalue.operand).value, atStart);
    }
  }

  lemma EntryArgTyped(body: Body, preheader: BasicBlock, local: Local, start: Store, s: Valuation)
    requires preheader < |body.blocks| && EntryValue(body, preheader, local).Some? && WellTyped(body, start)
    requires forall l :: IsEntryArg(body, l) && l in body.localTys ==>
               l in start && EntryArg(l) in s && s[EntryArg(l)] == start[l].bits
    ensures ArgTyped(body, EntryValue(body, preheader, local).value, start, s)
  {
    hide ScanEntry;
    var data := body.blocks[preheader];
    ScanArgTyped(body, data.statements, |data.statements|, local, preheader == START_BLOCK);
  }

  /** Only the first state of a run is in the start block. */
  lemma StartOnlyFirst(body: Body, run: seq<MirState>, i: nat)
    requires WellFormedBody(body) && IsMirRun(body, run) && i < |run| && run[i].block == START_BLOCK
    ensures i == 0
  {
    if i > 0 { StepLeavesStart(body, run, i - 1); }
  }

  lemma StepLeavesStart(body: Body, run: seq<MirState>, i: nat)
    requires WellFormedBody(body) && IsMirRun(body, run) && i + 1 < |run|
    ensures run[i + 1].block != START_BLOCK
  {
    hide StmtsStep;
    assert MirStep(body, run[i], run[i + 1]);
  }

  /** Arriving from the preheader. */
  lemma EntryAgrees(body: Body, preds: seq<seq<BasicBlock>>, dominated: set<BasicBlock>, f: Func, header: BasicBlock,
                    params: seq<BlockParam>, sk: Skeleton, conv: Conv, model: Model, edges: BridgeEdges,
                    mrun: seq<MirState>, erun: seq<State>, s: Valuation, t: nat)
    requires Accepted(body, preds, dominated, f, header, params, sk, conv, model, edges) && AllValid(model, edges, conv)
    requires Paired(body, f, mrun, erun, s) && 0 < t < |mrun| && mrun[t].block == header &&
        mrun[t - 1].block == sk.preheader
    ensures HeaderAgrees(params, mrun[t].store, erun[t].env)
  {
    hide BuildModel, BuildBridge, ConvBlocks, ControlFlow, EntryArgs, AllValid, HeaderBranch, SkeletonOk, ListsEdges,
         ParamsDenote, HeaderParamsMatch, EntryValue, OperandIs, ArgTyped, EdgeArgsThroughDefs, SsaForm, EntryState,
             MirStep,
         BlockStep, WellTyped, FindBlock;
    var i := t - 1;
    var start := mrun[0].store;
    assert WellTyped(body, start);
    assert sk.preheader < |body.blocks| by { SkeletonRange(body, preds, header, ParamSet(params), sk); }
    BridgeHeader(body, f, header, params, model, edges);
    var hb := FindBlock(f.blocks, header).value;
    FoundId(f, header);
    EntryEdgeSound(f, ArgNames(body), erun, i, hb, s);
    EntryArgsAre(body, sk.preheader, params, model.paramTys);
    assert MirStep(body, mrun[i], mrun[i + 1]);
    if sk.preheader == START_BLOCK { StartOnlyFirst(body, mrun, i); }
    forall k | 0 <= k < |params|
      ensures params[k].local in mrun[t].store
      ensures OperandIs(model.mirLoop.preheaderArgs[k], start, mrun[t].store[params[k].local])
      ensures ArgTyped(body, model.mirLoop.preheaderArgs[k], start, s)
    {
      EntryValueSound(body, sk.preheader, params[k].local, mrun[i], mrun[i + 1], start);
      EntryArgTyped(body, sk.preheader, params[k].local, start, s);
    }
    EntrySlots(body, hb, params, model, edges, conv, start, mrun[t].store, erun[t].env, s);
  }

  lemma FoundId(f: Func, id: BlockId)
    requires FindBlock(f.blocks, id).Some?
    ensures FindBlock(f.blocks, id).value.id == id && FindBlock(f.blocks, id).value in f.blocks
  {
  }

  /** The main theorem: in every pair of runs that visit the same blocks, emitted header params and
      MIR locals agree at every visit of the header, however often the loop is entered and however
      many iterations it makes. */
  lemma {:induction false} EveryHeaderVisitAgrees(
      body: Body, preds: seq<seq<BasicBlock>>, dominated: set<BasicBlock>, f: Func, header: BasicBlock,
      params: seq<BlockParam>, sk: Skeleton, conv: Conv, model: Model, edges: BridgeEdges,
      mrun: seq<MirState>, erun: seq<State>, s: Valuation, t: nat)
    requires Accepted(body, preds, dominated, f, header, params, sk, conv, model, edges) && AllValid(model, edges, conv)
    requires Paired(body, f, mrun, erun, s) && t < |mrun| && mrun[t].block == header
    ensures HeaderAgrees(params, mrun[t].store, erun[t].env)
    decreases t
  {
    hide BuildModel, BuildBridge, ConvBlocks, ControlFlow, EntryArgs, AllValid, SkeletonOk, SsaForm, EntryState,
         IsMirRun, IsRun, WellTyped, HeaderAgrees, WellFormedBody, ListsEdges, ArgNames, IsCfgPath;
    var path := RunIsPath(body, mrun);
    ArrivalShape(body, preds, header, ParamSet(params), sk, path, t);
    var n := |sk.chain|;
    if mrun[t - 1].block == sk.preheader {
      EntryAgrees(body, preds, dominated, f, header, params, sk, conv, model, edges, mrun, erun, s, t);
    } else {
      var t0 := t - n - 1;
      EveryHeaderVisitAgrees(body, preds, dominated, f, header, params, sk, conv, model, edges, mrun, erun, s, t0);
      SegmentsTraverse(body, preds, f, header, params, sk, mrun, erun, path, t0, t);
      RunTyped(body, mrun, t0);
      DistinctFromSsa(body, f);
      TraversalKeepsAgreement(body, preds, dominated, f, header, params, sk, conv, model, edges, mrun[t0..t + 1],
          erun[t0..t + 1]);
    }
  }

  lemma DistinctFromSsa(body: Body, f: Func)
    requires SsaForm(f, ArgNames(body))
    ensures forall b :: b in f.blocks ==> DistinctParams(b.params)
  {
  }

  /** The stretch between two header visits through the latch is one traversal on both sides. */
  lemma SegmentsTraverse(body: Body, preds: seq<seq<BasicBlock>>, f: Func, header: BasicBlock,
      params: seq<BlockParam>, sk: Skeleton,
                         mrun: seq<MirState>, erun: seq<State>, path: seq<BasicBlock>, t0: nat, t: nat)
    requires SkeletonOk(body, preds, header, ParamSet(params), sk)
    requires IsMirRun(body, mrun) && IsRun(f, erun) && |mrun| == |erun| == |path|
    requires forall i :: 0 <= i < |mrun| ==> mrun[i].block == erun[i].block == path[i]
    requires t == t0 + |sk.chain| + 1 < |mrun| && path[t] == header && path[t0] == header && path[t0 + 1..t] == sk.chain
    ensures MirTraversal(body, header, sk.chain, mrun[t0..t + 1])
    ensures EmittedTraversal(f, header, sk.chain, erun[t0..t + 1])
  {
    hide MirStep, BlockStep, SkeletonOk, InRange;
    SkeletonRange(body, preds, header, ParamSet(params), sk);
    var all := [header] + sk.chain;
    forall i | 0 <= i < |sk.chain| + 1
      ensures mrun[t0..t + 1][i].block == all[i] && erun[t0..t + 1][i].block == all[i]
      ensures MirStep(body, mrun[t0..t + 1][i], mrun[t0..t + 1][i + 1])
      ensures BlockStep(f, erun[t0..t + 1][i], erun[t0..t + 1][i + 1])
    {
      var j := t0 + i;
      assert MirStep(body, mrun[j], mrun[j + 1]) && BlockStep(f, erun[j], erun[j + 1]);
      assert path[j] == all[i] by { if i > 0 { assert path[t0 + 1..t][i - 1] == sk.chain[i - 1]; } }
    }
  }
}
