/** The emitted side of one loop's obligation (`build_bridge_edges`): the two edges into the
    emitted header, derived from the emitted instructions alone. */
module Bridge {
  import opened Wrappers
  import opened Smt
  import opened TrustIr
  import opened SymbolicFold
  import opened EntryEdge
  import opened Mir
  import opened LoopModel

  datatype BridgeEdges = BridgeEdges(pre: seq<Expr>, latch: seq<Expr>)

  /** An emitted block reaches the header on no arm, or on one arm from a modelled block. */
  predicate ArmsOk(b: Block, header: BlockId, preheader: BlockId, latch: BlockId) {
    b.body == [] ||
    var arms := |EdgesTo(Terminator(b), header)|;
    arms == 0 || (arms == 1 && (b.id == preheader || b.id == latch))
  }

  predicate OnlyModelledArms(f: Func, header: BlockId, preheader: BlockId, latch: BlockId) {
    forall i :: 0 <= i < |f.blocks| ==> ArmsOk(f.blocks[i], header, preheader, latch)
  }

  predicate HeaderParamsMatch(b: Block, params: seq<BlockParam>, tys: seq<ScalarTy>)
    requires |params| == |tys|
  {
    && |b.params| == |params|
    && forall k :: 0 <= k < |params| ==>
         b.params[k].0 == params[k].value && IntWidth(b.params[k].1) == Some(TyBits(tys[k]))
  }

  function Seeds(params: seq<BlockParam>, tys: seq<ScalarTy>): SymEnv
    requires |params| == |tys|
  {
    if params == [] then map[]
    else
      var k := |params| - 1;
      Seeds(params[..k], tys[..k])[params[k].value := Var(Param(params[k].local), TyBits(tys[k]))]
  }

  function FindChain(f: Func, chain: seq<BasicBlock>): Option<seq<Block>> {
    if chain == [] then Some([])
    else match (FindBlock(f.blocks, chain[0]), FindChain(f, chain[1..]))
      case (Some(b), Some(rest)) => Some([b] + rest)
      case _ => None
  }

  predicate WidthsMatch(exprs: seq<Expr>, tys: seq<ScalarTy>) {
    |exprs| == |tys| && forall k :: 0 <= k < |tys| ==> Width(exprs[k]) == TyBits(tys[k])
  }

  /** Undefined values are named as the function arguments they are. */
  function ArgNames(body: Body): Base {
    map v | v in body.localTys && IsEntryArg(body, v) :: Var(EntryArg(v), TyBits(body.localTys[v]))
  }

  function BuildBridge(body: Body, f: Func, header: BasicBlock, params: seq<BlockParam>,
      model: Model): Option<BridgeEdges>
    requires |params| == |model.paramTys| && model.chain != []
  {
    match (FindBlock(f.blocks, header), FindChain(f, model.chain))
    case (Some(hb), Some(blocks)) =>
      if !OnlyModelledArms(f, header, model.preheader, model.chain[|model.chain| - 1]) then None
      else if !HeaderParamsMatch(hb, params, model.paramTys) then None
      else
        (match (ChainSpec([hb] + blocks, header, Seeds(params, model.paramTys), true),
                EdgeArgsThroughDefs(f, model.preheader, header, ArgNames(body)))
         case (Some(latch), Some(pre)) =>
           if WidthsMatch(latch, model.paramTys) &&
               WidthsMatch(pre, model.paramTys) then Some(BridgeEdges(pre, latch)) else None
         case _ => None)
    case _ => None
  }

  method SeedHeader(params: seq<BlockParam>, tys: seq<ScalarTy>) returns (seed: SymEnv)
    requires |params| == |tys|
    ensures seed == Seeds(params, tys)
  {
    seed := map[];
    for k := 0 to |params|
      invariant seed == Seeds(params[..k], tys[..k])
    {
      assert params[..k + 1][..k] == params[..k] && tys[..k + 1][..k] == tys[..k];
      seed := seed[params[k].value := Var(Param(params[k].local), TyBits(tys[k]))];
    }
    assert params[..|params|] == params && tys[..|params|] == tys;
  }

  /** `build_bridge_edges`, step by step. */
  method BuildBridgeEdges(body: Body, f: Func, header: BasicBlock, params: seq<BlockParam>, model: Model)
    returns (r: Option<BridgeEdges>)
    requires |params| == |model.paramTys| && model.chain != []
    ensures r == BuildBridge(body, f, header, params, model)
  {
    hide ChainSpec, EdgeArgsThroughDefs, WidthsMatch, HeaderParamsMatch, ArmsOk, Seeds, FindChain;
    var hb := FindBlock(f.blocks, header);
    if hb.None? { return None; }
    var latchId := model.chain[|model.chain| - 1];
    for i := 0 to |f.blocks|
      invariant forall j :: 0 <= j < i ==> ArmsOk(f.blocks[j], header, model.preheader, latchId)
    {
      if !ArmsOk(f.blocks[i], header, model.preheader, latchId) { return None; }
    }
    if !HeaderParamsMatch(hb.value, params, model.paramTys) { return None; }
    var seed := SeedHeader(params, model.paramTys);
    var blocks := FindChain(f, model.chain);
    if blocks.None? { return None; }
    var latch := InterpretChainToBackEdge([hb.value] + blocks.value, header, seed);
    if latch.None? || !WidthsMatch(latch.value, model.paramTys) { return None; }
    var pre := EdgeArgsThroughDefs(f, model.preheader, header, ArgNames(body));
    if pre.None? || !WidthsMatch(pre.value, model.paramTys) { return None; }
    return Some(BridgeEdges(pre.value, latch.value));
  }

  lemma {:induction false} FindChainBlocks(f: Func, chain: seq<BasicBlock>)
    requires FindChain(f, chain).Some?
    ensures |FindChain(f, chain).value| == |chain|
    ensures forall i :: 0 <= i < |chain| ==> FindBlock(f.blocks, chain[i]) == Some(FindChain(f, chain).value[i])
  {
    hide FindBlock;
    if chain != [] { FindChainBlocks(f, chain[1..]); }
  }

  /** In any emitted run whatsoever, control reaches the header only from the preheader or the
      latch, on the one arm the obligation inspects. */
  lemma EmittedArrival(body: Body, f: Func, header: BasicBlock, params: seq<BlockParam>, model: Model,
      run: seq<State>, t: nat)
    requires |params| == |model.paramTys| && model.chain != [] && BuildBridge(body, f, header, params, model).Some?
    requires IsRun(f, run) && 0 < t < |run| && run[t].block == header
    ensures run[t - 1].block == model.preheader || run[t - 1].block == model.chain[|model.chain| - 1]
  {
    hide ChainSpec, EdgeArgsThroughDefs, BodySteps, EdgesTo;
    var i := t - 1;
    assert BlockStep(f, run[i], run[i + 1]);
    var b, target := FindBlock(f.blocks, run[i].block).value, FindBlock(f.blocks, header).value;
    var out: Env, args :| BodySteps(run[i].env, Insts(b), out) &&
        EdgeStep(out, Terminator(b), target, args, run[t].env);
    TakenEdgeListed(out, Terminator(b), header, args);
    var j :| 0 <= j < |f.blocks| && f.blocks[j] == b;
    assert ArmsOk(f.blocks[j], header, model.preheader, model.chain[|model.chain| - 1]);
  }

  /** A seeded value is a header param's value, named after the local it carries. */
  lemma {:induction false} SeedsAre(params: seq<BlockParam>, tys: seq<ScalarTy>, v: ValueId)
    requires |params| == |tys| && v in Seeds(params, tys)
    ensures exists k ::
              && 0 <= k < |params| && params[k].value == v
              && Seeds(params, tys)[v] == Var(Param(params[k].local), TyBits(tys[k]))
  {
    var k := |params| - 1;
    if v != params[k].value {
      SeedsAre(params[..k], tys[..k], v);
    }
  }

  /** Accepted latch expressions are well-sorted, have exactly their slots' widths, and mention
      nothing but the header params. */
  lemma LatchExpressionsClosed(body: Body, f: Func, header: BasicBlock, params: seq<BlockParam>, model: Model)
    requires |params| == |model.paramTys| && model.chain != [] && BuildBridge(body, f, header, params, model).Some?
    ensures var latch := BuildBridge(body, f, header, params, model).value.latch;
            && |latch| == |params|
            && forall k :: 0 <= k < |latch| ==>
                 Width(latch[k]) == TyBits(model.paramTys[k]) && ClosedExpr(latch[k], SeedNames(params, model.paramTys))
  {
    hide ChainSpec, EdgeArgsThroughDefs;
    var hb, blocks := FindBlock(f.blocks, header).value, FindChain(f, model.chain).value;
    var seeds := SeedNames(params, model.paramTys);
    forall v | v in Seeds(params, model.paramTys) ensures ClosedExpr(Seeds(params, model.paramTys)[v], seeds) {
      SeedsAre(params, model.paramTys, v);
    }
    ChainClosed([hb] + blocks, header, Seeds(params, model.paramTys), true, seeds);
  }

  function SeedNames(params: seq<BlockParam>, tys: seq<ScalarTy>): set<(Name, nat)>
    requires |params| == |tys|
  {
    set k | 0 <= k < |params| :: (Param(params[k].local), TyBits(tys[k]))
  }
}
