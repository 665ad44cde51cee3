/** The MIR-side loop model: one preheader, one latch, a straight-line chain between header and
    latch, the reconstructed guard and the entry values (`build_mir_loop_model`). */
module LoopModel {
  import opened Wrappers
  import opened Bits
  import opened Smt
  import opened TrustIr
  import opened Mir
  import opened LoopVc
  import opened LoopConv
  import opened MirAnalysis

  /** A header phi: the MIR local it carries and the emitted value that carries it. */
  datatype BlockParam = BlockParam(local: Local, value: ValueId)

  datatype Model = Model(mirLoop: MirLoop, chain: seq<BasicBlock>, preheader: BasicBlock, paramTys: seq<ScalarTy>)

  /** The predecessors that are (`back`) or are not in `dominated`, the set of reachable blocks
      the header dominates. */
  function Select(preds: seq<BasicBlock>, dominated: set<BasicBlock>, back: bool): seq<BasicBlock> {
    if preds == [] then []
    else (if (preds[0] in dominated) == back then [preds[0]] else []) + Select(preds[1..], dominated, back)
  }

  function ParamTys(body: Body, params: seq<BlockParam>): Option<seq<ScalarTy>> {
    if params == [] then Some([])
    else match (LocalTy(body, params[0].local), ParamTys(body, params[1..]))
      case (Some(ty), Some(rest)) => Some([ty] + rest)
      case _ => None
  }

  function ParamSet(params: seq<BlockParam>): set<Local> {
    set p | p in params :: p.local
  }

  /** The header's continue arm, its exit arm, and the param that decides between them. */
  datatype Branch = Branch(guard: Option<Local>, entry: BasicBlock, exit: Option<BasicBlock>)

  function HeaderBranch(data: BlockData, params: set<Local>): Option<Branch> {
    match data.terminator
    case Goto(t) => Some(Branch(None, t, None))
    case SwitchInt(discr, cases, otherwise) =>
      if |cases| != 1 || cases[0].0 != 0 || OperandLocal(discr).None? then None
      else (match ResolveCond(data.statements, OperandLocal(discr).value, params)
            case None => None
            case Some(EqZero(p)) => Some(Branch(Some(p), cases[0].1, Some(otherwise)))
            case Some(shape) => Some(Branch(Some(shape.param), otherwise, Some(cases[0].1))))
    case _ => None
  }

  /** Where a chain block continues: only jumps and assertions are followed. */
  function NextInChain(t: MirTerminator): Option<BasicBlock> {
    match t
    case Goto(b) => Some(b)
    case Assert(b, _) => Some(b)
    case _ => None
  }

  function Below(n: nat): (r: set<nat>)
    ensures forall b: nat :: b in r <==> b < n
  {
    if n == 0 then {} else Below(n - 1) + {n - 1}
  }

  function AllBlocks(body: Body): set<BasicBlock> {
    Below(|body.blocks|)
  }

  lemma NextInRange(body: Body, b: BasicBlock)
    requires WellFormedBody(body) && b < |body.blocks| && NextInChain(body.blocks[b].terminator).Some?
    ensures NextInChain(body.blocks[b].terminator).value in Successors(body.blocks[b].terminator)
    ensures 0 < NextInChain(body.blocks[b].terminator).value < |body.blocks|
  {
  }

  /** The straight-line walk from `current` back to the header; `None` when it revisits a block,
      meets the header early, or leaves the slice. Terminates on every CFG. */
  function Walk(body: Body, header: BasicBlock, current: BasicBlock, visited: set<BasicBlock>): Option<seq<BasicBlock>>
    requires WellFormedBody(body) && current < |body.blocks|
    decreases AllBlocks(body) - visited
  {
    if current == header || current in visited then None
    else match NextInChain(body.blocks[current].terminator)
      case None => None
      case Some(next) =>
        if next == header then Some([current])
        else
          assert current in AllBlocks(body) - visited;
          NextInRange(body, current);
          match Walk(body, header, next, visited + {current})
          case None => None
          case Some(rest) => Some([current] + rest)
  }

  function Behind(chain: seq<BasicBlock>, rest: Option<seq<BasicBlock>>): Option<seq<BasicBlock>> {
    if rest.None? then None else Some(chain + rest.value)
  }

  lemma BehindBoth(a: seq<BasicBlock>, b: seq<BasicBlock>, rest: Option<seq<BasicBlock>>)
    ensures Behind(a, Behind(b, rest)) == Behind(a + b, rest) && Behind([], rest) == rest
  {
    if rest.Some? { assert a + (b + rest.value) == a + b + rest.value && [] + rest.value == rest.value; }
  }

  lemma WalkStep(body: Body, header: BasicBlock, current: BasicBlock, visited: set<BasicBlock>)
    requires WellFormedBody(body) && current < |body.blocks| && current != header && current !in visited
    ensures var next := NextInChain(body.blocks[current].terminator);
            && (next.Some? ==> next.value < |body.blocks|)
            && Walk(body, header, current, visited) ==
               if next.None? then None
               else if next.value == header then Some([current])
               else Behind([current], Walk(body, header, next.value, visited + {current}))
  {
    if NextInChain(body.blocks[current].terminator).Some? { NextInRange(body, current); }
  }

  method WalkChain(body: Body, header: BasicBlock, entry: BasicBlock) returns (r: Option<seq<BasicBlock>>)
    requires WellFormedBody(body) && entry < |body.blocks|
    ensures r == Walk(body, header, entry, {})
  {
    var chain: seq<BasicBlock> := [];
    var visited: set<BasicBlock> := {};
    var current: BasicBlock := entry;
    BehindBoth([], [], Walk(body, header, entry, {}));
    while true
      invariant current < |body.blocks| && visited <= AllBlocks(body) && |chain| == |visited|
      invariant Walk(body, header, entry, {}) == Behind(chain, Walk(body, header, current, visited))
      decreases AllBlocks(body) - visited
    {
      if current == header || current in visited { return None; }
      hide Walk, WellFormedBody, AllBlocks;
      WalkStep(body, header, current, visited);
      BlocksAre(body, current);
      ghost var before := chain;
      chain := chain + [current];
      var next := NextInChain(body.blocks[current].terminator);
      if next.None? { return None; }
      if next.value == header { return Some(chain); }
      BehindBoth(before, [current], Walk(body, header, next.value, visited + {current}));
      visited := visited + {current};
      BlockCount(body, visited);
      if |chain| > |body.blocks| { return None; } // the source's backstop; never taken
      current := next.value;
    }
  }

  lemma BlocksAre(body: Body, b: BasicBlock)
    ensures b in AllBlocks(body) <==> b < |body.blocks|
  {
  }

  lemma {:induction false} BlockCount(body: Body, s: set<BasicBlock>)
    requires s <= AllBlocks(body)
    ensures |s| <= |body.blocks|
  {
    PrefixCount(s, |body.blocks|);
  }

  lemma {:induction false} PrefixCount(s: set<BasicBlock>, n: nat)
    requires forall b :: b in s ==> b < n
    ensures |s| <= n
  {
    if n > 0 {
      PrefixCount(s - {n - 1}, n - 1);
    } else {
      assert s == {};
    }
  }

  /** Every chain block's only predecessor is the block before it. */
  predicate StraightLine(preds: seq<seq<BasicBlock>>, header: BasicBlock, chain: seq<BasicBlock>) {
    forall i :: 0 <= i < |chain| ==>
      chain[i] < |preds| && preds[chain[i]] == [if i == 0 then header else chain[i - 1]]
  }

  predicate ExitLeaves(exit: Option<BasicBlock>, header: BasicBlock, chain: seq<BasicBlock>) {
    exit.Some? ==> exit.value != header && exit.value !in chain
  }

  function EntryArgs(body: Body, preheader: BasicBlock, params: seq<BlockParam>,
      tys: seq<ScalarTy>): Option<seq<SpecOperand>>
    requires preheader < |body.blocks| && |params| == |tys|
  {
    if params == [] then Some([])
    else match EntryValue(body, preheader, params[0].local)
      case None => None
      case Some(arg) =>
        if TyBits(arg.ty) != TyBits(tys[0]) then None
        else match EntryArgs(body, preheader, params[1..], tys[1..])
          case None => None
          case Some(rest) => Some([arg] + rest)
  }

  function ParamOperands(params: seq<BlockParam>, tys: seq<ScalarTy>): (r: seq<SpecOperand>)
    requires |params| == |tys|
    ensures |r| == |params| && forall k :: 0 <= k < |params| ==> r[k] == SpecVar(Param(params[k].local), tys[k])
  {
    seq(|params|, k requires 0 <= k < |params| => SpecVar(Param(params[k].local), tys[k]))
  }

  function HeaderParams(params: seq<BlockParam>, tys: seq<ScalarTy>): (r: seq<(Name, ScalarTy)>)
    requires |params| == |tys|
    ensures |r| == |params| && forall k :: 0 <= k < |params| ==> r[k] == (Param(params[k].local), tys[k])
  {
    seq(|params|, k requires 0 <= k < |params| => (Param(params[k].local), tys[k]))
  }

  lemma {:induction false} ParamTysShape(body: Body, params: seq<BlockParam>)
    requires ParamTys(body, params).Some?
    ensures |ParamTys(body, params).value| == |params|
    ensures forall k :: 0 <= k < |params| ==>
              params[k].local in body.localTys && ParamTys(body, params).value[k] == body.localTys[params[k].local]
  {
    if params != [] {
      ParamTysShape(body, params[1..]);
      assert forall k :: 0 < k < |params| ==> params[k] == params[1..][k - 1];
    }
  }

  lemma {:induction false} WalkShape(body: Body, header: BasicBlock, current: BasicBlock, visited: set<BasicBlock>)
    requires WellFormedBody(body) && current < |body.blocks| && Walk(body, header, current, visited).Some?
    ensures var chain := Walk(body, header, current, visited).value;
            ChainShape(body, header, current, chain) && forall b :: b in chain ==> b !in visited
    decreases AllBlocks(body) - visited
  {
    hide NextInChain, WellFormedBody, ChainShape, AllBlocks;
    var next := NextInChain(body.blocks[current].terminator).value;
    NextInRange(body, current);
    if next == header {
      ChainOfOne(body, header, current);
    } else {
      assert current in AllBlocks(body) - visited by { KnownBlock(body, current); }
      WalkShape(body, header, next, visited + {current});
      ChainGrows(body, header, current, next, Walk(body, header, next, visited + {current}).value);
    }
  }

  lemma KnownBlock(body: Body, b: BasicBlock)
    requires b < |body.blocks|
    ensures b in AllBlocks(body)
  {
  }

  lemma ChainOfOne(body: Body, header: BasicBlock, current: BasicBlock)
    requires current < |body.blocks| && current != header
    requires NextInChain(body.blocks[current].terminator) == Some(header)
    ensures ChainShape(body, header, current, [current])
  {
    hide NextInChain;
  }

  lemma ChainGrows(body: Body, header: BasicBlock, current: BasicBlock, next: BasicBlock, rest: seq<BasicBlock>)
    requires ChainShape(body, header, next, rest) && current < |body.blocks| && current != header && current !in rest
    requires NextInChain(body.blocks[current].terminator) == Some(next)
    ensures ChainShape(body, header, current, [current] + rest)
  {
    var chain := [current] + rest;
    BlocksGrow(body, header, current, next, rest);
    hide NextInChain, NoRepeats, ChainNext, InRange;
    forall i | 0 <= i < |chain|
      ensures NextInChain(body.blocks[chain[i]].terminator) == Some(ChainNext(chain, header, i))
    {
      LinkGrows(body, header, current, next, rest, i);
    }
  }

  lemma BlocksGrow(body: Body, header: BasicBlock, current: BasicBlock, next: BasicBlock, rest: seq<BasicBlock>)
    requires ChainShape(body, header, next, rest) && current < |body.blocks| && current != header && current !in rest
    ensures var chain := [current] + rest;
            InRange(body, chain) && NoRepeats(chain) && forall i :: 0 <= i < |chain| ==> chain[i] != header
  {
    hide NextInChain, ChainNext;
  }

  lemma LinkGrows(body: Body, header: BasicBlock, current: BasicBlock, next: BasicBlock, rest: seq<BasicBlock>, i: nat)
    requires ChainShape(body, header, next, rest) && current < |body.blocks| && i <= |rest|
    requires NextInChain(body.blocks[current].terminator) == Some(next)
    ensures var chain := [current] + rest;
            chain[i] < |body.blocks| &&
            NextInChain(body.blocks[chain[i]].terminator) == Some(ChainNext(chain, header, i))
  {
    hide NextInChain, NoRepeats;
    var chain := [current] + rest;
    if i > 0 {
      assert chain[i] == rest[i - 1];
      assert ChainNext(chain, header, i) == ChainNext(rest, header, i - 1);
    }
  }

  function ChainNext(chain: seq<BasicBlock>, header: BasicBlock, i: nat): BasicBlock {
    if i + 1 < |chain| then chain[i + 1] else header
  }

  ghost predicate NoRepeats(chain: seq<BasicBlock>) {
    forall i, j :: 0 <= i < j < |chain| ==> chain[i] != chain[j]
  }

  /** A nonempty repetition-free walk through in-range blocks other than the header, each
      continuing to the next and the last to the header. */
  ghost predicate ChainShape(body: Body, header: BasicBlock, entry: BasicBlock, chain: seq<BasicBlock>) {
    && |chain| > 0 && chain[0] == entry && InRange(body, chain)
    && (forall i :: 0 <= i < |chain| ==> chain[i] != header)
    && NoRepeats(chain)
    && (forall i :: 0 <= i < |chain| ==>
          NextInChain(body.blocks[chain[i]].terminator) == Some(ChainNext(chain, header, i)))
  }

  /** Everything accepted about the loop's control flow. */
  datatype Skeleton = Skeleton(preheader: BasicBlock, latch: BasicBlock, branch: Branch, chain: seq<BasicBlock>)

  function ControlFlow(body: Body, preds: seq<seq<BasicBlock>>, dominated: set<BasicBlock>, header: BasicBlock,
                       params: set<Local>): Option<Skeleton>
    requires WellFormedBody(body) && header < |body.blocks| && |preds| == |body.blocks|
  {
    var forward := Select(preds[header], dominated, false);
    var back := Select(preds[header], dominated, true);
    var branch := HeaderBranch(body.blocks[header], params);
    if |forward| != 1 || |back| != 1 || branch.None? then None
    else
      BranchInRange(body, header, params);
      match Walk(body, header, branch.value.entry, {})
      case None => None
      case Some(chain) =>
        if chain == [] || chain[|chain| - 1] != back[0] || !StraightLine(preds, header, chain) ||
           !ExitLeaves(branch.value.exit, header, chain)
        then None
        else Some(Skeleton(forward[0], back[0], branch.value, chain))
  }

  lemma {:induction false} CaseTargetListed(cases: seq<(int, BasicBlock)>, i: nat)
    requires i < |cases|
    ensures cases[i].1 in CaseTargets(cases)
  {
    if i > 0 { CaseTargetListed(cases[1..], i - 1); }
  }

  lemma BranchInRange(body: Body, header: BasicBlock, params: set<Local>)
    requires WellFormedBody(body) && header < |body.blocks| && HeaderBranch(body.blocks[header], params).Some?
    ensures HeaderBranch(body.blocks[header], params).value.entry < |body.blocks|
    ensures HeaderBranch(body.blocks[header], params).value.entry in Successors(body.blocks[header].terminator)
  {
    var t := body.blocks[header].terminator;
    if t.SwitchInt? { CaseTargetListed(t.cases, 0); }
    assert HeaderBranch(body.blocks[header], params).value.entry in Successors(t);
  }

  /** The whole model, as a function of the MIR. */
  function BuildModel(body: Body, preds: seq<seq<BasicBlock>>, dominated: set<BasicBlock>, header: BasicBlock,
                      params: seq<BlockParam>): Option<Model>
    requires WellFormedBody(body) && header < |body.blocks| && |preds| == |body.blocks|
    requires InRange(body, preds[header])
  {
    match (ControlFlow(body, preds, dominated, header, ParamSet(params)), ParamTys(body, params))
    case (Some(sk), Some(tys)) =>
      ParamTysShape(body, params);
      SkeletonShape(body, preds, dominated, header, ParamSet(params));
      (match (ConvBlocks(body, Conv([], false, ParamSet(params)), [header] + sk.chain),
          EntryArgs(body, sk.preheader, params, tys))
       case (Some(c), Some(entry)) =>
         if sk.branch.guard.None? && c.hasDivRem then None
         else if sk.branch.guard.Some? && sk.branch.guard.value !in body.localTys then None
         else
           var guard := if sk.branch.guard.None? then None
                        else Some(SpecVar(Param(sk.branch.guard.value), body.localTys[sk.branch.guard.value]));
           Some(Model(MirLoop(HeaderParams(params, tys), entry, c.stmts, ParamOperands(params, tys), guard),
                      sk.chain, sk.preheader, tys))
       case _ => None)
    case _ => None
  }

  ghost predicate Divides(stmts: seq<SpecStmt>) {
    exists st <- stmts :: st.rvalue.SpecBinary? && IsDivRem(st.rvalue.op)
  }

  lemma ConvStepDivides(body: Body, c: Conv, stmt: Statement)
    requires ConvStep(body, c, stmt).Some? && (c.hasDivRem <==> Divides(c.stmts))
    ensures var c' := ConvStep(body, c, stmt).value; c'.hasDivRem <==> Divides(c'.stmts)
  {
    if stmt.Assign? {
      var c' := ConvStep(body, c, stmt).value;
      var last := c'.stmts[|c.stmts|];
      hide ConvRvalue;
      assert c'.stmts == c.stmts + [last];
      assert forall st :: st in c'.stmts <==> st in c.stmts || st == last;
    }
  }

  lemma {:induction false} ConvAllDivides(body: Body, c: Conv, stmts: seq<Statement>)
    requires ConvAll(body, c, stmts).Some? && (c.hasDivRem <==> Divides(c.stmts))
    ensures var c' := ConvAll(body, c, stmts).value; c'.hasDivRem <==> Divides(c'.stmts)
    decreases stmts
  {
    hide ConvStep, Divides;
    if stmts != [] {
      ConvStepDivides(body, c, stmts[0]);
      ConvAllDivides(body, ConvStep(body, c, stmts[0]).value, stmts[1..]);
    }
  }

  lemma {:induction false} ConvBlocksDivides(body: Body, c: Conv, blocks: seq<BasicBlock>)
    requires InRange(body, blocks) && ConvBlocks(body, c, blocks).Some? && (c.hasDivRem <==> Divides(c.stmts))
    ensures var c' := ConvBlocks(body, c, blocks).value; c'.hasDivRem <==> Divides(c'.stmts)
    decreases blocks
  {
    hide ConvAll, Divides;
    if blocks != [] {
      ConvAllDivides(body, c, body.blocks[blocks[0]].statements);
      ConvBlocksDivides(body, ConvAll(body, c, body.blocks[blocks[0]].statements).value, blocks[1..]);
    }
  }

  /** A loop that divides is only ever accepted with a guard. */
  lemma DivisionIsGuarded(body: Body, preds: seq<seq<BasicBlock>>, dominated: set<BasicBlock>, header: BasicBlock,
                          params: seq<BlockParam>)
    requires WellFormedBody(body) && header < |body.blocks| && |preds| == |body.blocks| && InRange(body, preds[header])
    requires BuildModel(body, preds, dominated, header, params).Some?
    requires Divides(BuildModel(body, preds, dominated, header, params).value.mirLoop.latchStmts)
    ensures BuildModel(body, preds, dominated, header, params).value.mirLoop.guard.Some?
  {
    hide ControlFlow, ConvBlocks, ParamTys, EntryArgs, WellFormedBody, Divides;
    var sk := ControlFlow(body, preds, dominated, header, ParamSet(params)).value;
    SkeletonShape(body, preds, dominated, header, ParamSet(params));
    NothingDivides();
    ConvBlocksDivides(body, Conv([], false, ParamSet(params)), [header] + sk.chain);
  }

  lemma NothingDivides()
    ensures !Divides([])
  {
  }

  // --- When the guard keeps a divisor from being zero --------------------------------------------------

  /** The statement at `i` divides by a name no earlier statement assigns. */
  predicate DividesByInput(stmts: seq<SpecStmt>, i: nat) {
    && i < |stmts| && stmts[i].rvalue.SpecBinary? && IsDivRem(stmts[i].rvalue.op) && stmts[i].rvalue.r.SpecVar?
    && forall j :: 0 <= j < i ==> stmts[j].dst != stmts[i].rvalue.r.name
  }

  lemma {:induction false} StoreNames(stmts: seq<SpecStmt>, n: Name)
    requires EncodeStore(stmts).Some? && forall j :: 0 <= j < |stmts| ==> stmts[j].dst != n
    ensures n !in EncodeStore(stmts).value
  {
    hide EncodeRvalue;
    if stmts != [] { StoreNames(stmts[..|stmts| - 1], n); }
  }

  /** Over the inputs the guard admits, a divisor no earlier statement assigns is never zero if and only
      if it is the guard parameter itself. */
  lemma GuardExcludesZeroIff(lp: MirLoop, i: nat)
    requires DividesByInput(lp.latchStmts, i) && EncodeStore(lp.latchStmts[..i]).Some?
    requires lp.guard.Some? && lp.guard.value.SpecVar?
    requires lp.latchStmts[i].rvalue.r.name == lp.guard.value.name ==> lp.latchStmts[i].rvalue.r.ty == lp.guard.value.ty
    ensures var divisor := Resolve(EncodeStore(lp.latchStmts[..i]).value, lp.latchStmts[i].rvalue.r);
            (forall s: Valuation :: GuardHolds(GuardExpr(lp), s) ==> Eval(divisor, s) != 0) <==>
            lp.latchStmts[i].rvalue.r.name == lp.guard.value.name
  {
    var (d, g) := (lp.latchStmts[i].rvalue.r, lp.guard.value);
    StoreNames(lp.latchStmts[..i], d.name);
    hide EncodeStore, Wrap;
    assert Resolve(EncodeStore(lp.latchStmts[..i]).value, d) == Var(d.name, TyBits(d.ty));
    if d.name != g.name {
      var s: Valuation := map[g.name := 1, d.name := 0];
      WrapSmall(0, TyBits(d.ty));
      Pow2Exceeds(TyBits(g.ty));
      WrapSmall(1, TyBits(g.ty));
      assert GuardHolds(GuardExpr(lp), s) && Eval(Var(d.name, TyBits(d.ty)), s) == 0;
    }
  }

  /** The right operand of every converted division has its local's declared type. */
  ghost predicate DivisorsTyped(body: Body, stmts: seq<SpecStmt>) {
    forall st <- stmts :: st.rvalue.SpecBinary? && st.rvalue.r.SpecVar? ==>
      st.rvalue.r.name.Param? && st.rvalue.r.name.local in body.localTys &&
          st.rvalue.r.ty == body.localTys[st.rvalue.r.name.local]
  }

  lemma ConvStepTyped(body: Body, c: Conv, stmt: Statement)
    requires ConvStep(body, c, stmt).Some? && DivisorsTyped(body, c.stmts)
    ensures DivisorsTyped(body, ConvStep(body, c, stmt).value.stmts)
  {
  }

  lemma {:induction false} ConvAllTyped(body: Body, c: Conv, stmts: seq<Statement>)
    requires ConvAll(body, c, stmts).Some? && DivisorsTyped(body, c.stmts)
    ensures DivisorsTyped(body, ConvAll(body, c, stmts).value.stmts)
    decreases stmts
  {
    hide ConvStep, DivisorsTyped;
    if stmts != [] {
      ConvStepTyped(body, c, stmts[0]);
      ConvAllTyped(body, ConvStep(body, c, stmts[0]).value, stmts[1..]);
    }
  }

  lemma {:induction false} ConvBlocksTyped(body: Body, c: Conv, blocks: seq<BasicBlock>)
    requires InRange(body, blocks) && ConvBlocks(body, c, blocks).Some? && DivisorsTyped(body, c.stmts)
    ensures DivisorsTyped(body, ConvBlocks(body, c, blocks).value.stmts)
    decreases blocks
  {
    hide ConvAll, DivisorsTyped;
    if blocks != [] {
      ConvAllTyped(body, c, body.blocks[blocks[0]].statements);
      ConvBlocksTyped(body, ConvAll(body, c, body.blocks[blocks[0]].statements).value, blocks[1..]);
    }
  }

  lemma {:induction false} PrefixEncodes(stmts: seq<SpecStmt>, i: nat)
    requires i <= |stmts| && EncodeStore(stmts).Some?
    ensures EncodeStore(stmts[..i]).Some?
    decreases |stmts|
  {
    hide EncodeRvalue;
    if i == |stmts| {
      assert stmts[..i] == stmts;
    } else {
      assert stmts[..|stmts| - 1][..i] == stmts[..i];
      PrefixEncodes(stmts[..|stmts| - 1], i);
    }
  }

  lemma {:induction false} SelectSubset(preds: seq<BasicBlock>, dominated: set<BasicBlock>, back: bool)
    ensures forall b :: b in Select(preds, dominated, back) <==> b in preds && ((b in dominated) == back)
  {
    if preds != [] { SelectSubset(preds[1..], dominated, back); }
  }

  ghost predicate SkeletonOk(body: Body, preds: seq<seq<BasicBlock>>, header: BasicBlock, params: set<Local>,
      sk: Skeleton) {
    && header < |body.blocks| && |preds| == |body.blocks|
    && HeaderBranch(body.blocks[header], params) == Some(sk.branch)
    && sk.branch.entry in Successors(body.blocks[header].terminator)
    && ChainShape(body, header, sk.branch.entry, sk.chain)
    && StraightLine(preds, header, sk.chain) && ExitLeaves(sk.branch.exit, header, sk.chain)
    && sk.latch == sk.chain[|sk.chain| - 1]
    && sk.preheader < |body.blocks| && InRange(body, [header] + sk.chain)
    && (forall b :: b in preds[header] ==> b == sk.preheader || b == sk.latch)
  }

  lemma SkeletonShape(body: Body, preds: seq<seq<BasicBlock>>, dominated: set<BasicBlock>, header: BasicBlock,
      params: set<Local>)
    requires WellFormedBody(body) && header < |body.blocks| && |preds| == |body.blocks| && InRange(body, preds[header])
    requires ControlFlow(body, preds, dominated, header, params).Some?
    ensures SkeletonOk(body, preds, header, params, ControlFlow(body, preds, dominated, header, params).value)
  {
    hide Walk, HeaderBranch, StraightLine, ExitLeaves;
    BranchInRange(body, header, params);
    WalkShape(body, header, HeaderBranch(body.blocks[header], params).value.entry, {});
    SelectSubset(preds[header], dominated, true);
    SelectSubset(preds[header], dominated, false);
    var forward := Select(preds[header], dominated, false);
    assert forward[0] in forward;
  }

  method PartitionPredecessors(preds: seq<BasicBlock>, dominated: set<BasicBlock>)
    returns (forward: seq<BasicBlock>, back: seq<BasicBlock>)
    ensures forward == Select(preds, dominated, false) && back == Select(preds, dominated, true)
  {
    forward, back := [], [];
    for i := 0 to |preds|
      invariant Select(preds, dominated, false) == forward + Select(preds[i..], dominated, false)
      invariant Select(preds, dominated, true) == back + Select(preds[i..], dominated, true)
    {
      assert preds[i..][1..] == preds[i + 1..];
      if preds[i] in dominated { back := back + [preds[i]]; } else { forward := forward + [preds[i]]; }
    }
  }

  method ContinueArm(data: BlockData, params: set<Local>) returns (r: Option<Branch>)
    ensures r == HeaderBranch(data, params)
  {
    match data.terminator {
    case Goto(t) => return Some(Branch(None, t, None));
    case SwitchInt(discr, cases, otherwise) =>
      if |cases| != 1 || cases[0].0 != 0 || OperandLocal(discr).None? { return None; }
      var shape := ResolveCondShape(data.statements, OperandLocal(discr).value, params);
      if shape.None? { return None; }
      if shape.value.EqZero? { return Some(Branch(Some(shape.value.param), cases[0].1, Some(otherwise))); }
      return Some(Branch(Some(shape.value.param), otherwise, Some(cases[0].1)));
    case _ => return None;
    }
  }

  method CollectEntryArgs(body: Body, preheader: BasicBlock, params: seq<BlockParam>, tys: seq<ScalarTy>)
    returns (r: Option<seq<SpecOperand>>)
    requires preheader < |body.blocks| && |params| == |tys|
    ensures r == EntryArgs(body, preheader, params, tys)
  {
    hide EntryValue;
    var args: seq<SpecOperand> := [];
    assert params[0..] == params && tys[0..] == tys && forall rest: seq<SpecOperand> :: args + rest == rest;
    for i := 0 to |params|
      invariant EntryArgs(body, preheader, params, tys) ==
                match EntryArgs(body, preheader, params[i..], tys[i..])
                case None => None
                case Some(rest) => Some(args + rest)
    {
      assert params[i..][1..] == params[i + 1..] && tys[i..][1..] == tys[i + 1..];
      var arg := ResolveEntryValue(body, preheader, params[i].local);
      if arg.None? || TyBits(arg.value.ty) != TyBits(tys[i]) { return None; }
      assert forall rest: seq<SpecOperand> :: args + ([arg.value] + rest) == args + [arg.value] + rest;
      args := args + [arg.value];
    }
    assert args + [] == args;
    return Some(args);
  }

  /** `build_mir_loop_model`, step by step. */
  method BuildMirLoopModel(body: Body, preds: seq<seq<BasicBlock>>, dominated: set<BasicBlock>, header: BasicBlock,
                           params: seq<BlockParam>) returns (r: Option<Model>)
    requires WellFormedBody(body) && header < |body.blocks| && |preds| == |body.blocks|
    requires InRange(body, preds[header])
    ensures r == BuildModel(body, preds, dominated, header, params)
  {
    hide Select, Walk, HeaderBranch, ParamTys, EntryArgs, ConvBlocks, StraightLine, ExitLeaves, WellFormedBody;
    var paramSet := ParamSet(params);
    var forward, back := PartitionPredecessors(preds[header], dominated);
    if |forward| != 1 || |back| != 1 { return None; }
    var tys := ParamTys(body, params);
    if tys.None? { return None; }
    ParamTysShape(body, params);
    var branch := ContinueArm(body.blocks[header], paramSet);
    if branch.None? { return None; }
    BranchInRange(body, header, paramSet);
    var chain := WalkChain(body, header, branch.value.entry);
    if chain.None? || chain.value == [] || chain.value[|chain.value| - 1] != back[0] { return None; }
    if !StraightLine(preds, header, chain.value) || !ExitLeaves(branch.value.exit, header, chain.value) { return None; }
    SkeletonShape(body, preds, dominated, header, paramSet);
    var conv := ConvStatements(body, [header] + chain.value, paramSet);
    if conv.None? || (branch.value.guard.None? && conv.value.hasDivRem) { return None; }
    var guard := None;
    if branch.value.guard.Some? {
      var p := branch.value.guard.value;
      if p !in body.localTys { return None; }
      guard := Some(SpecVar(Param(p), body.localTys[p]));
    }
    var entry := CollectEntryArgs(body, forward[0], params, tys.value);
    if entry.None? { return None; }
    return Some(Model(MirLoop(HeaderParams(params, tys.value), entry.value, conv.value.stmts,
        ParamOperands(params, tys.value), guard),
                      chain.value, forward[0], tys.value));
  }

  // --- Straight-line uniqueness ---------------------------------------------------------------

  /** A path in the MIR control-flow graph from the start block. */
  ghost predicate IsCfgPath(body: Body, path: seq<BasicBlock>) {
    && |path| > 0 && path[0] == START_BLOCK && InRange(body, path)
    && forall i :: 0 <= i < |path| - 1 ==> path[i + 1] in Successors(body.blocks[path[i]].terminator)
  }

  /** `path[t]` is `chain[j]`: then the walk from the header to here is right behind it. */
  lemma {:induction false} ChainBehind(body: Body, preds: seq<seq<BasicBlock>>, header: BasicBlock, entry: BasicBlock,
                                       chain: seq<BasicBlock>, path: seq<BasicBlock>, t: nat, j: nat)
    requires WellFormedBody(body) && ListsEdges(body, preds) && header < |body.blocks| && IsCfgPath(body, path)
    requires ChainShape(body, header, entry, chain) && StraightLine(preds, header, chain)
    requires entry in Successors(body.blocks[header].terminator)
    requires t < |path| && j < |chain| && path[t] == chain[j]
    ensures t >= j + 1 && path[t - j - 1] == header
    ensures path[t - j..t + 1] == chain[..j + 1]
    decreases j
  {
    hide IsCfgPath, ListsEdges, WellFormedBody, ChainShape, StraightLine;
    ChainPositive(body, header, entry, chain, j);
    StepBack(body, preds, path, t);
    var prev := if j == 0 then header else chain[j - 1];
    OnlyPredecessor(preds, header, chain, j);
    assert path[t - 1] == prev;
    if j > 0 {
      ChainBehind(body, preds, header, entry, chain, path, t - 1, j - 1);
      assert path[t - j..t + 1] == path[t - j..t] + [path[t]];
      assert chain[..j + 1] == chain[..j] + [chain[j]];
    }
  }

  lemma OnlyPredecessor(preds: seq<seq<BasicBlock>>, header: BasicBlock, chain: seq<BasicBlock>, j: nat)
    requires StraightLine(preds, header, chain) && j < |chain|
    ensures chain[j] < |preds| && preds[chain[j]] == [if j == 0 then header else chain[j - 1]]
  {
  }

  lemma ChainPositive(body: Body, header: BasicBlock, entry: BasicBlock, chain: seq<BasicBlock>, j: nat)
    requires WellFormedBody(body) && header < |body.blocks| && ChainShape(body, header, entry, chain) && j < |chain|
    requires entry in Successors(body.blocks[header].terminator)
    ensures chain[j] > 0
  {
    if j > 0 {
      var i := j - 1;
      assert NextInChain(body.blocks[chain[i]].terminator) == Some(ChainNext(chain, header, i));
      NextInRange(body, chain[i]);
    }
  }

  lemma HeaderPositive(body: Body, header: BasicBlock, entry: BasicBlock, chain: seq<BasicBlock>)
    requires WellFormedBody(body) && ChainShape(body, header, entry, chain)
    ensures header > 0 && |chain| > 0 && NoRepeats(chain)
  {
    hide NoRepeats;
    var i := |chain| - 1;
    assert NextInChain(body.blocks[chain[i]].terminator) == Some(ChainNext(chain, header, i));
    NextInRange(body, chain[i]);
  }

  lemma StepBack(body: Body, preds: seq<seq<BasicBlock>>, path: seq<BasicBlock>, t: nat)
    requires ListsEdges(body, preds) && IsCfgPath(body, path) && t < |path| && path[t] > 0
    ensures t > 0 && path[t - 1] in preds[path[t]]
  {
    var i := t - 1;
    assert path[i + 1] in Successors(body.blocks[path[i]].terminator);
  }

  /** Arrival at the header: from the preheader, or through the latch after one whole traversal. */
  ghost predicate Arrival(sk: Skeleton, header: BasicBlock, path: seq<BasicBlock>, t: nat)
    requires 0 < t < |path|
  {
    var n := |sk.chain|;
    || path[t - 1] == sk.preheader
    || (path[t - 1] == sk.latch && t >= n + 1 && path[t - n - 1] == header && path[t - n..t] == sk.chain)
  }

  lemma ArrivalShape(body: Body, preds: seq<seq<BasicBlock>>, header: BasicBlock, params: set<Local>, sk: Skeleton,
                     path: seq<BasicBlock>, t: nat)
    requires WellFormedBody(body) && ListsEdges(body, preds) && SkeletonOk(body, preds, header, params, sk)
    requires IsCfgPath(body, path) && t < |path| && path[t] == header
    ensures t > 0 && Arrival(sk, header, path, t)
  {
    hide IsCfgPath, ListsEdges, WellFormedBody, ChainShape, StraightLine, HeaderBranch, ExitLeaves, InRange;
    HeaderPositive(body, header, sk.branch.entry, sk.chain);
    hide NoRepeats;
    StepBack(body, preds, path, t);
    if path[t - 1] == sk.latch {
      var n := |sk.chain|;
      ChainBehind(body, preds, header, sk.branch.entry, sk.chain, path, t - 1, n - 1);
      assert sk.chain[..n] == sk.chain;
    }
  }

  /** Straight-line uniqueness: in an accepted model, arriving at the header through the latch on
      any CFG path ends one complete uninterrupted traversal of header and chain; the chain repeats
      no block; any other arrival comes from the preheader. */
  lemma LatchArrivalIsOneTraversal(body: Body, preds: seq<seq<BasicBlock>>, dominated: set<BasicBlock>,
      header: BasicBlock,
                                   params: set<Local>, path: seq<BasicBlock>, t: nat)
    requires WellFormedBody(body) && ListsEdges(body, preds) && header < |body.blocks| && InRange(body, preds[header])
    requires ControlFlow(body, preds, dominated, header, params).Some?
    requires IsCfgPath(body, path) && t < |path| && path[t] == header
    ensures t > 0 && Arrival(ControlFlow(body, preds, dominated, header, params).value, header, path, t)
    ensures NoRepeats(ControlFlow(body, preds, dominated, header, params).value.chain)
  {
    assert |preds| == |body.blocks|;
    hide ControlFlow, IsCfgPath, ListsEdges, WellFormedBody, Arrival, InRange;
    SkeletonShape(body, preds, dominated, header, params);
    ArrivalShape(body, preds, header, params, ControlFlow(body, preds, dominated, header, params).value, path, t);
  }
}
