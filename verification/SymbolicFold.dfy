/** The scalar symbolic interpreter over emitted instructions, and its soundness: whatever
    expressions it returns, the machine threads exactly the values they denote. */
module SymbolicFold {
  import opened Wrappers
  import opened Bits
  import opened Smt
  import opened TrustIr

  type SymEnv = map<ValueId, Expr>

  // --- The interpreter -----------------------------------------------------------

  function ConstExpr(ty: Ty, value: Constant): Option<Expr> {
    match (IntWidth(ty), value)
    case (Some(w), Int(i)) => Some(MkConst(BitAnd(Wrap(i, 64), LowMask(w)), w))
    case (Some(_), Bool(b)) => Some(MkConst(if b then 1 else 0, 1))
    case _ => None
  }

  function BinExpr(op: BinOp, l: Expr, r: Expr, w: nat): Option<Expr>
    requires w > 0
  {
    match op
    case Add => Some(Bin(BvAdd, l, r))
    case Sub => Some(Bin(BvSub, l, r))
    case Mul => Some(Bin(BvMul, l, r))
    case UDiv => Some(Bin(BvUDiv, l, r))
    case URem => Some(RemExpr(l, r))
    case And => Some(Bin(BvAnd, l, r))
    case Or => Some(Bin(BvOr, l, r))
    case Xor => Some(Bin(BvXor, l, r))
    case Shl => Some(Bin(BvShl, l, MaskShiftAmount(r, w)))
    case LShr => Some(Bin(BvLShr, l, MaskShiftAmount(r, w)))
    case AShr => Some(Bin(BvAShr, l, MaskShiftAmount(r, w)))
    case SDiv | SRem | FloatBinOp | BAnd | BOr | BXor => None
  }

  function CmpCond(op: ICmpOp, l: Expr, r: Expr): Cond {
    match op
    case CmpEq => Cmp(RelEq, l, r)
    case CmpNe => Not(Cmp(RelEq, l, r))
    case CmpUlt => Cmp(Ult, l, r)
    case CmpUle => Cmp(Ule, l, r)
    case CmpUgt => Cmp(Ugt, l, r)
    case CmpUge => Cmp(Uge, l, r)
    case CmpSlt => Cmp(Slt, l, r)
    case CmpSle => Cmp(Sle, l, r)
    case CmpSgt => Cmp(Sgt, l, r)
    case CmpSge => Cmp(Sge, l, r)
  }

  function CastExpr(op: CastOp, sw: nat, dw: nat, o: Expr): Option<Expr> {
    if op.OtherCast? then None
    else if dw == sw then Some(o)
    else if op.SExt? && dw > sw then Some(SignExt(dw - sw, o))
    else if op.ZExt? && dw > sw then Some(ZeroExt(dw - sw, o))
    else if op.Trunc? && 0 < dw < sw then Some(Extract(dw - 1, 0, o))
    else None
  }

  function InstExpr(env: SymEnv, inst: Inst): Option<Expr> {
    match inst
    case Const(ty, value) => ConstExpr(ty, value)
    case Copy(_, o) => if o in env then Some(env[o]) else None
    case BinInst(op, ty, l, r) =>
      var w := IntWidth(ty);
      if w.None? || l !in env || r !in env || Width(env[l]) != w.value || Width(env[r]) != w.value then None
      else BinExpr(op, env[l], env[r], w.value)
    case UnInst(op, ty, o) =>
      var w := IntWidth(ty);
      if w.None? || o !in env || Width(env[o]) != w.value then None
      else if op.Neg? then Some(BvNeg(env[o]))
      else if op.BitNot? then Some(Bin(BvXor, env[o], MkConst(LowMask(w.value), w.value)))
      else None
    case ICmp(op, ty, l, r) =>
      var w := IntWidth(ty);
      if w.None? || l !in env || r !in env || Width(env[l]) != w.value || Width(env[r]) != w.value then None
      else Some(Cset(CmpCond(op, env[l], env[r])))
    case Cast(op, s, d, o) =>
      var (sw, dw) := (IntWidth(s), IntWidth(d));
      if sw.None? || dw.None? || o !in env || Width(env[o]) != sw.value then None
      else CastExpr(op, sw.value, dw.value, env[o])
    case _ => None
  }

  function InterpInst(env: SymEnv, node: Node): Option<SymEnv> {
    match InstExpr(env, node.inst)
    case Some(e) => if |node.results| == 1 then Some(env[node.results[0] := e]) else None
    case None => None
  }

  function FoldBody(env: SymEnv, nodes: seq<Node>): Option<SymEnv>
    decreases nodes
  {
    if nodes == [] then Some(env)
    else match InterpInst(env, nodes[0])
      case Some(e) => FoldBody(e, nodes[1..])
      case None => None
  }

  /** The arg lists threaded on the arms of a terminator that reach `target`; conditions are
      not looked at. */
  function EdgesTo(term: Inst, target: BlockId): seq<seq<ValueId>> {
    match term
    case Br(t, args) => if t == target then [args] else []
    case CondBr(_, tt, ta, et, ea) => (if tt == target then [ta] else []) + (if et == target then [ea] else [])
    case Switch(_, d, da, cases) => (if d == target then [da] else []) + CaseEdges(cases, target)
    case _ => []
  }

  function CaseEdges(cases: seq<Case>, target: BlockId): seq<seq<ValueId>> {
    if cases == [] then []
    else (if cases[0].target == target then [cases[0].args] else []) + CaseEdges(cases[1..], target)
  }

  function ResolveArgs(env: SymEnv, args: seq<ValueId>): Option<seq<Expr>> {
    if args == [] then Some([])
    else if args[0] !in env then None
    else match ResolveArgs(env, args[1..])
      case Some(rest) => Some([env[args[0]]] + rest)
      case None => None
  }

  /** Header and body chain folded to the back-edge args. `first` marks the header, the only
      block allowed to carry params. */
  function ChainSpec(blocks: seq<Block>, header: BlockId, env: SymEnv, first: bool): Option<seq<Expr>>
    decreases blocks
  {
    if blocks == [] || (!first && blocks[0].params != []) || blocks[0].body == [] then None
    else match FoldBody(env, Insts(blocks[0]))
      case None => None
      case Some(e) =>
        var term := Terminator(blocks[0]);
        if |blocks| == 1 then
          var edges := EdgesTo(term, header);
          if |edges| == 1 then ResolveArgs(e, edges[0]) else None
        else
          var edges := EdgesTo(term, blocks[1].id);
          if edges == [] || (exists a :: a in edges && a != []) || EdgesTo(term, header) != [] then None
          else ChainSpec(blocks[1..], header, e, false)
  }

  method FoldInstructions(entry: SymEnv, nodes: seq<Node>) returns (r: Option<SymEnv>)
    ensures r == FoldBody(entry, nodes)
  {
    hide InterpInst;
    var env := entry;
    for j := 0 to |nodes|
      invariant FoldBody(entry, nodes) == FoldBody(env, nodes[j..])
    {
      assert nodes[j..][1..] == nodes[j + 1..];
      var next := InterpInst(env, nodes[j]);
      if next.None? { return None; }
      env := next.value;
    }
    return Some(env);
  }

  method InterpretChainToBackEdge(blocks: seq<Block>, header: BlockId, seed: SymEnv) returns (r: Option<seq<Expr>>)
    ensures r == ChainSpec(blocks, header, seed, true)
  {
    hide FoldBody, EdgesTo, ResolveArgs, Insts, Terminator;
    var env := seed;
    for i := 0 to |blocks|
      invariant ChainSpec(blocks, header, seed, true) == ChainSpec(blocks[i..], header, env, i == 0)
    {
      var block := blocks[i];
      ghost var rest := blocks[i..];
      assert rest[0] == block && rest[1..] == blocks[i + 1..];
      if (i > 0 && block.params != []) || block.body == [] { return None; }
      var folded := FoldInstructions(env, Insts(block));
      if folded.None? { return None; }
      env := folded.value;
      var term := Terminator(block);
      if i + 1 == |blocks| {
        var edges := EdgesTo(term, header);
        if |edges| != 1 { return None; }
        return ResolveArgs(env, edges[0]);
      }
      var edges := EdgesTo(term, blocks[i + 1].id);
      if edges == [] || (exists a :: a in edges && a != []) || EdgesTo(term, header) != [] { return None; }
    }
    return None;
  }

  // --- Soundness -------------------------------------------------------------------

  /** Everything the symbolic environment knows is what the machine holds. */
  ghost predicate Agree(sym: SymEnv, env: Env, s: Valuation) {
    forall v :: v in sym ==> v in env && Denotes(sym[v], s, env[v])
  }

  /** Casting to 64 bits, masking with `low_mask` and storing at the width keeps the low bits. */
  lemma ConstBits(i: int, w: nat)
    requires MachineWidth(w)
    ensures Wrap(BitAnd(Wrap(i, 64), LowMask(w)), w) == Wrap(i, w)
  {
    hide BitAnd, Pow2, Wrap, LowMask;
    LowMaskKeepsLowBits(Wrap(i, 64), w);
    WrapWrap(i, 64, w);
    WrapSmall(Wrap(i, w), w);
  }

  lemma ConstSound(ty: Ty, value: Constant, env: Env, s: Valuation)
    requires ConstExpr(ty, value).Some?
    ensures EvalInst(env, Const(ty, value)).Computes?
    ensures Denotes(ConstExpr(ty, value).value, s, EvalInst(env, Const(ty, value)).v)
  {
    hide BitAnd, Pow2, Wrap, LowMask;
    match value {
      case Int(i) => ConstBits(i, IntWidth(ty).value);
      case Bool(b) => WrapSmall(if b then 1 else 0, 1) by { assert Pow2(1) == 2 by { PowOne(); } }
    }
  }

  lemma PowOne()
    ensures Pow2(1) == 2
  {
  }

  lemma BinSound(op: BinOp, l: Expr, r: Expr, w: nat, s: Valuation, x: Value, y: Value)
    requires MachineWidth(w) && Denotes(l, s, x) && Denotes(r, s, y) && x.width == w && y.width == w
    requires BinExpr(op, l, r, w).Some?
    ensures EvalBinInst(op, w, x, y).Computes?
    ensures Denotes(BinExpr(op, l, r, w).value, s, EvalBinInst(op, w, x, y).v)
  {
    hide BitAnd, BitOr, BitXor, Wrap, Pow2, ShiftLeft, ShiftRight, ShiftRightSigned, ShiftRightArith, Eval, Width,
        MaskShiftAmount, RemExpr;
    var m := MaskShiftAmount(r, w);
    MaskShiftAmountValue(r, w, s);
    match op {
      case Add => BinEval(BvAdd, l, r, s);
      case Sub => BinEval(BvSub, l, r, s);
      case Mul => BinEval(BvMul, l, r, s);
      case UDiv => BinEval(BvUDiv, l, r, s);
      case URem => RemExprValue(l, r, s);
      case And => BinEval(BvAnd, l, r, s);
      case Or => BinEval(BvOr, l, r, s);
      case Xor => BinEval(BvXor, l, r, s);
      case Shl => BinEval(BvShl, l, m, s);
      case LShr => BinEval(BvLShr, l, m, s);
      case AShr =>
        BinEval(BvAShr, l, m, s);
        WrapSmall(x.bits, w);
        ShiftRightArithFloors(x.bits, y.bits % w, w);
    }
  }

  lemma NotSound(o: Expr, w: nat, s: Valuation, x: Value)
    requires MachineWidth(w) && Denotes(o, s, x) && x.width == w
    ensures Eval(Bin(BvXor, o, MkConst(LowMask(w), w)), s) == Pow2(w) - 1 - x.bits
  {
    hide BitXor, Pow2, Wrap;
    var ones := MkConst(LowMask(w), w);
    assert Eval(ones, s) == Pow2(w) - 1 by { WrapSmall(Pow2(w) - 1, w); }
    assert Eval(Bin(BvXor, o, ones), s) == EvalBin(BvXor, x.bits, Eval(ones, s), w);
    XorAllOnes(x.bits, w);
  }

  lemma NegEval(o: Expr, s: Valuation)
    ensures Eval(BvNeg(o), s) == Wrap(0 - Eval(o, s), Width(o))
  {
  }

  lemma CmpSound(op: ICmpOp, l: Expr, r: Expr, w: nat, s: Valuation, x: Value, y: Value)
    requires Denotes(l, s, x) && Denotes(r, s, y) && x.width == w && y.width == w
    ensures EvalCond(CmpCond(op, l, r), s) == MachineCmp(op, x.bits, y.bits, w)
  {
    SignedRelations(x.bits, y.bits, w);
  }

  lemma CsetSound(c: Cond, s: Valuation)
    ensures Denotes(Cset(c), s, BoolVal(EvalCond(c, s)))
  {
    WrapSmall(1, 1);
    WrapSmall(0, 1);
  }

  lemma CastSound(op: CastOp, sw: nat, dw: nat, o: Expr, s: Valuation, x: Value)
    requires Denotes(o, s, x) && x.width == sw
    requires CastExpr(op, sw, dw, o).Some?
    ensures EvalCast(op, sw, dw, x).Computes?
    ensures Denotes(CastExpr(op, sw, dw, o).value, s, EvalCast(op, sw, dw, x).v)
  {
    match op {
      case SExt => if dw == sw { WrapSigned(x.bits, sw); } else { SignFillValue(x.bits, sw, dw - sw); }
      case ZExt =>
      case Trunc => if dw == sw { WrapSmall(x.bits, sw); } else { assert x.bits / Pow2(0) == x.bits; }
    }
  }

  /** One instruction: what `interp_inst` encodes is what the machine computes. */
  lemma InstSound(sym: SymEnv, env: Env, s: Valuation, inst: Inst)
    requires Agree(sym, env, s) && InstExpr(sym, inst).Some?
    ensures EvalInst(env, inst).Computes? && Denotes(InstExpr(sym, inst).value, s, EvalInst(env, inst).v)
  {
    hide BitAnd, BitXor, Wrap, Pow2, LowMask, Eval, EvalCond, CmpCond, MachineCmp, BinExpr, EvalBinInst, CastExpr,
        EvalCast, ConstExpr;
    match inst {
      case Const(ty, value) => ConstSound(ty, value, env, s);
      case Copy(_, o) =>
      case BinInst(op, ty, l, r) => BinSound(op, sym[l], sym[r], IntWidth(ty).value, s, env[l], env[r]);
      case UnInst(op, ty, o) =>
        NegEval(sym[o], s);
        NotSound(sym[o], IntWidth(ty).value, s, env[o]);
      case ICmp(op, ty, l, r) =>
        CmpSound(op, sym[l], sym[r], IntWidth(ty).value, s, env[l], env[r]);
        CsetSound(CmpCond(op, sym[l], sym[r]), s);
      case Cast(op, sty, dty, o) => CastSound(op, IntWidth(sty).value, IntWidth(dty).value, sym[o], s, env[o]);
    }
  }

  /** A whole block body. */
  lemma {:induction false} FoldSound(sym: SymEnv, env: Env, s: Valuation, nodes: seq<Node>, env': Env)
    requires Agree(sym, env, s) && FoldBody(sym, nodes).Some? && BodySteps(env, nodes, env')
    ensures Agree(FoldBody(sym, nodes).value, env', s)
    decreases nodes
  {
    if nodes != [] {
      InstSound(sym, env, s, nodes[0].inst);
      var mid: Env :| NodeStep(env, nodes[0], mid) && BodySteps(mid, nodes[1..], env');
      FoldSound(InterpInst(sym, nodes[0]).value, mid, s, nodes[1..], env');
    }
  }

  lemma {:induction false} ResolveArgsSound(sym: SymEnv, env: Env, s: Valuation, args: seq<ValueId>, k: nat)
    requires Agree(sym, env, s) && ResolveArgs(sym, args).Some? && k < |args|
    ensures |ResolveArgs(sym, args).value| == |args|
    ensures args[k] in env && Denotes(ResolveArgs(sym, args).value[k], s, env[args[k]])
  {
    if |args| > 1 { ResolveArgsSound(sym, env, s, args[1..], if k == 0 then 0 else k - 1); }
  }

  /** The arm actually taken to a target is among the arms `edges_to` lists. */
  lemma {:induction false} TakenEdgeListed(env: Env, term: Inst, target: BlockId, args: seq<ValueId>)
    requires TakesEdge(env, term, target, args)
    ensures args in EdgesTo(term, target)
  {
    if term.Switch? {
      SwitchEdgeListed(env[term.scrutinee], term.cases, term.default, term.defaultArgs, target, args);
    }
  }

  lemma {:induction false} SwitchEdgeListed(v: Value, cases: seq<Case>, d: BlockId, da: seq<ValueId>,
                                            target: BlockId, args: seq<ValueId>)
    requires SwitchTakes(v, cases, d, da, target, args)
    ensures (target == d && args == da) || args in CaseEdges(cases, target)
    decreases cases
  {
    if cases != [] && Wrap(cases[0].value, v.width) != v.bits {
      SwitchEdgeListed(v, cases[1..], d, da, target, args);
    }
  }

  ghost predicate DistinctParams(params: seq<(ValueId, Ty)>) {
    forall i, j :: 0 <= i < j < |params| ==> params[i].0 != params[j].0
  }

  lemma {:induction false} BindOther(env: Env, base: Env, params: seq<(ValueId, Ty)>, args: seq<ValueId>, v: ValueId)
    requires |params| == |args| && (forall a :: a in args ==> a in base)
    requires forall k :: 0 <= k < |params| ==> params[k].0 != v
    ensures v in Bind(env, base, params, args) <==> v in env
    ensures v in env ==> Bind(env, base, params, args)[v] == env[v]
    decreases params
  {
    if params != [] {
      BindOther(env[params[0].0 := base[args[0]]], base, params[1..], args[1..], v);
    }
  }

  lemma {:induction false} BindAt(env: Env, base: Env, params: seq<(ValueId, Ty)>, args: seq<ValueId>, k: nat)
    requires |params| == |args| && DistinctParams(params) && (forall a :: a in args ==> a in base) && k < |params|
    ensures params[k].0 in Bind(env, base, params, args) && Bind(env, base, params, args)[params[k].0] == base[args[k]]
    decreases params
  {
    var env1 := env[params[0].0 := base[args[0]]];
    if k == 0 {
      BindOther(env1, base, params[1..], args[1..], params[0].0);
    } else {
      BindAt(env1, base, params[1..], args[1..], k - 1);
    }
  }

  /** Binding writes exactly the params, slot by slot. */
  lemma BindValues(env: Env, base: Env, params: seq<(ValueId, Ty)>, args: seq<ValueId>)
    requires |params| == |args| && DistinctParams(params)
    requires forall a :: a in args ==> a in base
    ensures forall k :: 0 <= k < |params| ==>
              params[k].0 in Bind(env, base, params, args) &&
              Bind(env, base, params, args)[params[k].0] == base[args[k]]
    ensures forall v :: (forall k :: 0 <= k < |params| ==> params[k].0 != v) ==>
              (v in Bind(env, base, params, args) <==> v in env) &&
              (v in env ==> Bind(env, base, params, args)[v] == env[v])
  {
    hide Bind, DistinctParams;
    forall k | 0 <= k < |params|
      ensures params[k].0 in Bind(env, base, params, args) &&
          Bind(env, base, params, args)[params[k].0] == base[args[k]]
    {
      BindAt(env, base, params, args, k);
    }
    forall v | forall k :: 0 <= k < |params| ==> params[k].0 != v
      ensures (v in Bind(env, base, params, args) <==> v in env) &&
          (v in env ==> Bind(env, base, params, args)[v] == env[v])
    {
      BindOther(env, base, params, args, v);
    }
  }

  /** The header's params hold the values the expressions denote. */
  ghost predicate ParamsDenote(header: Block, env: Env, exprs: seq<Expr>, s: Valuation) {
    && |exprs| == |header.params|
    && forall k :: 0 <= k < |exprs| ==>
         header.params[k].0 in env && Denotes(exprs[k], s, env[header.params[k].0])
  }

  /** The states visit exactly `blocks` and then arrive at `header`. */
  ghost predicate Traverses(f: Func, seg: seq<State>, blocks: seq<Block>, header: Block) {
    && |seg| == |blocks| + 1
    && IsRun(f, seg)
    && (forall i :: 0 <= i < |blocks| ==> FindBlock(f.blocks, seg[i].block) == Some(blocks[i]))
    && seg[|blocks|].block == header.id
    && FindBlock(f.blocks, header.id) == Some(header)
  }

  /** Symbolic soundness of the whole fold: executing the blocks along the chain, from any state
      that agrees with the seeds, threads to the header exactly what the returned expressions
      denote. */
  lemma {:induction false} ChainSound(f: Func, seg: seq<State>, blocks: seq<Block>, header: Block,
                                      sym: SymEnv, first: bool, s: Valuation)
    requires Traverses(f, seg, blocks, header) && DistinctParams(header.params)
    requires ChainSpec(blocks, header.id, sym, first).Some?
    requires Agree(sym, seg[0].env, s)
    ensures ParamsDenote(header, seg[|blocks|].env, ChainSpec(blocks, header.id, sym, first).value, s)
    decreases blocks
  {
    hide FoldBody, EdgesTo, ResolveArgs, Bind, Denotes, BodySteps, Agree, DistinctParams, ParamsDenote;
    var b := blocks[0];
    assert BlockStep(f, seg[0], seg[1]);
    var target := FindBlock(f.blocks, seg[1].block).value;
    var out: Env, args :| BodySteps(seg[0].env, Insts(b), out) &&
        EdgeStep(out, Terminator(b), target, args, seg[1].env);
    FoldSound(sym, seg[0].env, s, Insts(b), out);
    TakenEdgeListed(out, Terminator(b), target.id, args);
    var sym' := FoldBody(sym, Insts(b)).value;
    if |blocks| == 1 {
      LatchEdgeSound(sym', out, s, header, args, seg[1].env);
    } else {
      assert target == blocks[1];
      NoParamsBind(out, target, args);
      ChainSound(f, seg[1..], blocks[1..], header, sym', false, s);
    }
  }

  lemma NoParamsBind(env: Env, target: Block, args: seq<ValueId>)
    requires target.params == [] && args == []
    ensures Bind(env, env, target.params, args) == env
  {
  }

  lemma LatchEdgeSound(sym: SymEnv, out: Env, s: Valuation, header: Block, args: seq<ValueId>, env': Env)
    requires Agree(sym, out, s) && DistinctParams(header.params) && ResolveArgs(sym, args).Some?
    requires |args| == |header.params| && (forall a :: a in args ==> a in out)
    requires env' == Bind(out, out, header.params, args)
    ensures ParamsDenote(header, env', ResolveArgs(sym, args).value, s)
  {
    BindValues(out, out, header.params, args);
    ResolveArgsLength(sym, args);
    forall k | 0 <= k < |args| ensures Denotes(ResolveArgs(sym, args).value[k], s, out[args[k]]) {
      ResolveArgsSound(sym, out, s, args, k);
    }
  }

  lemma {:induction false} ResolveArgsLength(sym: SymEnv, args: seq<ValueId>)
    requires ResolveArgs(sym, args).Some?
    ensures |ResolveArgs(sym, args).value| == |args|
  {
    if args != [] { ResolveArgsLength(sym, args[1..]); }
  }

  // --- Sorting and closure -----------------------------------------------------------

  /** Well-sorted, and mentions only the seeded variables. */
  ghost predicate ClosedExpr(e: Expr, seeds: set<(Name, nat)>) {
    WellSorted(e) && Vars(e) <= seeds
  }

  ghost predicate ClosedEnv(sym: SymEnv, seeds: set<(Name, nat)>) {
    forall v :: v in sym ==> ClosedExpr(sym[v], seeds)
  }

  lemma ConstClosed(v: nat, w: nat, seeds: set<(Name, nat)>)
    ensures ClosedExpr(MkConst(v, w), seeds) && Width(MkConst(v, w)) == w
  {
  }

  lemma BinClosed(op: BvOp, l: Expr, r: Expr, seeds: set<(Name, nat)>)
    requires ClosedExpr(l, seeds) && ClosedExpr(r, seeds) && Width(l) == Width(r)
    ensures ClosedExpr(Bin(op, l, r), seeds) && Width(Bin(op, l, r)) == Width(l)
  {
  }

  lemma BinInstClosed(op: BinOp, x: Expr, y: Expr, w: nat, seeds: set<(Name, nat)>)
    requires w > 0 && ClosedExpr(x, seeds) && ClosedExpr(y, seeds) && Width(x) == w && Width(y) == w &&
        BinExpr(op, x, y, w).Some?
    ensures ClosedExpr(BinExpr(op, x, y, w).value, seeds)
  {
    hide Wrap, Pow2, ClosedExpr, MkConst, Width;
    ConstClosed(w - 1, w, seeds);
    BinClosed(BvAnd, y, MkConst(w - 1, w), seeds);
    BinClosed(BvUDiv, x, y, seeds);
    BinClosed(BvMul, Bin(BvUDiv, x, y), y, seeds);
    var e := BinExpr(op, x, y, w).value;
    BinClosed(e.op, e.lhs, e.rhs, seeds);
  }

  lemma CmpClosed(op: ICmpOp, l: Expr, r: Expr, seeds: set<(Name, nat)>)
    requires ClosedExpr(l, seeds) && ClosedExpr(r, seeds) && Width(l) == Width(r)
    ensures ClosedExpr(Cset(CmpCond(op, l, r)), seeds)
  {
    hide Wrap, Pow2;
    ConstClosed(1, 1, seeds);
    ConstClosed(0, 1, seeds);
    assert WellSortedCond(Cmp(RelEq, l, r));
    assert WellSortedCond(CmpCond(op, l, r)) && VarsCond(CmpCond(op, l, r)) <= seeds;
  }

  lemma InstClosed(sym: SymEnv, seeds: set<(Name, nat)>, inst: Inst)
    requires ClosedEnv(sym, seeds) && InstExpr(sym, inst).Some?
    ensures ClosedExpr(InstExpr(sym, inst).value, seeds)
  {
    hide Wrap, Pow2, BitAnd, LowMask;
    match inst {
      case BinInst(op, ty, l, r) => BinInstClosed(op, sym[l], sym[r], IntWidth(ty).value, seeds);
      case UnInst(op, ty, o) => ConstClosed(LowMask(IntWidth(ty).value), IntWidth(ty).value, seeds);
      case ICmp(op, _, l, r) => CmpClosed(op, sym[l], sym[r], seeds);
      case _ =>
    }
  }

  lemma {:induction false} FoldClosed(sym: SymEnv, seeds: set<(Name, nat)>, nodes: seq<Node>)
    requires ClosedEnv(sym, seeds) && FoldBody(sym, nodes).Some?
    ensures ClosedEnv(FoldBody(sym, nodes).value, seeds)
    decreases nodes
  {
    if nodes != [] {
      InstClosed(sym, seeds, nodes[0].inst);
      FoldClosed(InterpInst(sym, nodes[0]).value, seeds, nodes[1..]);
    }
  }

  lemma {:induction false} ResolveArgsClosed(sym: SymEnv, seeds: set<(Name, nat)>, args: seq<ValueId>)
    requires ClosedEnv(sym, seeds) && ResolveArgs(sym, args).Some?
    ensures forall e :: e in ResolveArgs(sym, args).value ==> ClosedExpr(e, seeds)
  {
    if args != [] { ResolveArgsClosed(sym, seeds, args[1..]); }
  }

  /** Accepted back-edge expressions are well-sorted and have no free variables beyond the seeds. */
  lemma {:induction false} ChainClosed(blocks: seq<Block>, header: BlockId, sym: SymEnv, first: bool,
      seeds: set<(Name, nat)>)
    requires ClosedEnv(sym, seeds) && ChainSpec(blocks, header, sym, first).Some?
    ensures forall e :: e in ChainSpec(blocks, header, sym, first).value ==> ClosedExpr(e, seeds)
    decreases blocks
  {
    hide InterpInst, ResolveArgs, EdgesTo, ClosedEnv;
    FoldClosed(sym, seeds, Insts(blocks[0]));
    var sym' := FoldBody(sym, Insts(blocks[0])).value;
    if |blocks| == 1 {
      ResolveArgsClosed(sym', seeds, EdgesTo(Terminator(blocks[0]), header)[0]);
    } else {
      ChainClosed(blocks[1..], header, sym', false, seeds);
    }
  }
}
