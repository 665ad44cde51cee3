/** When the emitted side must answer. A refusal skips a loop silently, so each partial step of the
    interpreter is tied to the machine: it answers if and only if the machine defines what it reads. */
module FoldCoverage {
  import opened Wrappers
  import opened Bits
  import opened Smt
  import opened TrustIr
  import opened SymbolicFold
  import opened EntryEdge
  import opened Mir
  import opened LoopModel
  import opened Bridge

  // --- One instruction ---------------------------------------------------------------------------------

  const ENCODED: set<BinOp> := {Add, Sub, Mul, UDiv, URem, And, Or, Xor, Shl, LShr, AShr}

  /** A binary operation is encoded if and only if it is one of eleven, which are those the machine
      defines for every pair of operands. */
  lemma BinExprIff(op: BinOp, l: Expr, r: Expr, w: nat, a: nat, b: nat)
    requires w > 0
    ensures BinExpr(op, l, r, w).Some? <==> op in ENCODED
    ensures BinExpr(op, l, r, w).Some? <==> MachineBin(op, a, b, w).Some?
  {
    hide BitAnd, BitOr, BitXor, Wrap, Pow2, ShiftLeft, ShiftRight, ShiftRightSigned, MaskShiftAmount, RemExpr;
  }

  /** A cast is encoded if and only if the machine defines it. */
  lemma CastExprIff(op: CastOp, sw: nat, dw: nat, o: Expr, x: Value)
    requires x.width == sw && dw > 0
    ensures CastExpr(op, sw, dw, o).Some? <==> EvalCast(op, sw, dw, x).Computes?
  {
  }

  /** The symbolic environment binds what the machine binds, at the same widths. */
  ghost predicate SameShape(sym: SymEnv, env: Env) {
    sym.Keys == env.Keys && forall v <- sym.Keys :: Width(sym[v]) == env[v].width
  }

  /** One instruction is encoded if and only if the machine computes it, at the same width. */
  lemma InstExprIff(sym: SymEnv, env: Env, inst: Inst)
    requires SameShape(sym, env)
    ensures InstExpr(sym, inst).Some? <==> EvalInst(env, inst).Computes?
    ensures InstExpr(sym, inst).Some? ==> Width(InstExpr(sym, inst).value) == EvalInst(env, inst).v.width
  {
    hide BinExpr, CastExpr, EvalBinInst, EvalCast, Wrap, Pow2, BitAnd, LowMask, MachineCmp, BoolVal;
    match inst {
      case Const(_, value) => BoolWidth();
      case BinInst(op, ty, l, r) => if IntWidth(ty).Some? && l in sym && r in sym {
        BinInstIff(op, sym[l], sym[r], IntWidth(ty).value, env[l], env[r]);
      }
      case Cast(op, sty, dty, o) => if IntWidth(sty).Some? && IntWidth(dty).Some? && o in sym {
        CastInstIff(op, IntWidth(sty).value, IntWidth(dty).value, sym[o], env[o]);
      }
      case _ => BoolWidth();
    }
  }

  lemma BoolWidth()
    ensures forall b :: BoolVal(b).width == 1
  {
  }

  lemma BinInstIff(op: BinOp, l: Expr, r: Expr, w: nat, x: Value, y: Value)
    requires w > 0 && Width(l) == x.width && Width(r) == y.width
    ensures (x.width == w && y.width == w && BinExpr(op, l, r, w).Some?) <==> EvalBinInst(op, w, x, y).Computes?
    ensures EvalBinInst(op, w, x, y).Computes? ==>
              Width(BinExpr(op, l, r, w).value) == EvalBinInst(op, w, x, y).v.width
  {
    hide BitAnd, BitOr, BitXor, Wrap, Pow2, ShiftLeft, ShiftRight, ShiftRightSigned, MaskShiftAmount;
    BinExprIff(op, l, r, w, x.bits, y.bits);
  }

  lemma CastInstIff(op: CastOp, sw: nat, dw: nat, o: Expr, x: Value)
    requires dw > 0 && Width(o) == x.width
    ensures (x.width == sw && CastExpr(op, sw, dw, o).Some?) <==> EvalCast(op, sw, dw, x).Computes?
    ensures EvalCast(op, sw, dw, x).Computes? ==>
              Width(CastExpr(op, sw, dw, o).value) == EvalCast(op, sw, dw, x).v.width
  {
    hide Wrap, Pow2, ToSigned;
    if x.width == sw { CastExprIff(op, sw, dw, o, x); }
  }

  // --- Block bodies ---------------------------------------------------------------------------------------

  /** The machine computes every instruction, each into one result. */
  ghost predicate Runs(env: Env, nodes: seq<Node>)
    decreases nodes
  {
    nodes == [] || (EvalInst(env, nodes[0].inst).Computes? && |nodes[0].results| == 1 &&
                    Runs(env[nodes[0].results[0] := EvalInst(env, nodes[0].inst).v], nodes[1..]))
  }

  ghost function After(env: Env, nodes: seq<Node>): Env
    requires Runs(env, nodes)
    decreases nodes
  {
    if nodes == [] then env else After(env[nodes[0].results[0] := EvalInst(env, nodes[0].inst).v], nodes[1..])
  }

  /** Such a body has exactly one execution. */
  lemma {:induction false} RunsOnce(env: Env, nodes: seq<Node>, env': Env)
    requires Runs(env, nodes)
    ensures BodySteps(env, nodes, env') <==> env' == After(env, nodes)
    decreases nodes
  {
    hide EvalInst;
    if nodes != [] {
      var mid: Env := env[nodes[0].results[0] := EvalInst(env, nodes[0].inst).v];
      RunsOnce(mid, nodes[1..], env');
      assert forall e: Env :: NodeStep(env, nodes[0], e) <==> e == mid;
    }
  }

  /** A block body is folded if and only if the machine computes all of it. */
  lemma {:induction false} FoldBodyIff(sym: SymEnv, env: Env, nodes: seq<Node>)
    requires SameShape(sym, env)
    ensures FoldBody(sym, nodes).Some? <==> Runs(env, nodes)
    ensures FoldBody(sym, nodes).Some? ==> SameShape(FoldBody(sym, nodes).value, After(env, nodes))
    decreases nodes
  {
    hide InstExpr, EvalInst, Width;
    if nodes != [] {
      InstExprIff(sym, env, nodes[0].inst);
      if EvalInst(env, nodes[0].inst).Computes? && |nodes[0].results| == 1 {
        var v := nodes[0].results[0];
        FoldBodyIff(sym[v := InstExpr(sym, nodes[0].inst).value], env[v := EvalInst(env, nodes[0].inst).v], nodes[1..]);
      }
    }
  }

  // --- Edges ------------------------------------------------------------------------------------------------

  function CaseArms(cases: seq<Case>): seq<(BlockId, seq<ValueId>)> {
    seq(|cases|, i requires 0 <= i < |cases| => (cases[i].target, cases[i].args))
  }

  /** The arms of a terminator, in order. */
  function Arms(term: Inst): seq<(BlockId, seq<ValueId>)> {
    match term
    case Br(t, args) => [(t, args)]
    case CondBr(_, tt, ta, et, ea) => [(tt, ta), (et, ea)]
    case Switch(_, d, da, cases) => [(d, da)] + CaseArms(cases)
    case _ => []
  }

  function ArmsTo(arms: seq<(BlockId, seq<ValueId>)>, target: BlockId): seq<seq<ValueId>> {
    if arms == [] then []
    else (if arms[0].0 == target then [arms[0].1] else []) + ArmsTo(arms[1..], target)
  }

  /** The edges to a block are the arms that target it, each once and in order. */
  lemma EdgesToIs(term: Inst, target: BlockId)
    ensures EdgesTo(term, target) == ArmsTo(Arms(term), target)
  {
    match term {
      case Br(t, args) => assert [(t, args)][1..] == [];
      case CondBr(_, tt, ta, et, ea) =>
        assert [(tt, ta), (et, ea)][1..] == [(et, ea)] && [(et, ea)][1..] == [];
        assert ArmsTo([(et, ea)], target) == if et == target then [ea] else [];
      case Switch(_, d, da, cases) =>
        assert Arms(term)[1..] == CaseArms(cases);
        CaseEdgesAre(cases, target);
      case _ =>
    }
  }

  lemma {:induction false} CaseEdgesAre(cases: seq<Case>, target: BlockId)
    ensures CaseEdges(cases, target) == ArmsTo(CaseArms(cases), target)
  {
    if cases != [] {
      CaseEdgesAre(cases[1..], target);
      assert CaseArms(cases)[1..] == CaseArms(cases[1..]);
    }
  }

  lemma {:induction false} ResolveArgsIff(sym: SymEnv, args: seq<ValueId>)
    ensures ResolveArgs(sym, args).Some? <==> forall a <- args :: a in sym
    ensures ResolveArgs(sym, args).Some? ==>
              |ResolveArgs(sym, args).value| == |args| &&
              forall k :: 0 <= k < |args| ==> args[k] in sym && ResolveArgs(sym, args).value[k] == sym[args[k]]
  {
    if args != [] {
      ResolveArgsIff(sym, args[1..]);
      assert args == [args[0]] + args[1..];
    }
  }

  // --- The chain to the back edge ---------------------------------------------------------------------------

  /** The machine, started at the first block, computes every body; each block but the last has an arm
      to the next, without args, and none to the header; the last has one arm to the header, with bound
      args. Only the first block may have params. */
  ghost predicate ChainRuns(blocks: seq<Block>, header: BlockId, env: Env, first: bool)
    decreases blocks
  {
    && blocks != [] && (first || blocks[0].params == []) && blocks[0].body != []
    && Runs(env, Insts(blocks[0]))
    && var (out, arms) := (After(env, Insts(blocks[0])), Arms(Terminator(blocks[0])));
       if |blocks| == 1 then |ArmsTo(arms, header)| == 1 && forall a <- ArmsTo(arms, header)[0] :: a in out
       else
         && ArmsTo(arms, blocks[1].id) != [] && (forall a <- ArmsTo(arms, blocks[1].id) :: a == [])
         && ArmsTo(arms, header) == [] && ChainRuns(blocks[1..], header, out, false)
  }

  /** The values the machine threads on the back edge. */
  ghost function Threaded(blocks: seq<Block>, header: BlockId, env: Env, first: bool): seq<Value>
    requires ChainRuns(blocks, header, env, first)
    decreases blocks
  {
    var out := After(env, Insts(blocks[0]));
    if |blocks| == 1 then
      var args := ArmsTo(Arms(Terminator(blocks[0])), header)[0];
      seq(|args|, k requires 0 <= k < |args| => assert args[k] in args; out[args[k]])
    else Threaded(blocks[1..], header, out, false)
  }

  ghost predicate SameWidths(exprs: seq<Expr>, values: seq<Value>) {
    |exprs| == |values| && forall k :: 0 <= k < |values| ==> Width(exprs[k]) == values[k].width
  }

  /** The interpreter answers on a chain of blocks if and only if the machine runs it, and returns
      expressions of the widths the machine threads. */
  lemma {:induction false} ChainSpecIff(blocks: seq<Block>, header: BlockId, sym: SymEnv, env: Env, first: bool)
    requires SameShape(sym, env)
    ensures ChainSpec(blocks, header, sym, first).Some? <==> ChainRuns(blocks, header, env, first)
    ensures ChainRuns(blocks, header, env, first) ==>
              SameWidths(ChainSpec(blocks, header, sym, first).value, Threaded(blocks, header, env, first))
    decreases blocks
  {
    hide FoldBody, EdgesTo, Arms, ArmsTo, ResolveArgs, Runs, After, Insts, Terminator, Width;
    if blocks != [] && (first || blocks[0].params == []) && blocks[0].body != [] {
      var (nodes, term) := (Insts(blocks[0]), Terminator(blocks[0]));
      FoldBodyIff(sym, env, nodes);
      EdgesToIs(term, header);
      if Runs(env, nodes) {
        var (e, out) := (FoldBody(sym, nodes).value, After(env, nodes));
        if |blocks| == 1 {
          if |EdgesTo(term, header)| == 1 { ResolveArgsIff(e, EdgesTo(term, header)[0]); }
        } else {
          EdgesToIs(term, blocks[1].id);
          ChainSpecIff(blocks[1..], header, e, out, false);
        }
      }
    }
  }

  // --- The entry edge -----------------------------------------------------------------------------------------

  /** Some copy chain that fits the depth ends in an origin. */
  ghost predicate Resolves(defs: Defs, v: ValueId, base: Base, w: nat) {
    exists n: nat, e: Expr :: n <= MAX_DEPTH && ReachesOrigin(defs, v, base, n, e) && Width(e) == w
  }

  lemma ResolvesIff(defs: Defs, v: ValueId, base: Base, w: nat)
    ensures Resolves(defs, v, base, w) <==>
            ResolveDef(defs, v, base, 0).Some? && Width(ResolveDef(defs, v, base, 0).value) == w
  {
    hide ReachesOrigin, ResolveDef, Width;
    if ResolveDef(defs, v, base, 0).Some? {
      var e := ResolveDef(defs, v, base, 0).value;
      ResolveDefExact(defs, v, base, 0, e);
    }
    if Resolves(defs, v, base, w) {
      var n: nat, e: Expr :| n <= MAX_DEPTH && ReachesOrigin(defs, v, base, n, e) && Width(e) == w;
      ResolveDefExact(defs, v, base, 0, e);
    }
  }

  lemma {:induction false} ResolveAllIff(defs: Defs, args: seq<ValueId>, base: Base, tys: seq<ScalarTy>)
    ensures (EntryEdge.ResolveAll(defs, args, base).Some? &&
             WidthsMatch(EntryEdge.ResolveAll(defs, args, base).value, tys)) <==>
            |args| == |tys| && forall k :: 0 <= k < |args| ==> Resolves(defs, args[k], base, TyBits(tys[k]))
    decreases args
  {
    hide Resolves, ResolveDef, Width;
    if args == [] {
    } else if tys == [] {
      ResolveAllLength(defs, args, base);
    } else {
      ResolveAllIff(defs, args[1..], base, tys[1..]);
      ResolvesIff(defs, args[0], base, TyBits(tys[0]));
      ResolveAllLength(defs, args, base);
      ResolveStep(defs, args, base, tys);
    }
  }

  lemma {:induction false} ResolveAllLength(defs: Defs, args: seq<ValueId>, base: Base)
    ensures EntryEdge.ResolveAll(defs, args, base).Some? ==> |EntryEdge.ResolveAll(defs, args, base).value| == |args|
  {
    if args != [] { ResolveAllLength(defs, args[1..], base); }
  }

  lemma ResolveStep(defs: Defs, args: seq<ValueId>, base: Base, tys: seq<ScalarTy>)
    requires args != [] && tys != []
    ensures (EntryEdge.ResolveAll(defs, args, base).Some? &&
             WidthsMatch(EntryEdge.ResolveAll(defs, args, base).value, tys)) <==>
            && ResolveDef(defs, args[0], base, 0).Some?
            && Width(ResolveDef(defs, args[0], base, 0).value) == TyBits(tys[0])
            && EntryEdge.ResolveAll(defs, args[1..], base).Some?
            && WidthsMatch(EntryEdge.ResolveAll(defs, args[1..], base).value, tys[1..])
  {
    hide ResolveDef, Width;
    var (first, rest) := (ResolveDef(defs, args[0], base, 0), EntryEdge.ResolveAll(defs, args[1..], base));
    if first.Some? && rest.Some? { WidthsStep(first.value, rest.value, tys); }
  }

  lemma WidthsStep(e: Expr, rest: seq<Expr>, tys: seq<ScalarTy>)
    requires tys != []
    ensures WidthsMatch([e] + rest, tys) <==> Width(e) == TyBits(tys[0]) && WidthsMatch(rest, tys[1..])
  {
    hide Width;
    var all := [e] + rest;
    if WidthsMatch(all, tys) {
      forall k | 0 <= k < |tys| - 1 ensures Width(rest[k]) == TyBits(tys[1..][k]) { assert all[k + 1] == rest[k]; }
    }
    if Width(e) == TyBits(tys[0]) && WidthsMatch(rest, tys[1..]) {
      forall k | 0 <= k < |tys| ensures Width(all[k]) == TyBits(tys[k]) {
        if k > 0 { assert all[k] == rest[k - 1] && tys[k] == tys[1..][k - 1]; }
      }
    }
  }

  /** One arm leads from the block to the header, and each of its args ends in a constant or a function
      argument of its slot's width. */
  ghost predicate EntryResolves(f: Func, from: BlockId, to: BlockId, base: Base, tys: seq<ScalarTy>) {
    var b := FindBlock(f.blocks, from);
    && b.Some? && b.value.body != []
    && var arms := ArmsTo(Arms(Terminator(b.value)), to);
       && |arms| == 1 && |arms[0]| == |tys|
       && forall k :: 0 <= k < |tys| ==> Resolves(DefMap(f), arms[0][k], base, TyBits(tys[k]))
  }

  lemma EdgeArgsIff(f: Func, from: BlockId, to: BlockId, base: Base, tys: seq<ScalarTy>)
    ensures (EdgeArgsThroughDefs(f, from, to, base).Some? &&
             WidthsMatch(EdgeArgsThroughDefs(f, from, to, base).value, tys)) <==> EntryResolves(f, from, to, base, tys)
  {
    hide EdgesTo, Arms, ArmsTo, DefMap, WidthsMatch, Resolves;
    var b := FindBlock(f.blocks, from);
    if b.Some? && b.value.body != [] {
      EdgesToIs(Terminator(b.value), to);
      if |EdgesTo(Terminator(b.value), to)| == 1 {
        ResolveAllIff(DefMap(f), EdgesTo(Terminator(b.value), to)[0], base, tys);
      }
    }
  }
}
