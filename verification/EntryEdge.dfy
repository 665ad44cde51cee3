/** The preheader entry edge on the emitted side: args resolved through Const/Copy definitions
    over the whole function. Soundness is an invariant of every emitted run, through every
    block, not just of the preheader. */
module EntryEdge {
  import opened Wrappers
  import opened Bits
  import opened Smt
  import opened TrustIr
  import opened SymbolicFold

  type Defs = map<ValueId, Inst>

  /** The caller's naming of undefined values: the entry-block function arguments. */
  type Base = map<ValueId, Expr>

  const MAX_DEPTH: nat := 64

  function NodeDefs(nodes: seq<Node>, m: Defs): Defs
    decreases nodes
  {
    if nodes == [] then m
    else NodeDefs(nodes[1..], if |nodes[0].results| == 1 then m[nodes[0].results[0] := nodes[0].inst] else m)
  }

  function BlockDefs(blocks: seq<Block>, m: Defs): Defs
    decreases blocks
  {
    if blocks == [] then m else BlockDefs(blocks[1..], NodeDefs(blocks[0].body, m))
  }

  function DefMap(f: Func): Defs {
    BlockDefs(f.blocks, map[])
  }

  method BuildDefMap(f: Func) returns (defs: Defs)
    ensures defs == DefMap(f)
  {
    defs := map[];
    for i := 0 to |f.blocks|
      invariant DefMap(f) == BlockDefs(f.blocks[i..], defs)
    {
      ghost var before := defs;
      var body := f.blocks[i].body;
      for j := 0 to |body|
        invariant NodeDefs(body, before) == NodeDefs(body[j..], defs)
      {
        if |body[j].results| == 1 { defs := defs[body[j].results[0] := body[j].inst]; }
        assert body[j..][1..] == body[j + 1..];
      }
      assert f.blocks[i..][1..] == f.blocks[i + 1..];
    }
  }

  function ResolveDef(defs: Defs, v: ValueId, base: Base, depth: nat): Option<Expr>
    decreases MAX_DEPTH + 1 - depth
  {
    if depth > MAX_DEPTH then None
    else if v !in defs then (if v in base then Some(base[v]) else None)
    else match defs[v]
      case Const(ty, value) => ConstExpr(ty, value)
      case Copy(_, o) => ResolveDef(defs, o, base, depth + 1)
      case _ => None
  }

  function ResolveAll(defs: Defs, args: seq<ValueId>, base: Base): Option<seq<Expr>> {
    if args == [] then Some([])
    else match (ResolveDef(defs, args[0], base, 0), ResolveAll(defs, args[1..], base))
      case (Some(e), Some(rest)) => Some([e] + rest)
      case _ => None
  }

  function EdgeArgsThroughDefs(f: Func, from: BlockId, to: BlockId, base: Base): Option<seq<Expr>> {
    match FindBlock(f.blocks, from)
    case None => None
    case Some(b) =>
      if b.body == [] || |EdgesTo(Terminator(b), to)| != 1 then None
      else ResolveAll(DefMap(f), EdgesTo(Terminator(b), to)[0], base)
  }

  // --- What the bounded resolver computes ---------------------------------------------

  /** The value reached by following `n` copies. */
  function FollowCopies(defs: Defs, v: ValueId, n: nat): Option<ValueId>
    decreases n
  {
    if n == 0 then Some(v)
    else if v in defs && defs[v].Copy? then FollowCopies(defs, defs[v].operand, n - 1)
    else None
  }

  /** What a value that is not a copy stands for. */
  function Origin(defs: Defs, v: ValueId, base: Base): Option<Expr> {
    if v !in defs then (if v in base then Some(base[v]) else None)
    else if defs[v].Const? then ConstExpr(defs[v].ty, defs[v].value)
    else None
  }

  /** The resolver answers exactly when a copy chain that fits the remaining depth ends in an
      origin; on a cyclic chain no such end exists and it gives up. */
  lemma {:induction false} ResolveDefExact(defs: Defs, v: ValueId, base: Base, depth: nat, e: Expr)
    ensures ResolveDef(defs, v, base, depth) == Some(e) <==>
            exists n: nat :: n + depth <= MAX_DEPTH && ReachesOrigin(defs, v, base, n, e)
    decreases MAX_DEPTH + 1 - depth
  {
    if depth <= MAX_DEPTH {
      assert ReachesOrigin(defs, v, base, 0, e) <==> Origin(defs, v, base) == Some(e);
      if v in defs && defs[v].Copy? {
        var o := defs[v].operand;
        ResolveDefExact(defs, o, base, depth + 1, e);
        forall n: nat | n > 0
          ensures ReachesOrigin(defs, v, base, n, e) <==> ReachesOrigin(defs, o, base, n - 1, e)
        {
        }
        if n: nat :| n + depth + 1 <= MAX_DEPTH && ReachesOrigin(defs, o, base, n, e) {
          assert ReachesOrigin(defs, v, base, n + 1, e);
        }
      }
    }
  }

  ghost predicate ReachesOrigin(defs: Defs, v: ValueId, base: Base, n: nat, e: Expr) {
    FollowCopies(defs, v, n).Some? && Origin(defs, FollowCopies(defs, v, n).value, base) == Some(e)
  }

  /** A smaller starting depth never changes a successful answer. */
  lemma DepthMonotone(defs: Defs, v: ValueId, base: Base, d1: nat, d2: nat)
    requires d1 <= d2 && ResolveDef(defs, v, base, d2).Some?
    ensures ResolveDef(defs, v, base, d1) == ResolveDef(defs, v, base, d2)
  {
    var e := ResolveDef(defs, v, base, d2).value;
    ResolveDefExact(defs, v, base, d1, e);
    ResolveDefExact(defs, v, base, d2, e);
  }

  // --- Soundness over every emitted run -------------------------------------------------

  ghost predicate InFunc(f: Func, n: Node) {
    exists b :: b in f.blocks && n in b.body
  }

  /** SSA as the bridge emits it: one definition per value; function arguments are bound only
      at entry, and no edge re-enters the entry block. */
  ghost predicate SsaForm(f: Func, base: Base) {
    && (forall n1, n2, v :: InFunc(f, n1) && InFunc(f, n2) && v in n1.results && v in n2.results ==> n1 == n2)
    && (forall n, v :: InFunc(f, n) && v in n.results ==> v !in base)
    && (forall b, k :: b in f.blocks && b.id != f.entry && 0 <= k < |b.params| ==>
          Undefined(f, b.params[k].0) && b.params[k].0 !in base)
    && (forall b :: b in f.blocks && b.body != [] ==> EdgesTo(Terminator(b), f.entry) == [])
    && (forall b :: b in f.blocks ==> DistinctParams(b.params))
  }

  ghost predicate Undefined(f: Func, v: ValueId) {
    forall n :: InFunc(f, n) ==> v !in n.results
  }

  /** Function entry: only arguments are bound, each to the value its name denotes. */
  ghost predicate EntryState(f: Func, base: Base, st: State, s: Valuation) {
    && st.block == f.entry
    && forall v :: v in st.env ==> Undefined(f, v) && (v in base ==> Denotes(base[v], s, st.env[v]))
  }

  ghost predicate Origins(f: Func, base: Base, env: Env, s: Valuation) {
    forall v :: v in env && ResolveDef(DefMap(f), v, base, 0).Some? ==>
      Denotes(ResolveDef(DefMap(f), v, base, 0).value, s, env[v])
  }

  ghost predicate DefinedIn(nodes: seq<Node>, v: ValueId, inst: Inst) {
    exists n :: n in nodes && n.results == [v] && n.inst == inst
  }

  lemma {:induction false} NodeDefsSources(nodes: seq<Node>, m: Defs, v: ValueId)
    requires v in NodeDefs(nodes, m)
    ensures (v in m && NodeDefs(nodes, m)[v] == m[v]) || DefinedIn(nodes, v, NodeDefs(nodes, m)[v])
    decreases nodes
  {
    if nodes != [] {
      var m' := if |nodes[0].results| == 1 then m[nodes[0].results[0] := nodes[0].inst] else m;
      NodeDefsSources(nodes[1..], m', v);
      if DefinedIn(nodes[1..], v, NodeDefs(nodes, m)[v]) {
        var n :| n in nodes[1..] && n.results == [v] && n.inst == NodeDefs(nodes, m)[v];
        assert n in nodes;
      } else if m'[v] != (if v in m then m[v] else m'[v]) || v !in m {
        assert nodes[0] in nodes && nodes[0].results == [v];
      }
    }
  }

  lemma {:induction false} BlockDefsSources(f: Func, blocks: seq<Block>, m: Defs, v: ValueId)
    requires forall b :: b in blocks ==> b in f.blocks
    requires v in BlockDefs(blocks, m)
    ensures (v in m && BlockDefs(blocks, m)[v] == m[v]) ||
            exists n :: InFunc(f, n) && n.results == [v] && n.inst == BlockDefs(blocks, m)[v]
    decreases blocks
  {
    if blocks != [] {
      var m' := NodeDefs(blocks[0].body, m);
      BlockDefsSources(f, blocks[1..], m', v);
      if v in m' && BlockDefs(blocks, m)[v] == m'[v] {
        NodeDefsSources(blocks[0].body, m, v);
        if DefinedIn(blocks[0].body, v, m'[v]) {
          var n :| n in blocks[0].body && n.results == [v] && n.inst == m'[v];
          assert blocks[0] in f.blocks && InFunc(f, n);
        }
      }
    }
  }

  lemma {:induction false} NodeDefsKeys(nodes: seq<Node>, m: Defs)
    ensures m.Keys <= NodeDefs(nodes, m).Keys
    ensures forall n :: n in nodes && |n.results| == 1 ==> n.results[0] in NodeDefs(nodes, m)
    decreases nodes
  {
    if nodes != [] {
      NodeDefsKeys(nodes[1..], if |nodes[0].results| == 1 then m[nodes[0].results[0] := nodes[0].inst] else m);
    }
  }

  lemma {:induction false} BlockDefsKeys(blocks: seq<Block>, m: Defs)
    ensures m.Keys <= BlockDefs(blocks, m).Keys
    ensures forall b, n :: b in blocks && n in b.body && |n.results| == 1 ==> n.results[0] in BlockDefs(blocks, m)
    decreases blocks
  {
    if blocks != [] {
      NodeDefsKeys(blocks[0].body, m);
      BlockDefsKeys(blocks[1..], NodeDefs(blocks[0].body, m));
    }
  }

  /** In SSA form the definition map holds each value's one definition, and nothing else. */
  lemma DefMapFacts(f: Func, base: Base, n: Node, v: ValueId)
    requires SsaForm(f, base) && InFunc(f, n) && v in n.results
    ensures n.results == [v] ==> v in DefMap(f) && DefMap(f)[v] == n.inst
    ensures |n.results| != 1 ==> v !in DefMap(f)
  {
    hide BlockDefs;
    BlockDefsKeys(f.blocks, map[]);
    if v in DefMap(f) {
      BlockDefsSources(f, f.blocks, map[], v);
      var d :| InFunc(f, d) && d.results == [v] && d.inst == DefMap(f)[v];
      assert d == n;
    }
  }

  lemma UndefinedNotInMap(f: Func, v: ValueId)
    requires Undefined(f, v)
    ensures v !in DefMap(f)
  {
    if v in DefMap(f) {
      BlockDefsSources(f, f.blocks, map[], v);
      assert false;
    }
  }

  lemma NodeKeepsOrigins(f: Func, base: Base, env: Env, n: Node, env': Env, s: Valuation)
    requires SsaForm(f, base) && InFunc(f, n) && Origins(f, base, env, s) && NodeStep(env, n, env')
    ensures Origins(f, base, env', s)
  {
    hide DefMap, ConstExpr, SsaForm;
    forall v | v in env' && ResolveDef(DefMap(f), v, base, 0).Some?
      ensures Denotes(ResolveDef(DefMap(f), v, base, 0).value, s, env'[v])
    {
      if v in n.results {
        DefMapFacts(f, base, n, v);
        ResultNotArg(f, base, n, v);
        match n.inst {
          case Const(ty, value) => ConstSound(ty, value, env, s);
          case Copy(_, o) => DepthMonotone(DefMap(f), o, base, 0, 1);
          case _ =>
        }
      }
    }
  }

  lemma ResultNotArg(f: Func, base: Base, n: Node, v: ValueId)
    requires SsaForm(f, base) && InFunc(f, n) && v in n.results
    ensures v !in base
  {
  }

  lemma {:induction false} BodyKeepsOrigins(f: Func, base: Base, env: Env, nodes: seq<Node>, env': Env, s: Valuation)
    requires SsaForm(f, base) && (forall n :: n in nodes ==> InFunc(f, n))
    requires Origins(f, base, env, s) && BodySteps(env, nodes, env')
    ensures Origins(f, base, env', s)
    decreases nodes
  {
    hide SsaForm, Origins, NodeStep, InFunc;
    if nodes != [] {
      var mid: Env :| NodeStep(env, nodes[0], mid) && BodySteps(mid, nodes[1..], env');
      NodeKeepsOrigins(f, base, env, nodes[0], mid, s);
      BodyKeepsOrigins(f, base, mid, nodes[1..], env', s);
    }
  }

  lemma BindKeepsOrigins(f: Func, base: Base, env: Env, target: Block, args: seq<ValueId>, s: Valuation)
    requires SsaForm(f, base) && target in f.blocks && target.id != f.entry
    requires Origins(f, base, env, s) && |args| == |target.params| && (forall a :: a in args ==> a in env)
    ensures Origins(f, base, Bind(env, env, target.params, args), s)
  {
    hide ResolveDef;
    var env' := Bind(env, env, target.params, args);
    BindValues(env, env, target.params, args);
    forall v | v in env' && ResolveDef(DefMap(f), v, base, 0).Some?
      ensures Denotes(ResolveDef(DefMap(f), v, base, 0).value, s, env'[v])
    {
      if k :| 0 <= k < |target.params| && target.params[k].0 == v {
        ParamUnresolved(f, base, target, k);
        assert false;
      }
    }
  }

  lemma ParamUnresolved(f: Func, base: Base, target: Block, k: nat)
    requires SsaForm(f, base) && target in f.blocks && target.id != f.entry && k < |target.params|
    ensures ResolveDef(DefMap(f), target.params[k].0, base, 0).None?
  {
    UndefinedNotInMap(f, target.params[k].0);
  }

  lemma StepKeepsOrigins(f: Func, base: Base, st: State, st': State, s: Valuation)
    requires SsaForm(f, base) && BlockStep(f, st, st') && Origins(f, base, st.env, s)
    ensures Origins(f, base, st'.env, s)
  {
    hide Origins, Bind, BodySteps;
    var b, target := FindBlock(f.blocks, st.block).value, FindBlock(f.blocks, st'.block).value;
    var out: Env, args :| BodySteps(st.env, Insts(b), out) && EdgeStep(out, Terminator(b), target, args, st'.env);
    BodyKeepsOrigins(f, base, st.env, Insts(b), out, s);
    TakenEdgeListed(out, Terminator(b), target.id, args);
    BindKeepsOrigins(f, base, out, target, args, s);
  }

  /** Through any emitted run, every value that resolves holds what it resolves to. */
  lemma {:induction false} RunKeepsOrigins(f: Func, base: Base, run: seq<State>, i: nat, s: Valuation)
    requires SsaForm(f, base) && IsRun(f, run) && i < |run| && EntryState(f, base, run[0], s)
    ensures Origins(f, base, run[i].env, s)
  {
    if i == 0 {
      forall v | v in run[0].env ensures v !in DefMap(f) { UndefinedNotInMap(f, v); }
    } else {
      RunKeepsOrigins(f, base, run, i - 1, s);
      assert BlockStep(f, run[i - 1], run[i]);
      StepKeepsOrigins(f, base, run[i - 1], run[i], s);
    }
  }

  lemma {:induction false} ResolveAllSound(f: Func, base: Base, env: Env, args: seq<ValueId>, s: Valuation)
    requires Origins(f, base, env, s) && ResolveAll(DefMap(f), args, base).Some? && (forall a :: a in args ==> a in env)
    ensures |ResolveAll(DefMap(f), args, base).value| == |args|
    ensures forall k :: 0 <= k < |args| ==> Denotes(ResolveAll(DefMap(f), args, base).value[k], s, env[args[k]])
  {
    hide DefMap, ResolveDef, Denotes;
    if args != [] { ResolveAllSound(f, base, env, args[1..], s); }
  }

  /** Entry-edge soundness: whenever any run takes the edge, the header params receive exactly
      the values the resolved expressions denote. */
  lemma EntryEdgeSound(f: Func, base: Base, run: seq<State>, i: nat, header: Block, s: Valuation)
    requires SsaForm(f, base) && IsRun(f, run) && i + 1 < |run| && EntryState(f, base, run[0], s)
    requires run[i + 1].block == header.id && FindBlock(f.blocks, header.id) == Some(header)
    requires EdgeArgsThroughDefs(f, run[i].block, header.id, base).Some?
    ensures ParamsDenote(header, run[i + 1].env, EdgeArgsThroughDefs(f, run[i].block, header.id, base).value, s)
  {
    hide Origins, Bind, BodySteps, ResolveAll, DefMap, EdgesTo, Denotes, EntryState, TakesEdge;
    RunKeepsOrigins(f, base, run, i, s);
    assert BlockStep(f, run[i], run[i + 1]);
    var b := FindBlock(f.blocks, run[i].block).value;
    var out: Env, args :| BodySteps(run[i].env, Insts(b), out) &&
        EdgeStep(out, Terminator(b), header, args, run[i + 1].env);
    BodyKeepsOrigins(f, base, run[i].env, Insts(b), out, s);
    TakenEdgeListed(out, Terminator(b), header.id, args);
    ResolveAllSound(f, base, out, args, s);
    BindValues(out, out, header.params, args);
  }
}
