/** The emitted trust-ir: syntax of the scalar slice, and what the emitted program really
    does when it runs, stated on bit patterns and without reference to any SMT encoding. */
module TrustIr {
  import opened Wrappers
  import opened Bits
  import opened Smt

  type ValueId = nat
  type BlockId = nat

  datatype Ty = I8 | U8 | I16 | U16 | I32 | U32 | I64 | U64 | BoolTy | OtherTy

  datatype Constant = Int(i: int) | Bool(b: bool) | OtherConstant

  datatype BinOp =
    | Add | Sub | Mul | UDiv | URem | And | Or | Xor | Shl | LShr | AShr
    | SDiv | SRem | FloatBinOp | BAnd | BOr | BXor

  datatype UnOp = Neg | BitNot | FloatUnOp | CtPop

  datatype ICmpOp = CmpEq | CmpNe | CmpUlt | CmpUle | CmpUgt | CmpUge | CmpSlt | CmpSle | CmpSgt | CmpSge

  datatype CastOp = SExt | ZExt | Trunc | OtherCast

  datatype Case = Case(value: int, target: BlockId, args: seq<ValueId>)

  datatype Inst =
    | Const(ty: Ty, value: Constant)
    | Copy(ty: Ty, operand: ValueId)
    | BinInst(bop: BinOp, ty: Ty, l: ValueId, r: ValueId)
    | UnInst(uop: UnOp, ty: Ty, operand: ValueId)
    | ICmp(cop: ICmpOp, ty: Ty, l: ValueId, r: ValueId)
    | Cast(castOp: CastOp, srcTy: Ty, dstTy: Ty, operand: ValueId)
    | Br(target: BlockId, args: seq<ValueId>)
    | CondBr(cond: ValueId, thenTarget: BlockId, thenArgs: seq<ValueId>, elseTarget: BlockId, elseArgs: seq<ValueId>)
    | Switch(scrutinee: ValueId, default: BlockId, defaultArgs: seq<ValueId>, cases: seq<Case>)
    | OtherInst // loads, stores, calls, returns, ...

  datatype Node = Node(inst: Inst, results: seq<ValueId>)

  datatype Block = Block(id: BlockId, params: seq<(ValueId, Ty)>, body: seq<Node>)

  datatype Func = Func(entry: BlockId, blocks: seq<Block>)

  type Env = map<ValueId, Value>

  function IntWidth(ty: Ty): Option<nat> {
    match ty
    case I8 | U8 => Some(8)
    case I16 | U16 => Some(16)
    case I32 | U32 => Some(32)
    case I64 | U64 => Some(64)
    case BoolTy => Some(1)
    case OtherTy => None
  }

  function FindBlock(blocks: seq<Block>, id: BlockId): (r: Option<Block>)
    ensures r.Some? ==> r.value in blocks && r.value.id == id
    ensures r.None? ==> forall b <- blocks :: b.id != id
  {
    if blocks == [] then None
    else if blocks[0].id == id then Some(blocks[0])
    else FindBlock(blocks[1..], id)
  }

  // --- Machine semantics -------------------------------------------------------

  /** What executing a value-producing instruction yields: a value, nothing because the
      program is ill-typed at this point, or something this slice does not define. */
  datatype Outcome = Computes(v: Value) | Stuck | Unmodelled

  function MachineBin(op: BinOp, a: nat, b: nat, w: nat): (r: Option<nat>)
    requires w > 0
  {
    match op
    case Add => Some(Wrap(a + b, w))
    case Sub => Some(Wrap(a - b, w))
    case Mul => Some(Wrap(a * b, w))
    case UDiv => Some(if b == 0 then Pow2(w) - 1 else a / b)
    case URem => Some(if b == 0 then a else a % b)
    case And => Some(BitAnd(a, b))
    case Or => Some(BitOr(a, b))
    case Xor => Some(BitXor(a, b))
    // Shift counts are taken modulo the width.
    case Shl => Some(ShiftLeft(a, b % w, w))
    case LShr => Some(ShiftRight(a, b % w))
    case AShr => Some(ShiftRightSigned(a, b % w, w))
    case _ => None
  }

  lemma MachineBinFits(op: BinOp, a: nat, b: nat, w: nat)
    requires a < Pow2(w) && b < Pow2(w) && w > 0
    ensures MachineBin(op, a, b, w).Some? ==> MachineBin(op, a, b, w).value < Pow2(w)
  {
    match op
    case UDiv => if b > 0 { DivRem(a, b); }
    case And => BitAndBound(a, b);
    case Or => BitOrXorBound(a, b, w);
    case Xor => BitOrXorBound(a, b, w);
    case LShr => DivRem(a, Pow2(b % w));
    case _ =>
  }

  predicate MachineCmp(op: ICmpOp, a: nat, b: nat, w: nat) {
    var (sa, sb) := (ToSigned(a, w), ToSigned(b, w));
    match op
    case CmpEq => a == b
    case CmpNe => a != b
    case CmpUlt => a < b
    case CmpUle => a <= b
    case CmpUgt => a > b
    case CmpUge => a >= b
    case CmpSlt => sa < sb
    case CmpSle => sa <= sb
    case CmpSgt => sa > sb
    case CmpSge => sa >= sb
  }

  function BoolVal(b: bool): Value {
    assert Pow2(1) == 2;
    if b then Val(1, 1) else Val(0, 1)
  }

  function EvalBinInst(op: BinOp, w: nat, x: Value, y: Value): Outcome
    requires w > 0
  {
    if x.width != w || y.width != w then Stuck else
    MachineBinFits(op, x.bits, y.bits, w);
    match MachineBin(op, x.bits, y.bits, w)
    case Some(v) => Computes(Val(v, w))
    case None => Unmodelled
  }

  function EvalCast(op: CastOp, sw: nat, dw: nat, x: Value): Outcome {
    if x.width != sw then Stuck else
    match op
    case SExt => if dw >= sw then Computes(Val(Wrap(ToSigned(x.bits, sw), dw), dw)) else Unmodelled
    case ZExt => if dw >= sw then Pow2Mono(sw, dw); Computes(Val(x.bits, dw)) else Unmodelled
    case Trunc => if dw <= sw then Computes(Val(Wrap(x.bits, dw), dw)) else Unmodelled
    case OtherCast => Unmodelled
  }

  function EvalInst(env: Env, inst: Inst): Outcome {
    match inst
    case Const(ty, value) =>
      (match (IntWidth(ty), value)
       case (Some(w), Int(i)) => Computes(Val(Wrap(i, w), w))
       case (Some(_), Bool(b)) => Computes(BoolVal(b))
       case _ => Unmodelled)
    case Copy(_, o) => if o in env then Computes(env[o]) else Stuck
    case BinInst(op, ty, l, r) =>
      if IntWidth(ty).None? then Unmodelled
      else if l !in env || r !in env then Stuck
      else EvalBinInst(op, IntWidth(ty).value, env[l], env[r])
    case UnInst(op, ty, o) =>
      if IntWidth(ty).None? || !(op.Neg? || op.BitNot?) then Unmodelled
      else if o !in env || env[o].width != IntWidth(ty).value then Stuck
      else
        var w := env[o].width;
        if op.Neg? then Computes(Val(Wrap(0 - env[o].bits, w), w)) else Computes(Val(Pow2(w) - 1 - env[o].bits, w))
    case ICmp(op, ty, l, r) =>
      if IntWidth(ty).None? then Unmodelled
      else
        var w := IntWidth(ty).value;
        if l !in env || r !in env || env[l].width != w || env[r].width != w then Stuck
        else Computes(BoolVal(MachineCmp(op, env[l].bits, env[r].bits, w)))
    case Cast(op, s, d, o) =>
      if IntWidth(s).None? || IntWidth(d).None? then Unmodelled
      else if o !in env then Stuck
      else EvalCast(op, IntWidth(s).value, IntWidth(d).value, env[o])
    case _ => Unmodelled
  }

  /** One non-terminator executes. A modelled instruction writes its value to its single
      result; any other one may leave anything in its results, and touches nothing else. */
  ghost predicate NodeStep(env: Env, node: Node, env': Env) {
    match EvalInst(env, node.inst)
    case Computes(v) => |node.results| == 1 && env' == env[node.results[0] := v]
    case Stuck => false
    case Unmodelled =>
      && env.Keys <= env'.Keys
      && (forall v :: v in env'.Keys && v !in node.results ==> v in env.Keys && env'[v] == env[v])
  }

  ghost predicate BodySteps(env: Env, nodes: seq<Node>, env': Env)
    decreases nodes
  {
    if nodes == [] then env == env'
    else exists mid: Env :: NodeStep(env, nodes[0], mid) && BodySteps(mid, nodes[1..], env')
  }

  /** The arm a terminator takes, decided by the actual condition values. */
  ghost predicate TakesEdge(env: Env, term: Inst, target: BlockId, args: seq<ValueId>) {
    match term
    case Br(t, a) => target == t && args == a
    case CondBr(c, tt, ta, et, ea) =>
      c in env && (if env[c].bits != 0 then target == tt && args == ta else target == et && args == ea)
    case Switch(s, d, da, cases) => s in env && SwitchTakes(env[s], cases, d, da, target, args)
    case _ => false
  }

  ghost predicate SwitchTakes(v: Value, cases: seq<Case>, d: BlockId, da: seq<ValueId>, target: BlockId,
      args: seq<ValueId>) {
    if cases == [] then target == d && args == da
    else if Wrap(cases[0].value, v.width) == v.bits then target == cases[0].target && args == cases[0].args
    else SwitchTakes(v, cases[1..], d, da, target, args)
  }

  /** Block params are assigned together from the edge's args. */
  function Bind(env: Env, base: Env, params: seq<(ValueId, Ty)>, args: seq<ValueId>): (r: Env)
    requires |params| == |args|
    requires forall a :: a in args ==> a in base
    decreases params
  {
    if params == [] then env
    else Bind(env[params[0].0 := base[args[0]]], base, params[1..], args[1..])
  }

  /** Control is at the start of `block`, its params already bound. */
  datatype State = State(block: BlockId, env: Env)

  ghost predicate EdgeStep(env: Env, term: Inst, target: Block, args: seq<ValueId>, env': Env) {
    && TakesEdge(env, term, target.id, args)
    && |args| == |target.params|
    && (forall a :: a in args ==> a in env)
    && env' == Bind(env, env, target.params, args)
  }

  function Insts(b: Block): seq<Node>
    requires b.body != []
  {
    b.body[..|b.body| - 1]
  }

  function Terminator(b: Block): Inst
    requires b.body != []
  {
    b.body[|b.body| - 1].inst
  }

  ghost predicate BlockStep(f: Func, s: State, s': State) {
    var b, target := FindBlock(f.blocks, s.block), FindBlock(f.blocks, s'.block);
    && b.Some? && target.Some? && b.value.body != []
    && exists out: Env, args: seq<ValueId> ::
         BodySteps(s.env, Insts(b.value), out) && EdgeStep(out, Terminator(b.value), target.value, args, s'.env)
  }

  /** A finite execution: consecutive block steps. */
  ghost predicate IsRun(f: Func, run: seq<State>) {
    forall i :: 0 <= i < |run| - 1 ==> BlockStep(f, run[i], run[i + 1])
  }
}
