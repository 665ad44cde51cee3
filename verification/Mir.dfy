/** The source MIR: the scalar subset the loop model is built from, and what Rust says it
    computes. Operands are read as mathematical integers of their type, the operation is done
    there, and the result is wrapped back; no SMT encoding is mentioned. */
module Mir {
  import opened Wrappers
  import opened Bits
  import opened Smt
  import opened TrustIr

  type Local = nat
  type BasicBlock = nat

  const START_BLOCK: BasicBlock := 0

  /** Integer and bool types; anything else has no scalar type. */
  datatype ScalarTy = SInt(size: IntSize) | UInt(size: IntSize) | MirBool

  datatype IntSize = Size8 | Size16 | Size32 | Size64

  function TyBits(ty: ScalarTy): (w: nat)
    ensures MachineWidth(w)
  {
    match ty
    case MirBool => 1
    case SInt(s) => SizeBits(s)
    case UInt(s) => SizeBits(s)
  }

  function SizeBits(s: IntSize): nat {
    match s
    case Size8 => 8
    case Size16 => 16
    case Size32 => 32
    case Size64 => 64
  }

  datatype Place = Plain(local: Local) | Projected(local: Local)

  /** A constant operand carries what evaluation yields: its scalar type and integer value. */
  datatype Operand = Read(place: Place) | Constant(ty: Option<ScalarTy>, scalar: Option<int>)

  datatype MirBinOp =
    | MAdd | MAddUnchecked | MSub | MSubUnchecked | MMul | MMulUnchecked | MDiv | MRem
    | MBitXor | MBitAnd | MBitOr | MShl | MShlUnchecked | MShr | MShrUnchecked
    | MEq | MNe | MLt | MLe | MGt | MGe
    | MOtherBin // the overflow-checked forms, three-way comparison, pointer offset

  datatype MirUnOp = MNeg | MNot | MOtherUn

  datatype Rvalue =
    | Use(operand: Operand)
    | BinaryOp(op: MirBinOp, l: Operand, r: Operand)
    | UnaryOp(uop: MirUnOp, operand: Operand)
    | IntToInt(operand: Operand, target: Option<ScalarTy>)
    | OtherRvalue

  datatype Statement =
    | Assign(place: Place, rvalue: Rvalue)
    | Bookkeeping // storage markers, fake reads, coverage, ...
    | OtherStatement // discriminant writes, retags, intrinsics, ...

  datatype MirTerminator =
    | Goto(target: BasicBlock)
    | SwitchInt(discr: Operand, cases: seq<(int, BasicBlock)>, otherwise: BasicBlock)
    | Assert(target: BasicBlock, cleanup: Option<BasicBlock>)
    | Effect(successors: seq<BasicBlock>) // calls, drops, returns, ...: may write anything

  datatype BlockData = BlockData(statements: seq<Statement>, terminator: MirTerminator)

  datatype Body = Body(blocks: seq<BlockData>, argCount: nat, localTys: map<Local, ScalarTy>)

  function CaseTargets(cases: seq<(int, BasicBlock)>): seq<BasicBlock> {
    if cases == [] then [] else [cases[0].1] + CaseTargets(cases[1..])
  }

  function Successors(t: MirTerminator): seq<BasicBlock> {
    match t
    case Goto(b) => [b]
    case SwitchInt(_, cases, otherwise) => CaseTargets(cases) + [otherwise]
    case Assert(b, cleanup) => [b] + (if cleanup.Some? then [cleanup.value] else [])
    case Effect(succs) => succs
  }

  /** A body rustc hands over: jumps stay inside, and nothing jumps to the start block. */
  ghost predicate WellFormedBody(body: Body) {
    && |body.blocks| > 0
    && forall b, t :: 0 <= b < |body.blocks| && t in Successors(body.blocks[b].terminator) ==>
         0 < t < |body.blocks|
  }

  /** `predecessors` lists every CFG edge. */
  ghost predicate ListsEdges(body: Body, preds: seq<seq<BasicBlock>>) {
    && |preds| == |body.blocks|
    && forall b, t :: 0 <= b < |body.blocks| && t in Successors(body.blocks[b].terminator) && t < |preds| ==>
        b in preds[t]
  }

  predicate InRange(body: Body, blocks: seq<BasicBlock>) {
    forall i :: 0 <= i < |blocks| ==> blocks[i] < |body.blocks|
  }

  predicate IsEntryArg(body: Body, local: Local) {
    1 <= local <= body.argCount
  }

  function LocalTy(body: Body, local: Local): Option<ScalarTy> {
    if local in body.localTys then Some(body.localTys[local]) else None
  }

  function PlainLocal(place: Place): Option<Local> {
    if place.Plain? then Some(place.local) else None
  }

  function OperandLocal(o: Operand): Option<Local> {
    if o.Read? then PlainLocal(o.place) else None
  }

  function OperandTy(body: Body, o: Operand): Option<ScalarTy> {
    match o
    case Read(Plain(l)) => LocalTy(body, l)
    case Read(Projected(_)) => None
    case Constant(ty, _) => ty
  }

  // --- Rust semantics ---------------------------------------------------------------

  type Store = map<Local, Value>

  /** The integer a bit pattern of type `ty` denotes. */
  function AsInt(ty: ScalarTy, bits: nat): int {
    if ty.SInt? then ToSigned(bits, TyBits(ty)) else bits
  }

  function EvalOperand(body: Body, store: Store, o: Operand): Outcome {
    match o
    case Read(Plain(l)) => if l in store then Computes(store[l]) else Stuck
    case Read(Projected(_)) => Unmodelled
    case Constant(ty, scalar) =>
      if ty.Some? && scalar.Some? then Computes(Val(Wrap(scalar.value, TyBits(ty.value)), TyBits(ty.value)))
      else Unmodelled
  }

  /** Binary operators on patterns of one type; `None` for what this slice leaves undefined,
      which includes signed division. */
  function RustBin(op: MirBinOp, ty: ScalarTy, a: nat, b: nat): Option<nat> {
    var w := TyBits(ty);
    var (x, y) := (AsInt(ty, a), AsInt(ty, b));
    match op
    case MAdd | MAddUnchecked => Some(Wrap(x + y, w))
    case MSub | MSubUnchecked => Some(Wrap(x - y, w))
    case MMul | MMulUnchecked => Some(Wrap(x * y, w))
    case MDiv => if ty.SInt? then None else Some(if b == 0 then Pow2(w) - 1 else Wrap(a / b, w))
    case MRem => if ty.SInt? then None else Some(if b == 0 then a else a % b)
    case MBitXor => Some(BitXor(a, b))
    case MBitAnd => Some(BitAnd(a, b))
    case MBitOr => Some(BitOr(a, b))
    // Rust takes shift counts modulo the width.
    case MShl | MShlUnchecked => Some(ShiftLeft(a, b % w, w))
    case MShr | MShrUnchecked => Some(Wrap(x / Pow2(b % w), w))
    case _ => None
  }

  /** Comparisons compare the integers. */
  function RustCompare(op: MirBinOp, ty: ScalarTy, a: nat, b: nat): Option<bool> {
    var (x, y) := (AsInt(ty, a), AsInt(ty, b));
    match op
    case MEq => Some(x == y)
    case MNe => Some(x != y)
    case MLt => Some(x < y)
    case MLe => Some(x <= y)
    case MGt => Some(x > y)
    case MGe => Some(x >= y)
    case _ => None
  }

  lemma RustBinFits(op: MirBinOp, ty: ScalarTy, a: nat, b: nat)
    requires a < Pow2(TyBits(ty)) && b < Pow2(TyBits(ty)) && RustBin(op, ty, a, b).Some?
    ensures RustBin(op, ty, a, b).value < Pow2(TyBits(ty))
  {
    hide BitAnd, BitOr, BitXor, Wrap, Pow2, ShiftLeft, ToSigned;
    var w := TyBits(ty);
    match op
    case MBitAnd => BitAndBound(a, b);
    case MBitOr => BitOrXorBound(a, b, w);
    case MBitXor => BitOrXorBound(a, b, w);
    case _ =>
  }

  function EvalBinary(op: MirBinOp, ty: ScalarTy, x: Value, y: Value): Outcome {
    var w := TyBits(ty);
    if x.width != w || y.width != w then Stuck
    else if RustCompare(op, ty, x.bits, y.bits).Some? then
      Computes(BoolVal(RustCompare(op, ty, x.bits, y.bits).value))
    else if RustBin(op, ty, x.bits, y.bits).Some? then
      RustBinFits(op, ty, x.bits, y.bits);
      Computes(Val(RustBin(op, ty, x.bits, y.bits).value, w))
    else Unmodelled
  }

  /** `-x` and `!x` on integers (`!x` is `-1 - x`); logical not on bool. */
  function EvalUnary(op: MirUnOp, ty: ScalarTy, x: Value): Outcome {
    var w := TyBits(ty);
    if x.width != w then Stuck
    else match op
      case MNeg => Computes(Val(Wrap(0 - AsInt(ty, x.bits), w), w))
      case MNot =>
        if ty.MirBool? then Computes(BoolVal(x.bits == 0)) else Computes(Val(Wrap(-1 - AsInt(ty, x.bits), w), w))
      case MOtherUn => Unmodelled
  }

  /** An integer cast keeps the value modulo the target's range. */
  function EvalIntCast(src: ScalarTy, dst: ScalarTy, x: Value): Outcome {
    if x.width != TyBits(src) then Stuck
    else Computes(Val(Wrap(AsInt(src, x.bits), TyBits(dst)), TyBits(dst)))
  }

  function EvalRvalue(body: Body, store: Store, rv: Rvalue): Outcome {
    match rv
    case Use(o) => EvalOperand(body, store, o)
    case BinaryOp(op, l, r) =>
      var (ty, ty2, x, y) := (OperandTy(body, l), OperandTy(body, r), EvalOperand(body, store, l),
          EvalOperand(body, store, r));
      if ty.None? || ty2.None? || TyBits(ty.value) != TyBits(ty2.value) || x.Unmodelled? ||
          y.Unmodelled? then Unmodelled
      else if x.Stuck? || y.Stuck? then Stuck
      else EvalBinary(op, ty.value, x.v, y.v)
    case UnaryOp(op, o) =>
      var (ty, x) := (OperandTy(body, o), EvalOperand(body, store, o));
      if ty.None? || x.Unmodelled? then Unmodelled
      else if x.Stuck? then Stuck
      else EvalUnary(op, ty.value, x.v)
    case IntToInt(o, target) =>
      var (ty, x) := (OperandTy(body, o), EvalOperand(body, store, o));
      if ty.None? || target.None? || x.Unmodelled? then Unmodelled
      else if x.Stuck? then Stuck
      else EvalIntCast(ty.value, target.value, x.v)
    case OtherRvalue => Unmodelled
  }

  /** Scalar locals hold values of their declared width. */
  ghost predicate WellTyped(body: Body, store: Store) {
    forall l :: l in store && l in body.localTys ==> store[l].width == TyBits(body.localTys[l])
  }

  /** One statement. Unmodelled right-hand sides leave any value in their destination;
      projected stores and other statements may leave any store at all. */
  ghost predicate StmtStep(body: Body, store: Store, stmt: Statement, store': Store) {
    && WellTyped(body, store')
    && match stmt
       case Assign(Plain(dst), rv) =>
         (match EvalRvalue(body, store, rv)
          case Computes(v) => store' == store[dst := v]
          case Stuck => false
          case Unmodelled => dst in store' && store' == store[dst := store'[dst]])
       case Bookkeeping => store' == store
       case _ => true
  }

  ghost predicate StmtsStep(body: Body, store: Store, stmts: seq<Statement>, store': Store)
    decreases stmts
  {
    if stmts == [] then store == store'
    else exists mid: Store :: StmtStep(body, store, stmts[0], mid) && StmtsStep(body, mid, stmts[1..], store')
  }

  ghost predicate SwitchGoes(v: Value, cases: seq<(int, BasicBlock)>, otherwise: BasicBlock, next: BasicBlock) {
    if cases == [] then next == otherwise
    else if Wrap(cases[0].0, v.width) == v.bits then next == cases[0].1
    else SwitchGoes(v, cases[1..], otherwise, next)
  }

  ghost predicate TermStep(body: Body, store: Store, t: MirTerminator, next: BasicBlock, store': Store) {
    && next in Successors(t)
    && WellTyped(body, store')
    && match t
       case SwitchInt(discr, cases, otherwise) =>
         && store' == store
         && (match EvalOperand(body, store, discr)
             case Computes(v) => SwitchGoes(v, cases, otherwise, next)
             case Stuck => false
             case Unmodelled => true)
       case Effect(_) => true
       case _ => store' == store
  }

  /** Control is at the start of `block`. */
  datatype MirState = MirState(block: BasicBlock, store: Store)

  ghost predicate MirStep(body: Body, s: MirState, s': MirState) {
    && s.block < |body.blocks|
    && exists mid: Store ::
         && StmtsStep(body, s.store, body.blocks[s.block].statements, mid)
         && TermStep(body, mid, body.blocks[s.block].terminator, s'.block, s'.store)
  }

  /** A finite execution from the start block, with the arguments in their locals. */
  ghost predicate IsMirRun(body: Body, run: seq<MirState>) {
    && |run| > 0
    && run[0].block == START_BLOCK
    && WellTyped(body, run[0].store)
    && forall i :: 0 <= i < |run| - 1 ==> MirStep(body, run[i], run[i + 1])
  }
}
