/** The verifier's side of the check (mir_semantics.rs): MIR statements folded into a symbolic
    store, and one equality obligation per loop-carried slot on each in-edge of the header. */
module LoopVc {
  import opened Wrappers
  import opened Bits
  import opened Smt
  import opened TrustIr
  import opened Mir

  datatype SpecBinOp =
    | SpecAdd | SpecSub | SpecMul | SpecDiv | SpecRem | SpecXor | SpecAnd | SpecOr | SpecShl | SpecShr
    | SpecEq | SpecNe | SpecLt | SpecLe | SpecGt | SpecGe

  datatype SpecUnOp = SpecNeg | SpecNot

  datatype SpecOperand = SpecVar(name: Name, ty: ScalarTy) | SpecConst(value: nat, ty: ScalarTy)

  datatype SpecRvalue =
    | SpecUse(src: SpecOperand)
    | SpecBinary(op: SpecBinOp, ty: ScalarTy, l: SpecOperand, r: SpecOperand)
    | SpecUnary(uop: SpecUnOp, ty: ScalarTy, operand: SpecOperand)
    | SpecCast(srcTy: ScalarTy, dstTy: ScalarTy, operand: SpecOperand)

  datatype SpecStmt = SpecStmt(dst: Name, rvalue: SpecRvalue)

  datatype MirLoop = MirLoop(
    headerParams: seq<(Name, ScalarTy)>,
    preheaderArgs: seq<SpecOperand>,
    latchStmts: seq<SpecStmt>,
    latchArgs: seq<SpecOperand>,
    guard: Option<SpecOperand>)

  type SymStore = map<Name, Expr>

  // --- Encoding ------------------------------------------------------------------------

  function Encode(o: SpecOperand): Expr {
    match o
    case SpecVar(n, ty) => Var(n, TyBits(ty))
    case SpecConst(v, ty) => MkConst(Wrap(v, TyBits(ty)), TyBits(ty))
  }

  /** A name bound in the store reads its updated value; any other is a free input. */
  function Resolve(store: SymStore, o: SpecOperand): Expr {
    if o.SpecVar? && o.name in store then store[o.name] else Encode(o)
  }

  function CoerceAmount(amount: Expr, w: nat): Expr
    requires w > 0
  {
    if Width(amount) == w then amount
    else if Width(amount) < w then ZeroExt(w - Width(amount), amount)
    else Extract(w - 1, 0, amount)
  }

  function EncodeRel(op: SpecBinOp, signed: bool): Option<Rel> {
    match op
    case SpecEq => Some(RelEq)
    case SpecLt => Some(if signed then Slt else Ult)
    case SpecLe => Some(if signed then Sle else Ule)
    case SpecGt => Some(if signed then Sgt else Ugt)
    case SpecGe => Some(if signed then Sge else Uge)
    case _ => None
  }

  /** `None` stands for signed Div/Rem, whose trap-sentinel encoding no converted loop reaches. */
  function EncodeBinary(op: SpecBinOp, ty: ScalarTy, l: Expr, r: Expr): Option<Expr> {
    var w := TyBits(ty);
    var amount := MaskShiftAmount(CoerceAmount(r, w), w);
    match op
    case SpecAdd => Some(Bin(BvAdd, l, r))
    case SpecSub => Some(Bin(BvSub, l, r))
    case SpecMul => Some(Bin(BvMul, l, r))
    case SpecDiv => if ty.SInt? then None else Some(Bin(BvUDiv, l, r))
    case SpecRem => if ty.SInt? then None else Some(RemExpr(l, r))
    case SpecXor => Some(Bin(BvXor, l, r))
    case SpecAnd => Some(Bin(BvAnd, l, r))
    case SpecOr => Some(Bin(BvOr, l, r))
    case SpecShl => Some(Bin(BvShl, l, amount))
    case SpecShr => Some(Bin(if ty.SInt? then BvAShr else BvLShr, l, amount))
    case SpecNe => Some(Cset(Not(Cmp(RelEq, l, r))))
    case SpecEq | SpecLt | SpecLe | SpecGt | SpecGe => Some(Cset(Cmp(EncodeRel(op, ty.SInt?).value, l, r)))
  }

  function EncodeUnary(op: SpecUnOp, ty: ScalarTy, o: Expr): Expr {
    match op
    case SpecNeg => BvNeg(o)
    case SpecNot =>
      if ty.MirBool? then Cset(Cmp(RelEq, o, MkConst(0, 1)))
      else Bin(BvXor, o, MkConst(LowMask(TyBits(ty)), TyBits(ty)))
  }

  function EncodeCast(src: ScalarTy, dst: ScalarTy, o: Expr): Expr {
    var (sw, dw) := (TyBits(src), TyBits(dst));
    if dw == sw then o
    else if dw > sw then (if src.SInt? then SignExt(dw - sw, o) else ZeroExt(dw - sw, o))
    else Extract(dw - 1, 0, o)
  }

  function EncodeRvalue(store: SymStore, rv: SpecRvalue): Option<Expr> {
    match rv
    case SpecUse(o) => Some(Resolve(store, o))
    case SpecBinary(op, ty, l, r) => EncodeBinary(op, ty, Resolve(store, l), Resolve(store, r))
    case SpecUnary(op, ty, o) => Some(EncodeUnary(op, ty, Resolve(store, o)))
    case SpecCast(src, dst, o) => Some(EncodeCast(src, dst, Resolve(store, o)))
  }

  function EncodeStore(stmts: seq<SpecStmt>): Option<SymStore> {
    if stmts == [] then Some(map[])
    else
      var last := stmts[|stmts| - 1];
      match EncodeStore(stmts[..|stmts| - 1])
      case None => None
      case Some(store) =>
        match EncodeRvalue(store, last.rvalue)
        case None => None
        case Some(e) => Some(store[last.dst := e])
  }

  // --- Obligations ----------------------------------------------------------------------

  /** `bridge == mir` for every input on which the guard, if any, is nonzero. */
  datatype Obligation = Obligation(bridge: Expr, mir: Expr, guard: Option<Expr>)

  ghost predicate Valid(ob: Obligation) {
    && Width(ob.bridge) == Width(ob.mir)
    && forall s: Valuation :: GuardHolds(ob.guard, s) ==> Eval(ob.bridge, s) == Eval(ob.mir, s)
  }

  predicate GuardHolds(guard: Option<Expr>, s: Valuation) {
    guard.Some? ==> Eval(guard.value, s) != 0
  }

  function PairUp(bridge: seq<Expr>, mir: seq<Expr>, guard: Option<Expr>): (r: seq<Obligation>)
    requires |bridge| == |mir|
    ensures |r| == |mir| && forall k :: 0 <= k < |mir| ==> r[k] == Obligation(bridge[k], mir[k], guard)
  {
    seq(|bridge|, k requires 0 <= k < |bridge| => Obligation(bridge[k], mir[k], guard))
  }

  function ResolveAll(store: SymStore, args: seq<SpecOperand>): (r: seq<Expr>)
    ensures |r| == |args| && forall k :: 0 <= k < |args| ==> r[k] == Resolve(store, args[k])
  {
    seq(|args|, k requires 0 <= k < |args| => Resolve(store, args[k]))
  }

  /** The guard must be a header param, never a constant or a foreign name. */
  predicate GuardOk(lp: MirLoop) {
    lp.guard.Some? ==> lp.guard.value.SpecVar? && exists p :: p in lp.headerParams && p.0 == lp.guard.value.name
  }

  function GuardExpr(lp: MirLoop): Option<Expr> {
    if lp.guard.Some? then Some(Encode(lp.guard.value)) else None
  }

  /** `None` is the builder's structural error. */
  function BuildObligations(lp: MirLoop, pre: seq<Expr>, latch: seq<Expr>): Option<seq<Obligation>> {
    var n := |lp.headerParams|;
    if |lp.preheaderArgs| != n || |lp.latchArgs| != n || |pre| != n || |latch| != n || !GuardOk(lp) then None
    else match EncodeStore(lp.latchStmts)
      case None => None
      case Some(store) =>
        Some(PairUp(pre, ResolveAll(map[], lp.preheaderArgs), None) +
             PairUp(latch, ResolveAll(store, lp.latchArgs), GuardExpr(lp)))
  }

  datatype Verdict = Refined | Refuted | Inconclusive | StructuralError

  /** The decision procedure behind one obligation; a fixed function of the obligation. */
  type Discharge = Obligation -> Verdict

  ghost predicate SoundDischarge(discharge: Discharge) {
    forall ob :: discharge(ob) == Refined ==> Valid(ob)
  }

  /** Verdicts are folded in order; structurally identical sides need no solver. */
  function FoldVerdicts(obs: seq<Obligation>, discharge: Discharge): Verdict {
    if obs == [] then Refined
    else if obs[0].bridge == obs[0].mir || discharge(obs[0]) == Refined then FoldVerdicts(obs[1..], discharge)
    else discharge(obs[0])
  }

  function CheckLoopCarriedThreading(lp: MirLoop, pre: seq<Expr>, latch: seq<Expr>, discharge: Discharge): Verdict {
    match BuildObligations(lp, pre, latch)
    case None => StructuralError
    case Some(obs) => FoldVerdicts(obs, discharge)
  }

  /** Both sides are the same expression, or the solver proves them equal. */
  predicate Settled(ob: Obligation, discharge: Discharge) {
    ob.bridge == ob.mir || discharge(ob) == Refined
  }

  /** The loop is refined if and only if every slot is settled; otherwise the verdict is the solver's on
      the first slot that is not. */
  lemma {:induction false} FoldVerdictsIff(obs: seq<Obligation>, discharge: Discharge)
    ensures FoldVerdicts(obs, discharge) == Refined <==> forall ob <- obs :: Settled(ob, discharge)
    ensures FoldVerdicts(obs, discharge) != Refined ==>
              exists i ::
                && 0 <= i < |obs| && !Settled(obs[i], discharge) && FoldVerdicts(obs, discharge) == discharge(obs[i])
                && forall j :: 0 <= j < i ==> Settled(obs[j], discharge)
  {
    if obs != [] {
      FoldVerdictsIff(obs[1..], discharge);
      assert obs == [obs[0]] + obs[1..];
      if Settled(obs[0], discharge) && FoldVerdicts(obs, discharge) != Refined {
        var i :| 0 <= i < |obs[1..]| && !Settled(obs[1..][i], discharge) &&
                 FoldVerdicts(obs[1..], discharge) == discharge(obs[1..][i]) &&
                 forall j :: 0 <= j < i ==> Settled(obs[1..][j], discharge);
        assert obs[i + 1] == obs[1..][i];
        forall j | 0 <= j < i + 1 ensures Settled(obs[j], discharge) {
          if j > 0 { assert obs[j] == obs[1..][j - 1]; }
        }
      }
    }
  }

  /** A division or remainder of a signed type. */
  predicate SignedDivision(rv: SpecRvalue) {
    rv.SpecBinary? && (rv.op.SpecDiv? || rv.op.SpecRem?) && rv.ty.SInt?
  }

  lemma {:induction false} EncodeStoreIff(stmts: seq<SpecStmt>)
    ensures EncodeStore(stmts).Some? <==> forall st <- stmts :: !SignedDivision(st.rvalue)
  {
    if stmts != [] {
      var n := |stmts| - 1;
      EncodeStoreIff(stmts[..n]);
      assert stmts == stmts[..n] + [stmts[n]];
    }
  }

  /** Obligations are built if and only if every edge threads one arg per param, the guard is absent or
      names a header param, and nothing divides signed numbers. */
  lemma ObligationsBuiltIff(lp: MirLoop, pre: seq<Expr>, latch: seq<Expr>)
    ensures BuildObligations(lp, pre, latch).Some? <==>
            && |lp.preheaderArgs| == |lp.latchArgs| == |pre| == |latch| == |lp.headerParams|
            && (lp.guard.None? ||
                (lp.guard.value.SpecVar? && exists p <- lp.headerParams :: p.0 == lp.guard.value.name))
            && forall st <- lp.latchStmts :: !SignedDivision(st.rvalue)
  {
    hide EncodeStore, SignedDivision;
    EncodeStoreIff(lp.latchStmts);
  }

  lemma {:induction false} FoldVerdictsSound(obs: seq<Obligation>, discharge: Discharge)
    requires SoundDischarge(discharge) && FoldVerdicts(obs, discharge) == Refined
    ensures forall ob :: ob in obs ==> Valid(ob)
  {
    if obs != [] {
      assert Valid(obs[0]);
      FoldVerdictsSound(obs[1..], discharge);
    }
  }

  /** `Refined` means every slot of both edges agrees for all inputs the guard admits. */
  lemma RefinedMeansAllSlotsAgree(lp: MirLoop, pre: seq<Expr>, latch: seq<Expr>, discharge: Discharge)
    requires SoundDischarge(discharge) && CheckLoopCarriedThreading(lp, pre, latch, discharge) == Refined
    ensures BuildObligations(lp, pre, latch).Some?
    ensures EncodeStore(lp.latchStmts).Some?
    ensures forall k :: 0 <= k < |pre| ==> Valid(Obligation(pre[k], Encode(lp.preheaderArgs[k]), None))
    ensures forall k :: 0 <= k < |latch| ==>
              Valid(Obligation(latch[k], Resolve(EncodeStore(lp.latchStmts).value, lp.latchArgs[k]), GuardExpr(lp)))
  {
    hide Valid, EncodeStore, SoundDischarge, Encode;
    var obs := BuildObligations(lp, pre, latch).value;
    FoldVerdictsSound(obs, discharge);
    var n := |pre|;
    forall k | 0 <= k < n ensures Valid(Obligation(pre[k], Encode(lp.preheaderArgs[k]), None)) {
      assert obs[k] in obs;
    }
    forall k | 0 <= k < n
      ensures Valid(Obligation(latch[k], Resolve(EncodeStore(lp.latchStmts).value, lp.latchArgs[k]), GuardExpr(lp)))
    {
      assert obs[n + k] in obs;
    }
  }

  // --- The encoders compute what Rust computes --------------------------------------------

  lemma SignedArith(x: nat, y: nat, w: nat)
    requires x < Pow2(w) && y < Pow2(w)
    ensures Wrap(ToSigned(x, w) + ToSigned(y, w), w) == Wrap(x + y, w)
    ensures Wrap(ToSigned(x, w) - ToSigned(y, w), w) == Wrap(x - y, w)
    ensures Wrap(ToSigned(x, w) * ToSigned(y, w), w) == Wrap(x * y, w)
    ensures Wrap(0 - ToSigned(x, w), w) == Wrap(0 - x, w)
    ensures Wrap(-1 - ToSigned(x, w), w) == Wrap(-1 - x, w)
  {
    hide Wrap, Pow2;
    var m := Pow2(w);
    var s, t := if Msb(x, w) then 1 else 0, if Msb(y, w) then 1 else 0;
    var sx, sy := ToSigned(x, w), ToSigned(y, w);
    assert sx == x - s * m && sy == y - t * m;
    WrapCongruent(sx + sy, x + y, -s - t, w);
    WrapCongruent(sx - sy, x - y, t - s, w);
    WrapCongruent(0 - sx, 0 - x, s, w);
    WrapCongruent(-1 - sx, -1 - x, s, w);
    SignedProduct(x, y, s, t, m);
    WrapCongruent(sx * sy, x * y, s * t * m - s * y - t * x, w);
  }

  lemma SignedProduct(x: int, y: int, s: int, t: int, m: int)
    ensures (x - s * m) * (y - t * m) == x * y + (s * t * m - s * y - t * x) * m
  {
  }
}
