/** The bit-vector slice of the verifier's SMT expressions, with the SMT-LIB meaning of
    every operator (total division: dividing by zero yields all ones). Bit-vector and
    Boolean sorts are kept apart by the types, as `try_bv_width` keeps them apart at run time. */
module Smt {
  import opened Bits

  /** `p<index>` names a header param's local, `arg<index>` a function argument. */
  datatype Name = Param(local: nat) | EntryArg(local: nat)

  datatype BvOp = BvAdd | BvSub | BvMul | BvUDiv | BvAnd | BvOr | BvXor | BvShl | BvLShr | BvAShr

  datatype Rel = RelEq | Ult | Ule | Ugt | Uge | Slt | Sle | Sgt | Sge

  datatype Expr =
    | Var(name: Name, width: nat)
    | BvConst(value: nat, width: nat)
    | Bin(op: BvOp, lhs: Expr, rhs: Expr)
    | BvNeg(operand: Expr)
    | ZeroExt(extra: nat, operand: Expr)
    | SignExt(extra: nat, operand: Expr)
    | Extract(hi: nat, lo: nat, operand: Expr)
    | Ite(cond: Cond, thn: Expr, els: Expr)

  datatype Cond = Cmp(rel: Rel, l: Expr, r: Expr) | Not(c: Cond)

  /** A valuation of the free variables; unlisted names read as zero. */
  type Valuation = map<Name, nat>

  /** A bit vector together with its width. */
  datatype RawVal = Val(bits: nat, width: nat)
  type Value = v: RawVal | v.bits < Pow2(v.width) witness Val(0, 0)

  function Width(e: Expr): nat {
    match e
    case Var(_, w) => w
    case BvConst(_, w) => w
    case Bin(_, l, _) => Width(l)
    case BvNeg(o) => Width(o)
    case ZeroExt(x, o) => Width(o) + x
    case SignExt(x, o) => Width(o) + x
    case Extract(hi, lo, _) => if hi >= lo then hi - lo + 1 else 0
    case Ite(_, t, _) => Width(t)
  }

  predicate WellSorted(e: Expr) {
    match e
    case Var(_, _) => true
    case BvConst(v, w) => v < Pow2(w)
    case Bin(_, l, r) => WellSorted(l) && WellSorted(r) && Width(l) == Width(r)
    case BvNeg(o) => WellSorted(o)
    case ZeroExt(_, o) => WellSorted(o)
    case SignExt(_, o) => WellSorted(o)
    case Extract(hi, lo, o) => WellSorted(o) && lo <= hi < Width(o)
    case Ite(c, t, f) => WellSortedCond(c) && WellSorted(t) && WellSorted(f) && Width(t) == Width(f)
  }

  predicate WellSortedCond(c: Cond) {
    match c
    case Cmp(_, l, r) => WellSorted(l) && WellSorted(r) && Width(l) == Width(r)
    case Not(d) => WellSortedCond(d)
  }

  /** The free variables, each with the width it is used at. */
  function Vars(e: Expr): set<(Name, nat)> {
    match e
    case Var(n, w) => {(n, w)}
    case BvConst(_, _) => {}
    case Bin(_, l, r) => Vars(l) + Vars(r)
    case BvNeg(o) => Vars(o)
    case ZeroExt(_, o) => Vars(o)
    case SignExt(_, o) => Vars(o)
    case Extract(_, _, o) => Vars(o)
    case Ite(c, t, f) => VarsCond(c) + Vars(t) + Vars(f)
  }

  function VarsCond(c: Cond): set<(Name, nat)> {
    match c
    case Cmp(_, l, r) => Vars(l) + Vars(r)
    case Not(d) => VarsCond(d)
  }

  // --- SMT-LIB meaning -------------------------------------------------------

  function EvalBin(op: BvOp, a: nat, b: nat, w: nat): nat {
    match op
    case BvAdd => Wrap(a + b, w)
    case BvSub => Wrap(a - b, w)
    case BvMul => Wrap(a * b, w)
    case BvUDiv => if b == 0 then Pow2(w) - 1 else a / b
    case BvAnd => BitAnd(a, b)
    case BvOr => BitOr(a, b)
    case BvXor => BitXor(a, b)
    case BvShl => ShiftLeft(a, b, w)
    case BvLShr => ShiftRight(a, b)
    case BvAShr => ShiftRightArith(Wrap(a, w), b, w)
  }

  predicate EvalRel(rel: Rel, a: nat, b: nat, w: nat) {
    match rel
    case RelEq => a == b
    case Ult => a < b
    case Ule => a <= b
    case Ugt => a > b
    case Uge => a >= b
    // SMT-LIB: decided by the sign bits, then unsigned.
    case Slt => (Msb(a, w) && !Msb(b, w)) || (Msb(a, w) == Msb(b, w) && a < b)
    case Sle => (Msb(a, w) && !Msb(b, w)) || (Msb(a, w) == Msb(b, w) && a <= b)
    case Sgt => (Msb(b, w) && !Msb(a, w)) || (Msb(a, w) == Msb(b, w) && b < a)
    case Sge => (Msb(b, w) && !Msb(a, w)) || (Msb(a, w) == Msb(b, w) && b <= a)
  }

  function Lookup(s: Valuation, n: Name): nat {
    if n in s then s[n] else 0
  }

  function Eval(e: Expr, s: Valuation): nat {
    match e
    case Var(n, w) => Wrap(Lookup(s, n), w)
    case BvConst(v, w) => v
    case Bin(op, l, r) => EvalBin(op, Eval(l, s), Eval(r, s), Width(l))
    case BvNeg(o) => Negate(Eval(o, s), Width(o))
    case ZeroExt(_, o) => Eval(o, s)
    // SMT-LIB: copies of the sign bit are prepended.
    case SignExt(x, o) => SignFill(Eval(o, s), Width(o), x)
    case Extract(hi, lo, o) => BitField(Eval(o, s), hi, lo)
    case Ite(c, t, f) => if EvalCond(c, s) then Eval(t, s) else Eval(f, s)
  }

  predicate EvalCond(c: Cond, s: Valuation) {
    match c
    case Cmp(rel, l, r) => EvalRel(rel, Eval(l, s), Eval(r, s), Width(l))
    case Not(d) => !EvalCond(d, s)
  }

  /** `e` denotes `v` under `s`: same width, same bits. */
  ghost predicate Denotes(e: Expr, s: Valuation, v: Value) {
    Width(e) == v.width && Eval(e, s) == v.bits
  }

  lemma BinEval(op: BvOp, l: Expr, r: Expr, s: Valuation)
    ensures Eval(Bin(op, l, r), s) == EvalBin(op, Eval(l, s), Eval(r, s), Width(l)) && Width(Bin(op, l, r)) == Width(l)
  {
  }

  // --- The encoding idioms both sides use --------------------------------------

  /** The all-ones payload of a width (`low_mask`, at most 64 bits). */
  function LowMask(w: nat): nat {
    Pow2(if w >= 64 then 64 else w) - 1
  }

  /** Masking a 64-bit payload with `low_mask(w)` keeps its low `w` bits. */
  lemma LowMaskKeepsLowBits(v: nat, w: nat)
    requires v < Pow2(64)
    ensures BitAnd(v, LowMask(w)) == if w >= 64 then v else Wrap(v, w)
  {
    hide BitAnd;
    AndLowMask(v, if w >= 64 then 64 else w);
    WrapSmall(v, 64);
  }

  /** `SmtExpr::bv_const`: the payload is masked to the width. */
  function MkConst(v: nat, w: nat): Expr {
    BvConst(Wrap(v, w), w)
  }

  /** Shift amounts are masked to `width - 1` at the operand width. */
  function MaskShiftAmount(amount: Expr, w: nat): Expr
    requires w >= 1
  {
    Bin(BvAnd, amount, MkConst(w - 1, w))
  }

  /** The 1-bit CSET shape of a comparison. */
  function Cset(c: Cond): Expr {
    Ite(c, MkConst(1, 1), MkConst(0, 1))
  }

  /** Unsigned remainder as the encoders spell it. */
  function RemExpr(l: Expr, r: Expr): Expr {
    Bin(BvSub, l, Bin(BvMul, Bin(BvUDiv, l, r), r))
  }

  predicate MachineWidth(w: nat) {
    w == 1 || w == 8 || w == 16 || w == 32 || w == 64
  }

  /** At every modelled width, `amount & (width - 1)` is `amount mod width`, for amounts of
      any size. */
  lemma MaskedAmount(amount: nat, w: nat)
    requires MachineWidth(w)
    ensures w - 1 < Pow2(w) && BitAnd(amount, w - 1) == amount % w
  {
    var k := if w == 1 then 0 else if w == 8 then 3 else if w == 16 then 4 else if w == 32 then 5 else 6;
    assert Pow2(3) == 8 && Pow2(4) == 16 && Pow2(5) == 32 && Pow2(6) == 64;
    AndLowMask(amount, k);
    Pow2Exceeds(w);
  }

  lemma MaskShiftAmountValue(amount: Expr, w: nat, s: Valuation)
    requires MachineWidth(w)
    ensures Eval(MaskShiftAmount(amount, w), s) == Eval(amount, s) % w
  {
    hide BitAnd;
    var m := MkConst(w - 1, w);
    assert Eval(m, s) == w - 1 by {
      Pow2Exceeds(w);
      WrapSmall(w - 1, w);
    }
    assert Eval(Bin(BvAnd, amount, m), s) == EvalBin(BvAnd, Eval(amount, s), Eval(m, s), Width(amount));
    MaskedAmount(Eval(amount, s), w);
  }

  /** `a - (a udiv b) * b` is the remainder, and `a` itself when `b` is zero. */
  lemma RemExprValue(l: Expr, r: Expr, s: Valuation)
    requires Width(l) == Width(r) && Eval(l, s) < Pow2(Width(l))
    ensures Width(RemExpr(l, r)) == Width(l)
    ensures Eval(RemExpr(l, r), s) == if Eval(r, s) == 0 then Eval(l, s) else Eval(l, s) % Eval(r, s)
  {
    var a, b, w := Eval(l, s), Eval(r, s), Width(l);
    var q := Bin(BvUDiv, l, r);
    assert Eval(q, s) == EvalBin(BvUDiv, a, b, w) && Width(q) == w;
    assert Eval(Bin(BvMul, q, r), s) == EvalBin(BvMul, Eval(q, s), b, w);
    assert Eval(RemExpr(l, r), s) == EvalBin(BvSub, a, Eval(Bin(BvMul, q, r), s), w);
    RemValue(a, b, w);
  }

  lemma RemValue(a: nat, b: nat, w: nat)
    requires a < Pow2(w)
    ensures EvalBin(BvSub, a, EvalBin(BvMul, EvalBin(BvUDiv, a, b, w), b, w), w) == if b == 0 then a else a % b
  {
    WrapSmall(a, w);
    if b == 0 {
      WrapSmall(0, w);
    } else {
      DivRem(a, b);
      WrapSmall(a / b * b, w);
      WrapSmall(a % b, w);
    }
  }

  /** Sign-bit comparison is comparison of the signed readings. */
  lemma SignedRelations(a: nat, b: nat, w: nat)
    requires a < Pow2(w) && b < Pow2(w)
    ensures EvalRel(Slt, a, b, w) == (ToSigned(a, w) < ToSigned(b, w))
    ensures EvalRel(Sle, a, b, w) == (ToSigned(a, w) <= ToSigned(b, w))
    ensures EvalRel(Sgt, a, b, w) == (ToSigned(a, w) > ToSigned(b, w))
    ensures EvalRel(Sge, a, b, w) == (ToSigned(a, w) >= ToSigned(b, w))
  {
  }
}
