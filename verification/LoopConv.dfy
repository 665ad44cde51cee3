/** MIR statements of the header and chain converted for the verifier (`conv_statements`), and
    the proof that converting and then encoding computes what Rust computes. */
module LoopConv {
  import opened Wrappers
  import opened Bits
  import opened Smt
  import opened TrustIr
  import opened Mir
  import opened LoopVc
  import SymbolicFold

  // --- Conversion ------------------------------------------------------------------------

  function ConvBinOp(op: MirBinOp): Option<SpecBinOp> {
    match op
    case MAdd | MAddUnchecked => Some(SpecAdd)
    case MSub | MSubUnchecked => Some(SpecSub)
    case MMul | MMulUnchecked => Some(SpecMul)
    case MDiv => Some(SpecDiv)
    case MRem => Some(SpecRem)
    case MBitXor => Some(SpecXor)
    case MBitAnd => Some(SpecAnd)
    case MBitOr => Some(SpecOr)
    case MShl | MShlUnchecked => Some(SpecShl)
    case MShr | MShrUnchecked => Some(SpecShr)
    case MEq => Some(SpecEq)
    case MNe => Some(SpecNe)
    case MLt => Some(SpecLt)
    case MLe => Some(SpecLe)
    case MGt => Some(SpecGt)
    case MGe => Some(SpecGe)
    case MOtherBin => None
  }

  function ConvOperand(body: Body, o: Operand, readable: set<Local>): Option<SpecOperand> {
    match o
    case Read(Plain(l)) =>
      if l in readable && l in body.localTys then Some(SpecVar(Param(l), body.localTys[l])) else None
    case Read(Projected(_)) => None
    case Constant(ty, scalar) =>
      if ty.Some? && scalar.Some? then Some(SpecConst(Wrap(scalar.value, 64), ty.value)) else None
  }

  predicate IsDivRem(op: SpecBinOp) {
    op.SpecDiv? || op.SpecRem?
  }

  function ConvRvalue(body: Body, rv: Rvalue, readable: set<Local>): Option<SpecRvalue> {
    match rv
    case Use(o) =>
      var c := ConvOperand(body, o, readable);
      if c.Some? then Some(SpecUse(c.value)) else None
    case BinaryOp(op, l, r) =>
      var (sop, lty, rty) := (ConvBinOp(op), OperandTy(body, l), OperandTy(body, r));
      var (cl, cr) := (ConvOperand(body, l, readable), ConvOperand(body, r, readable));
      if sop.None? || lty.None? || rty.None? || cl.None? || cr.None? then None
      else if IsDivRem(sop.value) && lty.value.SInt? then None
      else if TyBits(lty.value) != TyBits(rty.value) then None
      else Some(SpecBinary(sop.value, lty.value, cl.value, cr.value))
    case UnaryOp(op, o) =>
      var (ty, c) := (OperandTy(body, o), ConvOperand(body, o, readable));
      if op.MOtherUn? || ty.None? || c.None? then None
      else Some(SpecUnary(if op.MNeg? then SpecNeg else SpecNot, ty.value, c.value))
    case IntToInt(o, target) =>
      var (ty, c) := (OperandTy(body, o), ConvOperand(body, o, readable));
      if ty.None? || target.None? || c.None? then None
      else Some(SpecCast(ty.value, target.value, c.value))
    case OtherRvalue => None
  }

  /** The statements converted so far, whether an unsigned Div/Rem was met, and the locals later
      statements may read. */
  datatype Conv = Conv(stmts: seq<SpecStmt>, hasDivRem: bool, readable: set<Local>)

  function ConvStep(body: Body, c: Conv, stmt: Statement): Option<Conv> {
    match stmt
    case Assign(Plain(dst), rv) =>
      var converted := ConvRvalue(body, rv, c.readable);
      if dst !in body.localTys || converted.None? then None
      else Some(Conv(c.stmts + [SpecStmt(Param(dst), converted.value)],
                     c.hasDivRem || (converted.value.SpecBinary? && IsDivRem(converted.value.op)),
                     c.readable + {dst}))
    case Bookkeeping => Some(c)
    case _ => None
  }

  function ConvAll(body: Body, c: Conv, stmts: seq<Statement>): Option<Conv>
    decreases stmts
  {
    if stmts == [] then Some(c)
    else match ConvStep(body, c, stmts[0])
      case None => None
      case Some(c') => ConvAll(body, c', stmts[1..])
  }

  function ConvBlocks(body: Body, c: Conv, blocks: seq<BasicBlock>): Option<Conv>
    requires InRange(body, blocks)
    decreases blocks
  {
    if blocks == [] then Some(c)
    else match ConvAll(body, c, body.blocks[blocks[0]].statements)
      case None => None
      case Some(c') => ConvBlocks(body, c', blocks[1..])
  }

  method ConvStatements(body: Body, blocks: seq<BasicBlock>, params: set<Local>) returns (r: Option<Conv>)
    requires InRange(body, blocks)
    ensures r == ConvBlocks(body, Conv([], false, params), blocks)
  {
    hide ConvStep;
    var c := Conv([], false, params);
    for i := 0 to |blocks|
      invariant ConvBlocks(body, Conv([], false, params), blocks) == ConvBlocks(body, c, blocks[i..])
    {
      ghost var before := c;
      var stmts := body.blocks[blocks[i]].statements;
      for j := 0 to |stmts|
        invariant ConvAll(body, before, stmts) == ConvAll(body, c, stmts[j..])
      {
        assert stmts[j..][1..] == stmts[j + 1..];
        var next := ConvStep(body, c, stmts[j]);
        if next.None? { return None; }
        c := next.value;
      }
      assert blocks[i..][1..] == blocks[i + 1..];
    }
    return Some(c);
  }

  // --- Encoders against Rust semantics ------------------------------------------------------

  lemma IntInjective(ty: ScalarTy, a: nat, b: nat)
    requires a < Pow2(TyBits(ty)) && b < Pow2(TyBits(ty))
    ensures AsInt(ty, a) == AsInt(ty, b) <==> a == b
  {
  }

  lemma RelationValue(op: MirBinOp, ty: ScalarTy, a: nat, b: nat)
    requires a < Pow2(TyBits(ty)) && b < Pow2(TyBits(ty)) && RustCompare(op, ty, a, b).Some?
    ensures ConvBinOp(op).Some?
    ensures if op.MNe? then RustCompare(op, ty, a, b).value == (a != b)
            else
              var rel := EncodeRel(ConvBinOp(op).value, ty.SInt?);
              rel.Some? && RustCompare(op, ty, a, b).value == EvalRel(rel.value, a, b, TyBits(ty))
  {
    hide Pow2;
    IntInjective(ty, a, b);
    SignedRelations(a, b, TyBits(ty));
  }

  lemma CompareSound(op: MirBinOp, ty: ScalarTy, l: Expr, r: Expr, s: Valuation, x: Value, y: Value)
    requires Denotes(l, s, x) && Denotes(r, s, y) && x.width == y.width == TyBits(ty)
    requires RustCompare(op, ty, x.bits, y.bits).Some?
    ensures ConvBinOp(op).Some? && EncodeBinary(ConvBinOp(op).value, ty, l, r).Some?
    ensures Denotes(EncodeBinary(ConvBinOp(op).value, ty, l, r).value, s,
                    BoolVal(RustCompare(op, ty, x.bits, y.bits).value))
  {
    hide Pow2, Cset, BoolVal, RemExpr, MaskShiftAmount, CoerceAmount, EvalRel;
    RelationValue(op, ty, x.bits, y.bits);
    if op.MNe? {
      assert EvalCond(Cmp(RelEq, l, r), s) == (x.bits == y.bits) by { EqValue(l, r, s); }
      SymbolicFold.CsetSound(Not(Cmp(RelEq, l, r)), s);
    } else {
      var c := Cmp(EncodeRel(ConvBinOp(op).value, ty.SInt?).value, l, r);
      SymbolicFold.CsetSound(c, s);
    }
  }

  lemma EqValue(l: Expr, r: Expr, s: Valuation)
    ensures EvalCond(Cmp(RelEq, l, r), s) == (Eval(l, s) == Eval(r, s))
  {
  }

  lemma ArithSound(op: MirBinOp, ty: ScalarTy, a: nat, b: nat)
    requires a < Pow2(TyBits(ty)) && b < Pow2(TyBits(ty))
    requires RustBin(op, ty, a, b).Some?
    ensures var w := TyBits(ty); var v := RustBin(op, ty, a, b).value;
            match op
            case MAdd | MAddUnchecked => v == EvalBin(BvAdd, a, b, w)
            case MSub | MSubUnchecked => v == EvalBin(BvSub, a, b, w)
            case MMul | MMulUnchecked => v == EvalBin(BvMul, a, b, w)
            case MDiv => v == EvalBin(BvUDiv, a, b, w)
            case MShr | MShrUnchecked =>
              v == EvalBin(if ty.SInt? then BvAShr else BvLShr, a, b % w, w)
            case _ => true
  {
    hide Wrap, Pow2, BitAnd, BitOr, BitXor, ShiftLeft, ShiftRight, ShiftRightArith, ToSigned;
    var w := TyBits(ty);
    match op {
      case MAdd | MAddUnchecked => SignedArith(a, b, w);
      case MSub | MSubUnchecked => SignedArith(a, b, w);
      case MMul | MMulUnchecked => SignedArith(a, b, w);
      case MDiv => if b > 0 { DivRem(a, b); WrapSmall(a / b, w); }
      case MShr | MShrUnchecked => ShiftRightSound(ty, a, b % w);
      case _ =>
    }
  }

  lemma ShiftRightSound(ty: ScalarTy, a: nat, k: nat)
    requires a < Pow2(TyBits(ty))
    ensures Wrap(AsInt(ty, a) / Pow2(k), TyBits(ty)) ==
            EvalBin(if ty.SInt? then BvAShr else BvLShr, a, k, TyBits(ty))
  {
    var w := TyBits(ty);
    if ty.SInt? {
      WrapSmall(a, w);
      ShiftRightArithFloors(a, k, w);
    } else {
      DivRem(a, Pow2(k));
      WrapSmall(a / Pow2(k), w);
    }
  }

  lemma BinaryValue(op: MirBinOp, ty: ScalarTy, l: Expr, r: Expr, s: Valuation, x: Value, y: Value)
    requires Denotes(l, s, x) && Denotes(r, s, y) && x.width == y.width == TyBits(ty)
    requires RustBin(op, ty, x.bits, y.bits).Some?
    ensures EncodeBinary(ConvBinOp(op).value, ty, l, r).Some?
    ensures var e := EncodeBinary(ConvBinOp(op).value, ty, l, r).value;
            Width(e) == x.width && Eval(e, s) == RustBin(op, ty, x.bits, y.bits).value
  {
    hide BitAnd, BitOr, BitXor, Wrap, Pow2, ShiftLeft, ShiftRight, ShiftRightArith, ToSigned, Eval, Width,
        MaskShiftAmount, RemExpr;
    var w := TyBits(ty);
    var amount := MaskShiftAmount(r, w);
    MaskShiftAmountValue(r, w, s);
    ArithSound(op, ty, x.bits, y.bits);
    match op {
      case MAdd | MAddUnchecked => BinEval(BvAdd, l, r, s);
      case MSub | MSubUnchecked => BinEval(BvSub, l, r, s);
      case MMul | MMulUnchecked => BinEval(BvMul, l, r, s);
      case MDiv => BinEval(BvUDiv, l, r, s);
      case MRem => RemExprValue(l, r, s);
      case MBitXor => BinEval(BvXor, l, r, s);
      case MBitAnd => BinEval(BvAnd, l, r, s);
      case MBitOr => BinEval(BvOr, l, r, s);
      case MShl | MShlUnchecked => BinEval(BvShl, l, amount, s);
      case MShr | MShrUnchecked => BinEval(if ty.SInt? then BvAShr else BvLShr, l, amount, s);
    }
  }

  lemma BinarySound(op: MirBinOp, ty: ScalarTy, l: Expr, r: Expr, s: Valuation, x: Value, y: Value)
    requires Denotes(l, s, x) && Denotes(r, s, y) && x.width == y.width == TyBits(ty)
    requires ConvBinOp(op).Some? && !(IsDivRem(ConvBinOp(op).value) && ty.SInt?)
    ensures EncodeBinary(ConvBinOp(op).value, ty, l, r).Some? && EvalBinary(op, ty, x, y).Computes?
    ensures Denotes(EncodeBinary(ConvBinOp(op).value, ty, l, r).value, s, EvalBinary(op, ty, x, y).v)
  {
    hide BitAnd, BitOr, BitXor, Wrap, Pow2, ShiftLeft, ShiftRight, ShiftRightArith, ToSigned, Eval, Width,
        MaskShiftAmount, RemExpr;
    if RustCompare(op, ty, x.bits, y.bits).Some? {
      CompareSound(op, ty, l, r, s, x, y);
    } else {
      BinaryValue(op, ty, l, r, s, x, y);
    }
  }

  lemma UnarySound(op: MirUnOp, ty: ScalarTy, o: Expr, s: Valuation, x: Value)
    requires Denotes(o, s, x) && x.width == TyBits(ty) && !op.MOtherUn?
    ensures Denotes(EncodeUnary(if op.MNeg? then SpecNeg else SpecNot, ty, o), s, EvalUnary(op, ty, x).v)
  {
    hide BitXor, Wrap, Pow2, Cset, BoolVal, ToSigned;
    var w := TyBits(ty);
    SignedArith(x.bits, x.bits, w);
    if op.MNot? {
      if ty.MirBool? {
        WrapSmall(0, 1);
        EqValue(o, MkConst(0, 1), s);
        assert Eval(MkConst(0, 1), s) == 0;
        SymbolicFold.CsetSound(Cmp(RelEq, o, MkConst(0, 1)), s);
      } else {
        SymbolicFold.NotSound(o, w, s, x);
        WrapNegative(-1 - x.bits, w);
      }
    }
  }

  lemma CastSound(src: ScalarTy, dst: ScalarTy, o: Expr, s: Valuation, x: Value)
    requires Denotes(o, s, x) && x.width == TyBits(src)
    ensures Denotes(EncodeCast(src, dst, o), s, EvalIntCast(src, dst, x).v)
  {
    hide Wrap, Pow2, ToSigned;
    var (sw, dw) := (TyBits(src), TyBits(dst));
    var a := x.bits;
    if dw >= sw {
      Pow2Mono(sw, dw);
      if src.SInt? {
        if dw == sw { WrapSigned(a, sw); } else { SignFillValue(a, sw, dw - sw); }
      } else {
        WrapSmall(a, dw);
      }
    } else {
      assert ShiftRight(a, 0) == a by { ShiftZero(a); }
      if src.SInt? {
        WrapSigned(a, sw);
        WrapWrap(ToSigned(a, sw), sw, dw);
      }
    }
  }

  lemma ShiftZero(a: nat)
    ensures ShiftRight(a, 0) == a
  {
  }

  // --- Conversion followed by encoding ---------------------------------------------------------

  /** Every readable local holds what the symbolic store says, with header params as free names. */
  ghost predicate StoreAgrees(body: Body, c: Conv, store: Store, s: Valuation) {
    && EncodeStore(c.stmts).Some?
    && WellTyped(body, store)
    && forall l :: l in c.readable && l in body.localTys ==>
         l in store && Denotes(Resolve(EncodeStore(c.stmts).value, SpecVar(Param(l), body.localTys[l])), s, store[l])
  }

  lemma OperandSound(body: Body, c: Conv, store: Store, s: Valuation, o: Operand)
    requires StoreAgrees(body, c, store, s) && ConvOperand(body, o, c.readable).Some?
    ensures EvalOperand(body, store, o).Computes?
    ensures Denotes(Resolve(EncodeStore(c.stmts).value, ConvOperand(body, o, c.readable).value), s,
        EvalOperand(body, store, o).v)
    ensures OperandTy(body, o).Some? && EvalOperand(body, store, o).v.width == TyBits(OperandTy(body, o).value)
  {
    hide EncodeStore, Pow2;
    if o.Constant? {
      var w := TyBits(o.ty.value);
      WrapWrap(o.scalar.value, 64, w);
      WrapSmall(Wrap(o.scalar.value, w), w);
    }
  }

  /** The converted and encoded right-hand side denotes what Rust computes for it. */
  ghost predicate RvalueAgrees(body: Body, c: Conv, store: Store, s: Valuation, rv: Rvalue)
    requires EncodeStore(c.stmts).Some? && ConvRvalue(body, rv, c.readable).Some?
  {
    var e := EncodeRvalue(EncodeStore(c.stmts).value, ConvRvalue(body, rv, c.readable).value);
    e.Some? && EvalRvalue(body, store, rv).Computes? && Denotes(e.value, s, EvalRvalue(body, store, rv).v)
  }

  lemma RvalueSound(body: Body, c: Conv, store: Store, s: Valuation, rv: Rvalue)
    requires StoreAgrees(body, c, store, s) && ConvRvalue(body, rv, c.readable).Some?
    ensures RvalueAgrees(body, c, store, s, rv)
  {
    match rv {
      case Use(o) => OperandSound(body, c, store, s, o);
      case BinaryOp(op, l, r) => BinaryRvalueSound(body, c, store, s, op, l, r);
      case UnaryOp(op, o) => UnaryRvalueSound(body, c, store, s, op, o);
      case IntToInt(o, target) => CastRvalueSound(body, c, store, s, o, target);
    }
  }

  lemma BinaryRvalueSound(body: Body, c: Conv, store: Store, s: Valuation, op: MirBinOp, l: Operand, r: Operand)
    requires StoreAgrees(body, c, store, s) && ConvRvalue(body, BinaryOp(op, l, r), c.readable).Some?
    ensures RvalueAgrees(body, c, store, s, BinaryOp(op, l, r))
  {
    hide EncodeStore, Denotes, EncodeBinary, EvalBinary, EvalOperand, Resolve, ConvOperand, ConvBinOp, OperandTy;
    var sym := EncodeStore(c.stmts).value;
    hide StoreAgrees;
    OperandSound(body, c, store, s, l);
    OperandSound(body, c, store, s, r);
    var (ty, x, y) := (OperandTy(body, l).value, EvalOperand(body, store, l).v, EvalOperand(body, store, r).v);
    BinarySound(op, ty, Resolve(sym, ConvOperand(body, l, c.readable).value),
                Resolve(sym, ConvOperand(body, r, c.readable).value), s, x, y);
    assert EvalRvalue(body, store, BinaryOp(op, l, r)) == EvalBinary(op, ty, x, y);
  }

  lemma UnaryRvalueSound(body: Body, c: Conv, store: Store, s: Valuation, op: MirUnOp, o: Operand)
    requires StoreAgrees(body, c, store, s) && ConvRvalue(body, UnaryOp(op, o), c.readable).Some?
    ensures RvalueAgrees(body, c, store, s, UnaryOp(op, o))
  {
    hide EncodeStore, Denotes, EncodeUnary, EvalUnary, EvalOperand, Resolve, ConvOperand, OperandTy, Width, Pow2,
        TyBits;
    var sym := EncodeStore(c.stmts).value;
    hide StoreAgrees;
    OperandSound(body, c, store, s, o);
    var (ty, e, x) := (OperandTy(body, o).value, Resolve(sym, ConvOperand(body, o, c.readable).value),
        EvalOperand(body, store, o).v);
    UnaryComputes(op, ty, x);
    UnarySound(op, ty, e, s, x);
    assert EvalRvalue(body, store, UnaryOp(op, o)) == EvalUnary(op, ty, x);
  }

  lemma CastRvalueSound(body: Body, c: Conv, store: Store, s: Valuation, o: Operand, target: Option<ScalarTy>)
    requires StoreAgrees(body, c, store, s) && ConvRvalue(body, IntToInt(o, target), c.readable).Some?
    ensures RvalueAgrees(body, c, store, s, IntToInt(o, target))
  {
    hide EncodeStore, Denotes, EncodeCast, EvalIntCast, EvalOperand, Resolve, ConvOperand, OperandTy, Width, Pow2,
        TyBits;
    var sym := EncodeStore(c.stmts).value;
    hide StoreAgrees;
    OperandSound(body, c, store, s, o);
    var (ty, e, x) := (OperandTy(body, o).value, Resolve(sym, ConvOperand(body, o, c.readable).value),
        EvalOperand(body, store, o).v);
    CastComputes(ty, target.value, x);
    CastSound(ty, target.value, e, s, x);
    assert EvalRvalue(body, store, IntToInt(o, target)) == EvalIntCast(ty, target.value, x);
  }

  lemma UnaryComputes(op: MirUnOp, ty: ScalarTy, x: Value)
    requires x.width == TyBits(ty) && !op.MOtherUn?
    ensures EvalUnary(op, ty, x).Computes?
  {
  }

  lemma CastComputes(src: ScalarTy, dst: ScalarTy, x: Value)
    requires x.width == TyBits(src)
    ensures EvalIntCast(src, dst, x).Computes?
  {
  }

  lemma ConvStepSound(body: Body, c: Conv, stmt: Statement, store: Store, store': Store, s: Valuation)
    requires StoreAgrees(body, c, store, s) && StmtStep(body, store, stmt, store') && ConvStep(body, c, stmt).Some?
    ensures StoreAgrees(body, ConvStep(body, c, stmt).value, store', s)
  {
    hide Denotes, EvalRvalue, ConvRvalue, EncodeRvalue;
    if stmt.Assign? {
      RvalueSound(body, c, store, s, stmt.rvalue);
      var c' := ConvStep(body, c, stmt).value;
      assert c'.stmts[..|c'.stmts| - 1] == c.stmts;
    }
  }

  lemma {:induction false} ConvAllSound(body: Body, c: Conv, stmts: seq<Statement>, store: Store, store': Store,
      s: Valuation)
    requires StoreAgrees(body, c, store, s) && StmtsStep(body, store, stmts, store') && ConvAll(body, c, stmts).Some?
    ensures StoreAgrees(body, ConvAll(body, c, stmts).value, store', s)
    decreases stmts
  {
    hide StoreAgrees, StmtStep, ConvStep;
    if stmts != [] {
      var mid: Store :| StmtStep(body, store, stmts[0], mid) && StmtsStep(body, mid, stmts[1..], store');
      ConvStepSound(body, c, stmts[0], store, mid, s);
      ConvAllSound(body, ConvStep(body, c, stmts[0]).value, stmts[1..], mid, store', s);
    }
  }

  /** Blocks that end in a jump, a switch or an assertion leave the store as their statements
      left it. */
  predicate NoTerminatorWrites(body: Body, b: BasicBlock)
    requires b < |body.blocks|
  {
    !body.blocks[b].terminator.Effect?
  }

  /** Conversion of a whole chain: after any MIR execution of the blocks, each readable local
      holds what the encoded store denotes. */
  lemma {:induction false} ConvBlocksSound(body: Body, c: Conv, blocks: seq<BasicBlock>, seg: seq<MirState>,
      s: Valuation)
    requires |seg| == |blocks| + 1
    requires forall i :: 0 <= i < |blocks| ==> seg[i].block == blocks[i] && MirStep(body, seg[i], seg[i + 1])
    requires InRange(body, blocks) && forall i :: 0 <= i < |blocks| ==> NoTerminatorWrites(body, blocks[i])
    requires StoreAgrees(body, c, seg[0].store, s) && ConvBlocks(body, c, blocks).Some?
    ensures StoreAgrees(body, ConvBlocks(body, c, blocks).value, seg[|blocks|].store, s)
    decreases blocks
  {
    hide StoreAgrees, ConvAll, StmtsStep;
    if blocks != [] {
      assert seg[0].block == blocks[0] && MirStep(body, seg[0], seg[1]);
      var data := body.blocks[blocks[0]];
      var mid: Store :| StmtsStep(body, seg[0].store, data.statements, mid) &&
                        TermStep(body, mid, data.terminator, seg[1].block, seg[1].store);
      ConvAllSound(body, c, data.statements, seg[0].store, mid, s);
      assert mid == seg[1].store;
      ConvBlocksSound(body, ConvAll(body, c, data.statements).value, blocks[1..], seg[1..], s);
    }
  }

  // --- Closure --------------------------------------------------------------------------------

  /** The free names of a fully resolved local: header params only. */
  ghost predicate ReadsOnlyParams(body: Body, c: Conv, params: set<Local>) {
    && params <= c.readable
    && (EncodeStore(c.stmts).Some? ==>
          && (forall l :: l in c.readable && l !in params ==> Param(l) in EncodeStore(c.stmts).value)
          && (forall n :: n in EncodeStore(c.stmts).value ==> OverParams(body, EncodeStore(c.stmts).value[n], params)))
  }

  ghost predicate OverParams(body: Body, e: Expr, params: set<Local>) {
    forall v :: v in Vars(e) ==>
      v.0.Param? && v.0.local in params && v.0.local in body.localTys && v.1 == TyBits(body.localTys[v.0.local])
  }

  lemma ConvOperandClosed(body: Body, c: Conv, params: set<Local>, o: Operand)
    requires ReadsOnlyParams(body, c, params) && EncodeStore(c.stmts).Some? && ConvOperand(body, o, c.readable).Some?
    ensures OverParams(body, Resolve(EncodeStore(c.stmts).value, ConvOperand(body, o, c.readable).value), params)
  {
    hide EncodeStore;
  }

  lemma ConvStepClosed(body: Body, c: Conv, stmt: Statement, params: set<Local>)
    requires ReadsOnlyParams(body, c, params) && ConvStep(body, c, stmt).Some?
    ensures ReadsOnlyParams(body, ConvStep(body, c, stmt).value, params)
  {
    hide ReadsOnlyParams, OverParams;
    if stmt.Assign? {
      var c' := ConvStep(body, c, stmt).value;
      assert c'.stmts[..|c'.stmts| - 1] == c.stmts;
      if EncodeStore(c'.stmts).Some? {
        RvalueClosed(body, c, params, stmt.rvalue);
      }
      ExtendClosed(body, c, c', params);
    }
  }

  lemma ExtendClosed(body: Body, c: Conv, c': Conv, params: set<Local>)
    requires ReadsOnlyParams(body, c, params) && |c'.stmts| > 0 && c'.stmts[..|c'.stmts| - 1] == c.stmts
    requires var last := c'.stmts[|c.stmts|]; last.dst.Param? && c'.readable == c.readable + {last.dst.local}
    requires EncodeStore(c'.stmts).Some? ==>
               OverParams(body, EncodeRvalue(EncodeStore(c.stmts).value, c'.stmts[|c.stmts|].rvalue).value, params)
    ensures ReadsOnlyParams(body, c', params)
  {
    hide OverParams, EncodeRvalue;
  }

  lemma RvalueClosed(body: Body, c: Conv, params: set<Local>, rv: Rvalue)
    requires ReadsOnlyParams(body, c, params) && EncodeStore(c.stmts).Some? && ConvRvalue(body, rv, c.readable).Some?
    requires EncodeRvalue(EncodeStore(c.stmts).value, ConvRvalue(body, rv, c.readable).value).Some?
    ensures OverParams(body, EncodeRvalue(EncodeStore(c.stmts).value, ConvRvalue(body, rv, c.readable).value).value,
        params)
  {
    hide ReadsOnlyParams, EncodeStore, ConvOperand, Resolve;
    var sym := EncodeStore(c.stmts).value;
    match rv {
      case Use(o) => ConvOperandClosed(body, c, params, o);
      case BinaryOp(op, l, r) =>
        ConvOperandClosed(body, c, params, l);
        ConvOperandClosed(body, c, params, r);
        BinaryVars(ConvBinOp(op).value, OperandTy(body, l).value,
                   Resolve(sym, ConvOperand(body, l, c.readable).value),
                       Resolve(sym, ConvOperand(body, r, c.readable).value));
      case UnaryOp(op, o) =>
        ConvOperandClosed(body, c, params, o);
        UnaryVars(if op.MNeg? then SpecNeg else SpecNot, OperandTy(body, o).value,
            Resolve(sym, ConvOperand(body, o, c.readable).value));
      case IntToInt(o, _) => ConvOperandClosed(body, c, params, o);
    }
  }

  /** Encoding a binary operator introduces no names. */
  lemma BinaryVars(op: SpecBinOp, ty: ScalarTy, l: Expr, r: Expr)
    requires EncodeBinary(op, ty, l, r).Some?
    ensures Vars(EncodeBinary(op, ty, l, r).value) == Vars(l) + Vars(r)
  {
    hide Wrap, Pow2;
    if EncodeBinary(op, ty, l, r).value.Ite? {
      CsetVars(EncodeBinary(op, ty, l, r).value.cond);
    } else {
      AmountVars(r, TyBits(ty));
      assert Vars(Bin(BvMul, Bin(BvUDiv, l, r), r)) == Vars(l) + Vars(r);
      var e := EncodeBinary(op, ty, l, r).value;
      assert Vars(e) == Vars(e.lhs) + Vars(e.rhs);
    }
  }

  lemma CsetVars(c: Cond)
    ensures Vars(Cset(c)) == VarsCond(c)
    ensures c.Not? ==> VarsCond(c) == VarsCond(c.c)
  {
  }

  lemma AmountVars(r: Expr, w: nat)
    requires w > 0
    ensures Vars(MaskShiftAmount(CoerceAmount(r, w), w)) == Vars(r)
  {
    assert Vars(CoerceAmount(r, w)) == Vars(r);
  }

  lemma UnaryVars(op: SpecUnOp, ty: ScalarTy, o: Expr)
    ensures Vars(EncodeUnary(op, ty, o)) == Vars(o)
  {
    assert VarsCond(Cmp(RelEq, o, MkConst(0, 1))) == Vars(o);
  }

  lemma {:induction false} ConvAllClosed(body: Body, c: Conv, stmts: seq<Statement>, params: set<Local>)
    requires ReadsOnlyParams(body, c, params) && ConvAll(body, c, stmts).Some?
    ensures ReadsOnlyParams(body, ConvAll(body, c, stmts).value, params)
    decreases stmts
  {
    hide ReadsOnlyParams, ConvStep;
    if stmts != [] {
      ConvStepClosed(body, c, stmts[0], params);
      ConvAllClosed(body, ConvStep(body, c, stmts[0]).value, stmts[1..], params);
    }
  }

  /** Everything the converted chain computes is a function of the header params alone. */
  lemma {:induction false} ConvBlocksClosed(body: Body, c: Conv, blocks: seq<BasicBlock>, params: set<Local>)
    requires InRange(body, blocks)
    requires ReadsOnlyParams(body, c, params) && ConvBlocks(body, c, blocks).Some?
    ensures ReadsOnlyParams(body, ConvBlocks(body, c, blocks).value, params)
    decreases blocks
  {
    hide ReadsOnlyParams, ConvAll;
    if blocks != [] {
      ConvAllClosed(body, c, body.blocks[blocks[0]].statements, params);
      ConvBlocksClosed(body, ConvAll(body, c, body.blocks[blocks[0]].statements).value, blocks[1..], params);
    }
  }
}
