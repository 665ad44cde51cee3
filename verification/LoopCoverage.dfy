/** When the MIR side must answer, and so when a loop is checked at all: an if and only if for every
    partial step of the loop model, ending in one for the obligation of a header. */
module LoopCoverage {
  import opened Wrappers
  import opened Bits
  import opened Smt
  import opened TrustIr
  import opened SymbolicFold
  import opened EntryEdge
  import opened Mir
  import opened LoopVc
  import opened LoopConv
  import opened MirAnalysis
  import opened LoopModel
  import opened Bridge
  import opened WholeRun
  import opened Discharge
  import opened FoldCoverage

  // --- Statements ---------------------------------------------------------------------------------------

  /** A store that holds exactly the readable scalar locals, at their widths. */
  ghost predicate HoldsReadable(body: Body, readable: set<Local>, store: Store) {
    WellTyped(body, store) && store.Keys == readable * body.localTys.Keys
  }

  lemma OperandIff(body: Body, o: Operand, readable: set<Local>, store: Store)
    requires HoldsReadable(body, readable, store)
    ensures ConvOperand(body, o, readable).Some? <==> EvalOperand(body, store, o).Computes?
    ensures EvalOperand(body, store, o).Computes? ==>
              OperandTy(body, o).Some? && EvalOperand(body, store, o).v.width == TyBits(OperandTy(body, o).value)
  {
    hide Wrap, Pow2;
  }

  lemma BinOpIff(op: MirBinOp, ty: ScalarTy, a: nat, b: nat)
    ensures ConvBinOp(op).Some? && !(IsDivRem(ConvBinOp(op).value) && ty.SInt?) <==>
            RustCompare(op, ty, a, b).Some? || RustBin(op, ty, a, b).Some?
  {
    hide Wrap, Pow2, BitAnd, BitOr, BitXor, ShiftLeft, ToSigned;
  }

  /** A right-hand side is converted if and only if Rust defines it on a store that holds exactly the
      readable locals, whatever the values are. */
  lemma RvalueIff(body: Body, rv: Rvalue, readable: set<Local>, store: Store)
    requires HoldsReadable(body, readable, store)
    ensures ConvRvalue(body, rv, readable).Some? <==> EvalRvalue(body, store, rv).Computes?
  {
    hide HoldsReadable, ConvOperand, EvalOperand, Wrap, Pow2, RustBin, RustCompare, ConvBinOp, OperandTy, BoolVal;
    match rv {
      case Use(o) => OperandIff(body, o, readable, store);
      case BinaryOp(op, l, r) =>
        OperandIff(body, l, readable, store);
        OperandIff(body, r, readable, store);
        if EvalOperand(body, store, l).Computes? && EvalOperand(body, store, r).Computes? {
          BinOpIff(op, OperandTy(body, l).value, EvalOperand(body, store, l).v.bits,
                   EvalOperand(body, store, r).v.bits);
        }
      case UnaryOp(_, o) => OperandIff(body, o, readable, store);
      case IntToInt(o, _) => OperandIff(body, o, readable, store);
      case OtherRvalue =>
    }
  }

  function ZeroStore(body: Body, readable: set<Local>): Store {
    map l | l in readable * body.localTys.Keys ::
      (Pow2Exceeds(TyBits(body.localTys[l])); Val(0, TyBits(body.localTys[l])))
  }

  /** Bookkeeping, or a plain scalar local assigned what Rust defines from the readable locals. */
  ghost predicate Convertible(body: Body, readable: set<Local>, stmt: Statement) {
    stmt.Bookkeeping? ||
    (stmt.Assign? && stmt.place.Plain? && stmt.place.local in body.localTys &&
     EvalRvalue(body, ZeroStore(body, readable), stmt.rvalue).Computes?)
  }

  function Written(stmt: Statement): set<Local> {
    if stmt.Assign? then {stmt.place.local} else {}
  }

  ghost predicate AllConvertible(body: Body, readable: set<Local>, stmts: seq<Statement>)
    decreases stmts
  {
    stmts == [] ||
    (Convertible(body, readable, stmts[0]) && AllConvertible(body, readable + Written(stmts[0]), stmts[1..]))
  }

  /** The statements of the blocks, one block after the other. */
  function StatementsOf(body: Body, blocks: seq<BasicBlock>): seq<Statement>
    requires InRange(body, blocks)
  {
    if blocks == [] then [] else body.blocks[blocks[0]].statements + StatementsOf(body, blocks[1..])
  }

  predicate MirDivides(stmt: Statement) {
    stmt.Assign? && stmt.rvalue.BinaryOp? && (stmt.rvalue.op.MDiv? || stmt.rvalue.op.MRem?)
  }

  ghost predicate SomeDivides(stmts: seq<Statement>) {
    exists s <- stmts :: MirDivides(s)
  }

  lemma ConvStepIff(body: Body, c: Conv, stmt: Statement)
    ensures ConvStep(body, c, stmt).Some? <==> Convertible(body, c.readable, stmt)
    ensures ConvStep(body, c, stmt).Some? ==>
              var c' := ConvStep(body, c, stmt).value;
              c'.readable == c.readable + Written(stmt) && (c'.hasDivRem <==> c.hasDivRem || MirDivides(stmt))
  {
    hide ConvOperand, EvalRvalue, OperandTy, ZeroStore;
    if stmt.Assign? && stmt.place.Plain? {
      ZeroStoreHolds(body, c.readable);
      RvalueIff(body, stmt.rvalue, c.readable, ZeroStore(body, c.readable));
    }
  }

  lemma ZeroStoreHolds(body: Body, readable: set<Local>)
    ensures HoldsReadable(body, readable, ZeroStore(body, readable))
  {
  }

  lemma {:induction false} ConvAllIff(body: Body, c: Conv, stmts: seq<Statement>)
    ensures ConvAll(body, c, stmts).Some? <==> AllConvertible(body, c.readable, stmts)
    ensures ConvAll(body, c, stmts).Some? ==>
              (ConvAll(body, c, stmts).value.hasDivRem <==> c.hasDivRem || SomeDivides(stmts))
    decreases stmts
  {
    hide ConvStep, Convertible, Written, MirDivides;
    if stmts != [] {
      ConvStepIff(body, c, stmts[0]);
      if ConvStep(body, c, stmts[0]).Some? {
        ConvAllIff(body, ConvStep(body, c, stmts[0]).value, stmts[1..]);
        DividesStep(stmts);
      }
    }
  }

  lemma DividesStep(stmts: seq<Statement>)
    requires stmts != []
    ensures SomeDivides(stmts) <==> MirDivides(stmts[0]) || SomeDivides(stmts[1..])
  {
    hide MirDivides;
    assert stmts == [stmts[0]] + stmts[1..];
  }

  lemma {:induction false} ConvAllSplit(body: Body, c: Conv, a: seq<Statement>, b: seq<Statement>)
    ensures ConvAll(body, c, a + b) ==
            if ConvAll(body, c, a).None? then None else ConvAll(body, ConvAll(body, c, a).value, b)
    decreases a
  {
    hide ConvStep;
    if a == [] {
      assert a + b == b;
    } else {
      assert (a + b)[1..] == a[1..] + b;
      if ConvStep(body, c, a[0]).Some? { ConvAllSplit(body, ConvStep(body, c, a[0]).value, a[1..], b); }
    }
  }

  /** Blocks are converted as their statements in a row. */
  lemma {:induction false} ConvBlocksFlat(body: Body, c: Conv, blocks: seq<BasicBlock>)
    requires InRange(body, blocks)
    ensures ConvBlocks(body, c, blocks) == ConvAll(body, c, StatementsOf(body, blocks))
    decreases blocks
  {
    hide ConvStep;
    if blocks != [] {
      var first := body.blocks[blocks[0]].statements;
      ConvAllSplit(body, c, first, StatementsOf(body, blocks[1..]));
      if ConvAll(body, c, first).Some? { ConvBlocksFlat(body, ConvAll(body, c, first).value, blocks[1..]); }
    }
  }

  /** The statements of header and chain are converted if and only if each is convertible given the
      params and the locals written before it; a division is noted if and only if there is one. */
  lemma ConvBlocksIff(body: Body, params: set<Local>, blocks: seq<BasicBlock>)
    requires InRange(body, blocks)
    ensures var (r, stmts) := (ConvBlocks(body, Conv([], false, params), blocks), StatementsOf(body, blocks));
            && (r.Some? <==> AllConvertible(body, params, stmts))
            && (r.Some? ==> (r.value.hasDivRem <==> SomeDivides(stmts)))
  {
    hide ConvAll, AllConvertible, SomeDivides, StatementsOf;
    ConvBlocksFlat(body, Conv([], false, params), blocks);
    ConvAllIff(body, Conv([], false, params), StatementsOf(body, blocks));
  }

  // --- Copies, backwards ----------------------------------------------------------------------------------

  /** Where `n` plain copies lead, backwards from statement `idx`. */
  function Follow(stmts: seq<Statement>, idx: nat, local: Local, n: nat): (r: Option<(nat, Local)>)
    requires idx <= |stmts|
    ensures r.Some? ==> r.value.0 <= idx
    decreases n
  {
    if n == 0 then Some((idx, local))
    else match LastWriter(stmts, idx, local)
      case None => None
      case Some(i) =>
        var rv := stmts[i].rvalue;
        if rv.Use? && OperandLocal(rv.operand).Some? then Follow(stmts, i, OperandLocal(rv.operand).value, n - 1)
        else None
  }

  /** What a local that is not a copy holds at the end of the preheader. */
  function EntryOrigin(body: Body, stmts: seq<Statement>, idx: nat, local: Local, atStart: bool): Option<SpecOperand>
    requires idx <= |stmts|
  {
    var w := LastWriter(stmts, idx, local);
    if w.None? then
      if atStart && IsEntryArg(body, local) && local in body.localTys
      then Some(SpecVar(EntryArg(local), body.localTys[local])) else None
    else
      match stmts[w.value].rvalue
      case Use(Constant(Some(ty), Some(v))) => Some(SpecConst(Wrap(v, 64), ty))
      case _ => None
  }

  ghost predicate FromOrigin(body: Body, stmts: seq<Statement>, idx: nat, local: Local, atStart: bool, n: nat,
                             o: SpecOperand)
    requires idx <= |stmts|
  {
    var at := Follow(stmts, idx, local, n);
    at.Some? && EntryOrigin(body, stmts, at.value.0, at.value.1, atStart) == Some(o)
  }

  ghost predicate HasOrigin(body: Body, stmts: seq<Statement>, idx: nat, local: Local, atStart: bool, o: SpecOperand)
    requires idx <= |stmts|
  {
    exists n: nat :: FromOrigin(body, stmts, idx, local, atStart, n, o)
  }

  /** The scan answers if and only if some number of copies leads to an origin. */
  lemma {:induction false} ScanEntryExact(body: Body, stmts: seq<Statement>, idx: nat, local: Local, atStart: bool,
                                          o: SpecOperand)
    requires idx <= |stmts|
    ensures ScanEntry(body, stmts, idx, local, atStart) == Some(o) <==> HasOrigin(body, stmts, idx, local, atStart, o)
    decreases idx
  {
    hide Wrap, LastWriter, HasOrigin;
    var w := LastWriter(stmts, idx, local);
    if w.Some? && stmts[w.value].rvalue.Use? && OperandLocal(stmts[w.value].rvalue.operand).Some? {
      var l := OperandLocal(stmts[w.value].rvalue.operand).value;
      ScanEntryExact(body, stmts, w.value, l, atStart, o);
      OriginMoves(body, stmts, idx, local, atStart, w.value, l, o);
    } else {
      OriginHere(body, stmts, idx, local, atStart, o);
    }
  }

  lemma OriginMoves(body: Body, stmts: seq<Statement>, idx: nat, local: Local, atStart: bool, i: nat, l: Local,
                    o: SpecOperand)
    requires idx <= |stmts| && LastWriter(stmts, idx, local) == Some(i)
    requires stmts[i].rvalue.Use? && OperandLocal(stmts[i].rvalue.operand) == Some(l)
    ensures HasOrigin(body, stmts, idx, local, atStart, o) <==> HasOrigin(body, stmts, i, l, atStart, o)
  {
    hide LastWriter, Wrap;
    if n: nat :| FromOrigin(body, stmts, idx, local, atStart, n, o) {
      assert n > 0;
      assert Follow(stmts, idx, local, n) == Follow(stmts, i, l, n - 1);
      assert FromOrigin(body, stmts, i, l, atStart, n - 1, o);
    }
    if n: nat :| FromOrigin(body, stmts, i, l, atStart, n, o) {
      assert Follow(stmts, idx, local, n + 1) == Follow(stmts, i, l, n);
      assert FromOrigin(body, stmts, idx, local, atStart, n + 1, o);
    }
  }

  lemma OriginHere(body: Body, stmts: seq<Statement>, idx: nat, local: Local, atStart: bool, o: SpecOperand)
    requires idx <= |stmts|
    requires var w := LastWriter(stmts, idx, local);
             w.None? || !stmts[w.value].rvalue.Use? || OperandLocal(stmts[w.value].rvalue.operand).None?
    ensures HasOrigin(body, stmts, idx, local, atStart, o) <==> EntryOrigin(body, stmts, idx, local, atStart) == Some(o)
  {
    hide LastWriter, EntryOrigin;
    assert FromOrigin(body, stmts, idx, local, atStart, 0, o) <==>
           EntryOrigin(body, stmts, idx, local, atStart) == Some(o);
    forall n: nat | n > 0 ensures !FromOrigin(body, stmts, idx, local, atStart, n, o) { }
  }

  /** A preheader of plain statements in which copies lead from the local to a constant or an
      argument. */
  ghost predicate EntryKnown(body: Body, preheader: BasicBlock, local: Local, o: SpecOperand)
    requires preheader < |body.blocks|
  {
    var data := body.blocks[preheader];
    && PlainStatements(data.statements) && !data.terminator.Effect?
    && HasOrigin(body, data.statements, |data.statements|, local, preheader == START_BLOCK, o)
  }

  lemma EntryValueIff(body: Body, preheader: BasicBlock, local: Local, o: SpecOperand)
    requires preheader < |body.blocks|
    ensures EntryValue(body, preheader, local) == Some(o) <==> EntryKnown(body, preheader, local, o)
  {
    hide ScanEntry, HasOrigin;
    var data := body.blocks[preheader];
    ScanEntryExact(body, data.statements, |data.statements|, local, preheader == START_BLOCK, o);
  }

  ghost predicate EntryFits(body: Body, preheader: BasicBlock, local: Local, w: nat)
    requires preheader < |body.blocks|
  {
    exists o: SpecOperand :: EntryKnown(body, preheader, local, o) && TyBits(o.ty) == w
  }

  lemma EntryFitsIff(body: Body, preheader: BasicBlock, local: Local, w: nat)
    requires preheader < |body.blocks|
    ensures EntryFits(body, preheader, local, w) <==>
            EntryValue(body, preheader, local).Some? && TyBits(EntryValue(body, preheader, local).value.ty) == w
  {
    hide EntryKnown, EntryValue;
    if EntryValue(body, preheader, local).Some? {
      EntryValueIff(body, preheader, local, EntryValue(body, preheader, local).value);
    }
    if EntryFits(body, preheader, local, w) {
      var o: SpecOperand :| EntryKnown(body, preheader, local, o) && TyBits(o.ty) == w;
      EntryValueIff(body, preheader, local, o);
    }
  }

  lemma {:induction false} EntryArgsIff(body: Body, preheader: BasicBlock, params: seq<BlockParam>, tys: seq<ScalarTy>)
    requires preheader < |body.blocks| && |params| == |tys|
    ensures EntryArgs(body, preheader, params, tys).Some? <==>
            forall k :: 0 <= k < |params| ==> EntryFits(body, preheader, params[k].local, TyBits(tys[k]))
  {
    hide EntryFits, EntryValue, TyBits;
    if params != [] {
      EntryArgsIff(body, preheader, params[1..], tys[1..]);
      EntryFitsIff(body, preheader, params[0].local, TyBits(tys[0]));
      assert forall k :: 0 < k < |params| ==> params[k] == params[1..][k - 1] && tys[k] == tys[1..][k - 1];
      assert forall k :: 0 <= k < |params| - 1 ==> params[1..][k] == params[k + 1] && tys[1..][k] == tys[k + 1];
    }
  }

  lemma {:induction false} ParamTysIff(body: Body, params: seq<BlockParam>)
    ensures ParamTys(body, params).Some? <==> forall p <- params :: p.local in body.localTys
  {
    if params != [] {
      ParamTysIff(body, params[1..]);
      assert params == [params[0]] + params[1..];
    }
  }

  // --- The guard ---------------------------------------------------------------------------------------------

  /** `n` copies lead from the local to `p`, the first of the locals on the way that is a param. */
  ghost predicate FromParam(stmts: seq<Statement>, idx: nat, local: Local, params: set<Local>, n: nat, p: Local)
    requires idx <= |stmts|
  {
    && Follow(stmts, idx, local, n).Some? && Follow(stmts, idx, local, n).value.1 == p && p in params
    && NoParamBefore(stmts, idx, local, params, n)
  }

  ghost predicate NoParamBefore(stmts: seq<Statement>, idx: nat, local: Local, params: set<Local>, n: nat)
    requires idx <= |stmts|
  {
    forall m: nat :: m < n && Follow(stmts, idx, local, m).Some? ==> Follow(stmts, idx, local, m).value.1 !in params
  }

  ghost predicate CopyOfParam(stmts: seq<Statement>, idx: nat, local: Local, params: set<Local>, p: Local)
    requires idx <= |stmts|
  {
    exists n: nat :: FromParam(stmts, idx, local, params, n, p)
  }

  lemma FollowFirst(stmts: seq<Statement>, idx: nat, local: Local, params: set<Local>, i: nat, l: Local, n: nat)
    requires idx <= |stmts| && LastWriter(stmts, idx, local) == Some(i) && local !in params
    requires stmts[i].rvalue.Use? && OperandLocal(stmts[i].rvalue.operand) == Some(l)
    ensures Follow(stmts, idx, local, n + 1) == Follow(stmts, i, l, n)
    ensures NoParamBefore(stmts, idx, local, params, n + 1) <==> NoParamBefore(stmts, i, l, params, n)
  {
    hide LastWriter;
    assert forall m: nat :: Follow(stmts, idx, local, m + 1) == Follow(stmts, i, l, m);
    if NoParamBefore(stmts, idx, local, params, n + 1) {
      forall m: nat | m < n && Follow(stmts, i, l, m).Some? ensures Follow(stmts, i, l, m).value.1 !in params {
        assert Follow(stmts, idx, local, m + 1) == Follow(stmts, i, l, m);
      }
    }
    if NoParamBefore(stmts, i, l, params, n) {
      forall m: nat | m < n + 1 && Follow(stmts, idx, local, m).Some?
        ensures Follow(stmts, idx, local, m).value.1 !in params
      {
        if m > 0 { assert Follow(stmts, idx, local, m) == Follow(stmts, i, l, m - 1); }
      }
    }
  }

  lemma {:induction false} ToParamExact(stmts: seq<Statement>, idx: nat, local: Local, params: set<Local>, p: Local)
    requires idx <= |stmts|
    ensures ToParam(stmts, idx, local, params) == Some(p) <==> CopyOfParam(stmts, idx, local, params, p)
    decreases idx
  {
    hide LastWriter;
    assert FromParam(stmts, idx, local, params, 0, p) <==> local == p && p in params;
    var w := LastWriter(stmts, idx, local);
    if local in params {
      forall n: nat | n > 0 ensures !FromParam(stmts, idx, local, params, n, p) {
        assert Follow(stmts, idx, local, 0) == Some((idx, local));
      }
    } else if w.Some? && stmts[w.value].rvalue.Use? && OperandLocal(stmts[w.value].rvalue.operand).Some? {
      var l := OperandLocal(stmts[w.value].rvalue.operand).value;
      ToParamExact(stmts, w.value, l, params, p);
      forall n: nat
        ensures FromParam(stmts, idx, local, params, n + 1, p) <==> FromParam(stmts, w.value, l, params, n, p)
      {
        FollowFirst(stmts, idx, local, params, w.value, l, n);
      }
      if n: nat :| FromParam(stmts, idx, local, params, n, p) {
        assert n > 0;
        assert FromParam(stmts, w.value, l, params, n - 1, p) by {
          assert FromParam(stmts, idx, local, params, (n - 1) + 1, p);
        }
      }
    } else {
      forall n: nat | n > 0 ensures !FromParam(stmts, idx, local, params, n, p) { }
    }
  }

  predicate IsZero(o: Operand) {
    o.Constant? && o.scalar == Some(0)
  }

  /** A local compared with the constant zero, on either side. */
  predicate ComparesZero(rv: Rvalue, v: Local) {
    && rv.BinaryOp?
    && ((OperandLocal(rv.l) == Some(v) && IsZero(rv.r)) || (OperandLocal(rv.r) == Some(v) && IsZero(rv.l)))
  }

  ghost predicate TestsParam(stmts: seq<Statement>, i: nat, rv: Rvalue, params: set<Local>, p: Local)
    requires i <= |stmts|
  {
    exists v: Local :: ComparesZero(rv, v) && CopyOfParam(stmts, i, v, params, p)
  }

  lemma ZeroTestIff(stmts: seq<Statement>, i: nat, rv: Rvalue, params: set<Local>, shape: CondShape)
    requires i <= |stmts| && rv.BinaryOp? && (rv.op.MNe? || rv.op.MEq?)
    ensures ZeroTest(stmts, i, rv, params) == Some(shape) <==>
            TestsParam(stmts, i, rv, params, shape.param) &&
            shape == if rv.op.MNe? then NeZero(shape.param) else EqZero(shape.param)
  {
    hide ToParam, CopyOfParam;
    var side := if OperandLocal(rv.l).Some? then rv.l else rv.r;
    if OperandLocal(side).Some? {
      var v := OperandLocal(side).value;
      ToParamExact(stmts, i, v, params, shape.param);
      assert forall u: Local :: ComparesZero(rv, u) ==> u == v;
    }
  }

  /** After `n` copies, with no param on the way: a param itself, or a comparison of one with zero. */
  ghost predicate FromShape(stmts: seq<Statement>, idx: nat, local: Local, params: set<Local>, n: nat, shape: CondShape)
    requires idx <= |stmts|
  {
    var at := Follow(stmts, idx, local, n);
    at.Some? && NoParamBefore(stmts, idx, local, params, n) && ShapeAt(stmts, at.value.0, at.value.1, params, shape)
  }

  ghost predicate ShapeAt(stmts: seq<Statement>, idx: nat, local: Local, params: set<Local>, shape: CondShape)
    requires idx <= |stmts|
  {
    if local in params then shape == OnParam(local)
    else
      var w := LastWriter(stmts, idx, local);
      && w.Some?
      && var rv := stmts[w.value].rvalue;
         && rv.BinaryOp? && (rv.op.MNe? || rv.op.MEq?) && TestsParam(stmts, w.value, rv, params, shape.param)
         && shape == if rv.op.MNe? then NeZero(shape.param) else EqZero(shape.param)
  }

  ghost predicate HasShape(stmts: seq<Statement>, idx: nat, local: Local, params: set<Local>, shape: CondShape)
    requires idx <= |stmts|
  {
    exists n: nat :: FromShape(stmts, idx, local, params, n, shape)
  }

  lemma {:induction false} ShapeFromExact(stmts: seq<Statement>, idx: nat, local: Local, params: set<Local>,
                                          shape: CondShape)
    requires idx <= |stmts|
    ensures ShapeFrom(stmts, idx, local, params) == Some(shape) <==> HasShape(stmts, idx, local, params, shape)
    decreases idx
  {
    hide LastWriter, TestsParam, ZeroTest;
    assert FromShape(stmts, idx, local, params, 0, shape) <==> ShapeAt(stmts, idx, local, params, shape);
    var w := LastWriter(stmts, idx, local);
    if local in params {
      forall n: nat | n > 0 ensures !FromShape(stmts, idx, local, params, n, shape) {
        assert Follow(stmts, idx, local, 0) == Some((idx, local));
      }
    } else if w.Some? && stmts[w.value].rvalue.Use? && OperandLocal(stmts[w.value].rvalue.operand).Some? {
      var l := OperandLocal(stmts[w.value].rvalue.operand).value;
      ShapeFromExact(stmts, w.value, l, params, shape);
      ShapeMoves(stmts, idx, local, params, w.value, l, shape);
    } else {
      forall n: nat | n > 0 ensures !FromShape(stmts, idx, local, params, n, shape) { }
      if w.Some? && stmts[w.value].rvalue.BinaryOp? &&
         (stmts[w.value].rvalue.op.MNe? || stmts[w.value].rvalue.op.MEq?) {
        ZeroTestIff(stmts, w.value, stmts[w.value].rvalue, params, shape);
      }
    }
  }

  lemma ShapeMoves(stmts: seq<Statement>, idx: nat, local: Local, params: set<Local>, i: nat, l: Local,
                   shape: CondShape)
    requires idx <= |stmts| && LastWriter(stmts, idx, local) == Some(i) && local !in params
    requires stmts[i].rvalue.Use? && OperandLocal(stmts[i].rvalue.operand) == Some(l)
    ensures HasShape(stmts, idx, local, params, shape) <==> HasShape(stmts, i, l, params, shape)
  {
    hide LastWriter, TestsParam, NoParamBefore;
    forall n: nat
      ensures FromShape(stmts, idx, local, params, n + 1, shape) <==> FromShape(stmts, i, l, params, n, shape)
    {
      FollowFirst(stmts, idx, local, params, i, l, n);
    }
    if n: nat :| FromShape(stmts, idx, local, params, n, shape) {
      assert n > 0;
      assert FromShape(stmts, idx, local, params, (n - 1) + 1, shape);
      assert FromShape(stmts, i, l, params, n - 1, shape);
    }
    if n: nat :| FromShape(stmts, i, l, params, n, shape) {
      assert FromShape(stmts, idx, local, params, n + 1, shape);
    }
  }

  /** The switch decides on a param, directly or compared with zero, that the header leaves alone. */
  ghost predicate CondKnown(stmts: seq<Statement>, discr: Local, params: set<Local>, shape: CondShape) {
    HasShape(stmts, |stmts|, discr, params, shape) && forall s <- stmts :: !Assigns(s, shape.param)
  }

  lemma ResolveCondIff(stmts: seq<Statement>, discr: Local, params: set<Local>, shape: CondShape)
    ensures ResolveCond(stmts, discr, params) == Some(shape) <==> CondKnown(stmts, discr, params, shape)
  {
    hide ShapeFrom, HasShape;
    ShapeFromExact(stmts, |stmts|, discr, params, shape);
  }

  /** A jump, or a switch with the single case zero on such a local. The body is the other arm, unless
      the switch is on a comparison for equality. */
  ghost predicate BranchIs(data: BlockData, params: set<Local>, b: Branch) {
    match data.terminator
    case Goto(t) => b == Branch(None, t, None)
    case SwitchInt(discr, cases, otherwise) =>
      && |cases| == 1 && cases[0].0 == 0 && OperandLocal(discr).Some?
      && (exists shape: CondShape ::
            && CondKnown(data.statements, OperandLocal(discr).value, params, shape)
            && b == if shape.EqZero? then Branch(Some(shape.param), cases[0].1, Some(otherwise))
                    else Branch(Some(shape.param), otherwise, Some(cases[0].1)))
    case _ => false
  }

  lemma HeaderBranchIff(data: BlockData, params: set<Local>, b: Branch)
    ensures HeaderBranch(data, params) == Some(b) <==> BranchIs(data, params, b)
  {
    hide ResolveCond, CondKnown;
    if data.terminator.SwitchInt? && OperandLocal(data.terminator.discr).Some? {
      var d := OperandLocal(data.terminator.discr).value;
      forall shape: CondShape
        ensures ResolveCond(data.statements, d, params) == Some(shape) <==> CondKnown(data.statements, d, params, shape)
      {
        ResolveCondIff(data.statements, d, params, shape);
      }
    }
  }

  // --- The chain ------------------------------------------------------------------------------------------------

  lemma NextInChainIff(t: MirTerminator, b: BasicBlock)
    ensures NextInChain(t) == Some(b) <==> t == Goto(b) || (t.Assert? && t.target == b)
  {
  }

  /** The walk finds every straight chain back to the header, and nothing else. */
  lemma WalkIff(body: Body, header: BasicBlock, entry: BasicBlock, chain: seq<BasicBlock>)
    requires WellFormedBody(body) && entry < |body.blocks|
    ensures Walk(body, header, entry, {}) == Some(chain) <==> ChainShape(body, header, entry, chain)
  {
    hide Walk, WellFormedBody, ChainShape;
    if Walk(body, header, entry, {}) == Some(chain) { WalkShape(body, header, entry, {}); }
    if ChainShape(body, header, entry, chain) { WalkFinds(body, header, entry, {}, chain); }
  }

  lemma {:induction false} WalkFinds(body: Body, header: BasicBlock, entry: BasicBlock, visited: set<BasicBlock>,
                                     chain: seq<BasicBlock>)
    requires WellFormedBody(body) && entry < |body.blocks| && ChainShape(body, header, entry, chain)
    requires forall b <- chain :: b !in visited
    ensures Walk(body, header, entry, visited) == Some(chain)
    decreases chain
  {
    hide Walk, WellFormedBody, NextInChain, ChainShape;
    ChainHead(body, header, entry, chain);
    WalkStep(body, header, entry, visited);
    if |chain| > 1 {
      ChainTail(body, header, entry, chain);
      WalkFinds(body, header, chain[1], visited + {entry}, chain[1..]);
    } else {
      assert chain == [entry];
    }
  }

  lemma ChainHead(body: Body, header: BasicBlock, entry: BasicBlock, chain: seq<BasicBlock>)
    requires ChainShape(body, header, entry, chain)
    ensures chain != [] && entry in chain && entry != header && entry < |body.blocks|
    ensures chain == [entry] + chain[1..] && entry !in chain[1..]
    ensures NextInChain(body.blocks[entry].terminator) == Some(ChainNext(chain, header, 0))
    ensures |chain| > 1 ==> chain[1] != header && chain[1] < |body.blocks|
  {
    hide NextInChain;
    assert NextInChain(body.blocks[chain[0]].terminator) == Some(ChainNext(chain, header, 0));
  }

  lemma ChainTail(body: Body, header: BasicBlock, entry: BasicBlock, chain: seq<BasicBlock>)
    requires ChainShape(body, header, entry, chain) && |chain| > 1
    ensures ChainShape(body, header, chain[1], chain[1..])
  {
    hide NextInChain;
    var rest := chain[1..];
    forall i | 0 <= i < |rest|
      ensures rest[i] != header && rest[i] < |body.blocks| &&
              NextInChain(body.blocks[rest[i]].terminator) == Some(ChainNext(rest, header, i))
    {
      assert rest[i] == chain[i + 1] && ChainNext(rest, header, i) == ChainNext(chain, header, i + 1);
    }
  }

  // --- The whole loop model --------------------------------------------------------------------------------------

  /** Two predecessors: one the header dominates and one it does not. */
  predicate TwoPredecessors(preds: seq<BasicBlock>, dominated: set<BasicBlock>, pre: BasicBlock, latch: BasicBlock) {
    (preds == [pre, latch] || preds == [latch, pre]) && latch in dominated && pre !in dominated
  }

  lemma {:induction false} SelectCounts(preds: seq<BasicBlock>, dominated: set<BasicBlock>)
    ensures |Select(preds, dominated, true)| + |Select(preds, dominated, false)| == |preds|
  {
    if preds != [] { SelectCounts(preds[1..], dominated); }
  }

  lemma SelectIff(preds: seq<BasicBlock>, dominated: set<BasicBlock>, pre: BasicBlock, latch: BasicBlock)
    ensures (Select(preds, dominated, false) == [pre] && Select(preds, dominated, true) == [latch]) <==>
            TwoPredecessors(preds, dominated, pre, latch)
  {
    hide Select;
    SelectCounts(preds, dominated);
    if |preds| == 2 {
      assert preds == [preds[0], preds[1]];
      SelectTwo(preds[0], preds[1], dominated, true);
      SelectTwo(preds[0], preds[1], dominated, false);
    }
  }

  lemma SelectTwo(x: BasicBlock, y: BasicBlock, dominated: set<BasicBlock>, back: bool)
    ensures var (a, b) := ((x in dominated) == back, (y in dominated) == back);
            Select([x, y], dominated, back) == if a && b then [x, y] else if a then [x] else if b then [y] else []
  {
    assert [x, y][1..] == [y] && [y][1..] == [];
    assert Select([y], dominated, back) == if (y in dominated) == back then [y] else [];
  }

  /** One preheader, one latch, and a straight line from the header's body arm back through the latch,
      entered nowhere else; the exit arm leaves it. */
  ghost predicate IsSkeleton(body: Body, preds: seq<seq<BasicBlock>>, dominated: set<BasicBlock>, header: BasicBlock,
                             params: set<Local>, sk: Skeleton)
    requires header < |body.blocks| && |preds| == |body.blocks|
  {
    && TwoPredecessors(preds[header], dominated, sk.preheader, sk.latch)
    && BranchIs(body.blocks[header], params, sk.branch)
    && ChainShape(body, header, sk.branch.entry, sk.chain) && sk.latch == sk.chain[|sk.chain| - 1]
    && StraightLine(preds, header, sk.chain) && ExitLeaves(sk.branch.exit, header, sk.chain)
  }

  lemma ControlFlowIff(body: Body, preds: seq<seq<BasicBlock>>, dominated: set<BasicBlock>, header: BasicBlock,
                       params: set<Local>, sk: Skeleton)
    requires WellFormedBody(body) && header < |body.blocks| && |preds| == |body.blocks|
    ensures ControlFlow(body, preds, dominated, header, params) == Some(sk) <==>
            IsSkeleton(body, preds, dominated, header, params, sk)
  {
    hide Select, TwoPredecessors, HeaderBranch, BranchIs, Walk, ChainShape, StraightLine, ExitLeaves, WellFormedBody;
    SelectIff(preds[header], dominated, sk.preheader, sk.latch);
    HeaderBranchIff(body.blocks[header], params, sk.branch);
    if HeaderBranch(body.blocks[header], params) == Some(sk.branch) {
      BranchInRange(body, header, params);
      WalkIff(body, header, sk.branch.entry, sk.chain);
      ChainNotEmpty(body, header, sk.branch.entry, sk.chain);
    }
  }

  lemma ChainNotEmpty(body: Body, header: BasicBlock, entry: BasicBlock, chain: seq<BasicBlock>)
    ensures ChainShape(body, header, entry, chain) ==> chain != [] && InRange(body, chain)
  {
  }

  /** What makes a header a loop that is checked, on the MIR side: a skeleton, scalar params, convertible
      statements in header and chain, a guard if they divide, and a known entry value of the right width
      for every param. */
  ghost predicate MirInSlice(body: Body, preds: seq<seq<BasicBlock>>, dominated: set<BasicBlock>, header: BasicBlock,
                             params: seq<BlockParam>, sk: Skeleton)
    requires header < |body.blocks| && |preds| == |body.blocks| && InRange(body, preds[header])
  {
    && IsSkeleton(body, preds, dominated, header, ParamSet(params), sk)
    && sk.preheader < |body.blocks| && InRange(body, [header] + sk.chain)
    && (forall p <- params :: p.local in body.localTys)
    && AllConvertible(body, ParamSet(params), StatementsOf(body, [header] + sk.chain))
    && (sk.branch.guard.None? ==> !SomeDivides(StatementsOf(body, [header] + sk.chain)))
    && forall k :: 0 <= k < |params| ==>
         EntryFits(body, sk.preheader, params[k].local, TyBits(body.localTys[params[k].local]))
  }

  lemma ModelIff(body: Body, preds: seq<seq<BasicBlock>>, dominated: set<BasicBlock>, header: BasicBlock,
                 params: seq<BlockParam>)
    requires WellFormedBody(body) && header < |body.blocks| && |preds| == |body.blocks| && InRange(body, preds[header])
    ensures BuildModel(body, preds, dominated, header, params).Some? <==>
            exists sk: Skeleton :: MirInSlice(body, preds, dominated, header, params, sk)
  {
    hide ControlFlow, ParamTys, ConvBlocks, EntryArgs, WellFormedBody, SkeletonOk, MirInSlice;
    ParamTysIff(body, params);
    var cf := ControlFlow(body, preds, dominated, header, ParamSet(params));
    if cf.Some? {
      SkeletonShape(body, preds, dominated, header, ParamSet(params));
      ModelOfSkeleton(body, preds, dominated, header, params, cf.value);
    }
    forall sk: Skeleton | MirInSlice(body, preds, dominated, header, params, sk)
      ensures cf == Some(sk)
    {
      SliceSkeleton(body, preds, dominated, header, params, sk);
    }
  }

  lemma SliceSkeleton(body: Body, preds: seq<seq<BasicBlock>>, dominated: set<BasicBlock>, header: BasicBlock,
                      params: seq<BlockParam>, sk: Skeleton)
    requires WellFormedBody(body) && header < |body.blocks| && |preds| == |body.blocks| && InRange(body, preds[header])
    requires MirInSlice(body, preds, dominated, header, params, sk)
    ensures ControlFlow(body, preds, dominated, header, ParamSet(params)) == Some(sk)
  {
    hide ControlFlow, IsSkeleton, AllConvertible, EntryFits, WellFormedBody;
    ControlFlowIff(body, preds, dominated, header, ParamSet(params), sk);
  }

  lemma ModelOfSkeleton(body: Body, preds: seq<seq<BasicBlock>>, dominated: set<BasicBlock>, header: BasicBlock,
                        params: seq<BlockParam>, sk: Skeleton)
    requires WellFormedBody(body) && header < |body.blocks| && |preds| == |body.blocks| && InRange(body, preds[header])
    requires ControlFlow(body, preds, dominated, header, ParamSet(params)) == Some(sk)
    ensures BuildModel(body, preds, dominated, header, params).Some? <==>
            MirInSlice(body, preds, dominated, header, params, sk)
  {
    hide ControlFlow, ParamTys, ConvBlocks, EntryArgs, WellFormedBody, IsSkeleton, AllConvertible, EntryFits,
      SomeDivides, StatementsOf, HeaderBranch;
    ControlFlowIff(body, preds, dominated, header, ParamSet(params), sk);
    SkeletonShape(body, preds, dominated, header, ParamSet(params));
    assert SkeletonOk(body, preds, header, ParamSet(params), sk);
    hide ChainShape, StraightLine, ExitLeaves;
    ParamTysIff(body, params);
    ConvBlocksIff(body, ParamSet(params), [header] + sk.chain);
    if ParamTys(body, params).Some? {
      var tys := ParamTys(body, params).value;
      ParamTysShape(body, params);
      EntryArgsIff(body, sk.preheader, params, tys);
      if sk.branch.guard.Some? { GuardTyped(body, header, params, sk.branch); }
    }
  }

  lemma GuardTyped(body: Body, header: BasicBlock, params: seq<BlockParam>, branch: Branch)
    requires header < |body.blocks| && HeaderBranch(body.blocks[header], ParamSet(params)) == Some(branch)
    requires branch.guard.Some? && forall p <- params :: p.local in body.localTys
    ensures branch.guard.value in body.localTys
  {
    hide HeaderBranch;
    GuardIsParam(body.blocks[header], ParamSet(params));
  }

  lemma ModelFields(body: Body, preds: seq<seq<BasicBlock>>, dominated: set<BasicBlock>, header: BasicBlock,
                    params: seq<BlockParam>, sk: Skeleton)
    requires WellFormedBody(body) && header < |body.blocks| && |preds| == |body.blocks| && InRange(body, preds[header])
    requires ControlFlow(body, preds, dominated, header, ParamSet(params)) == Some(sk)
    requires BuildModel(body, preds, dominated, header, params).Some?
    ensures var model := BuildModel(body, preds, dominated, header, params).value;
            && model.chain == sk.chain && model.preheader == sk.preheader && sk.chain != []
            && sk.latch == sk.chain[|sk.chain| - 1] && |model.paramTys| == |params|
            && forall k :: 0 <= k < |params| ==>
                 params[k].local in body.localTys && model.paramTys[k] == body.localTys[params[k].local]
  {
    hide ControlFlow, ParamTys, ConvBlocks, EntryArgs, WellFormedBody, HeaderBranch;
    SkeletonShape(body, preds, dominated, header, ParamSet(params));
    ParamTysShape(body, params);
  }

  // --- The emitted side of the loop ---------------------------------------------------------------------------------

  /** The machine is at the header: exactly its params are bound, at the widths of their locals. */
  ghost predicate EntersHeader(body: Body, params: seq<BlockParam>, env: Env) {
    && (forall v: ValueId :: v in env <==> exists p <- params :: p.value == v)
    && forall p <- params :: p.local in body.localTys ==> env[p.value].width == TyBits(body.localTys[p.local])
  }

  /** Some such state exists where the params are distinct values. */
  lemma {:induction false} HeaderStateExists(body: Body, params: seq<BlockParam>) returns (env: Env)
    requires forall i, j :: 0 <= i < j < |params| ==> params[i].value != params[j].value
    ensures EntersHeader(body, params, env)
  {
    if params == [] {
      env := map[];
    } else {
      var (front, p) := (params[..|params| - 1], params[|params| - 1]);
      assert params == front + [p];
      var rest := HeaderStateExists(body, front);
      var w := if p.local in body.localTys then TyBits(body.localTys[p.local]) else 0;
      Pow2Exceeds(w);
      env := rest[p.value := Val(0, w)];
      forall q | q in front ensures q.value != p.value {
        var i :| 0 <= i < |front| && front[i] == q;
        assert params[i] == q;
      }
    }
  }

  lemma {:induction false} SeedsHave(params: seq<BlockParam>, tys: seq<ScalarTy>, v: ValueId)
    requires |params| == |tys|
    ensures v in Seeds(params, tys) <==> exists p <- params :: p.value == v
  {
    if params != [] {
      var k := |params| - 1;
      SeedsHave(params[..k], tys[..k], v);
      assert params == params[..k] + [params[k]];
    }
  }

  lemma SeedsShape(body: Body, params: seq<BlockParam>, tys: seq<ScalarTy>, env: Env)
    requires |params| == |tys| && EntersHeader(body, params, env)
    requires forall k :: 0 <= k < |params| ==>
               params[k].local in body.localTys && tys[k] == body.localTys[params[k].local]
    ensures SameShape(Seeds(params, tys), env)
  {
    hide Seeds;
    forall v: ValueId ensures v in Seeds(params, tys) <==> v in env { SeedsHave(params, tys, v); }
    forall v | v in Seeds(params, tys) ensures v in env && Width(Seeds(params, tys)[v]) == env[v].width {
      SeedsHave(params, tys, v);
      SeedsAre(params, tys, v);
      var k :| 0 <= k < |params| && params[k].value == v &&
          Seeds(params, tys)[v] == Var(Param(params[k].local), TyBits(tys[k]));
      assert params[k] in params;
    }
  }

  lemma {:induction false} FindChainIff(f: Func, chain: seq<BasicBlock>)
    ensures FindChain(f, chain).Some? <==> forall b <- chain :: FindBlock(f.blocks, b).Some?
  {
    hide FindBlock;
    if chain != [] {
      FindChainIff(f, chain[1..]);
      assert FindChain(f, chain).Some? <==> FindBlock(f.blocks, chain[0]).Some? && FindChain(f, chain[1..]).Some?;
      assert forall b :: b in chain <==> b == chain[0] || b in chain[1..];
    }
  }

  /** No emitted block but preheader and latch has an arm to the header, and these have at most one. */
  ghost predicate EnteredOnlyThere(f: Func, header: BlockId, pre: BlockId, latch: BlockId) {
    forall b <- f.blocks :: b.body != [] ==>
      var n := |ArmsTo(Arms(Terminator(b)), header)|; n == 0 || (n == 1 && (b.id == pre || b.id == latch))
  }

  lemma ArmsIff(f: Func, header: BlockId, pre: BlockId, latch: BlockId)
    ensures OnlyModelledArms(f, header, pre, latch) <==> EnteredOnlyThere(f, header, pre, latch)
  {
    hide EdgesTo, Arms, ArmsTo, Terminator;
    forall b | b in f.blocks && b.body != []
      ensures EdgesTo(Terminator(b), header) == ArmsTo(Arms(Terminator(b)), header)
    {
      EdgesToIs(Terminator(b), header);
    }
    if OnlyModelledArms(f, header, pre, latch) {
      forall b | b in f.blocks && b.body != []
        ensures var n := |ArmsTo(Arms(Terminator(b)), header)|; n == 0 || (n == 1 && (b.id == pre || b.id == latch))
      {
        var i :| 0 <= i < |f.blocks| && f.blocks[i] == b;
        assert ArmsOk(f.blocks[i], header, pre, latch);
      }
    }
  }

  function DeclaredTys(body: Body, params: seq<BlockParam>): seq<ScalarTy>
    requires forall p <- params :: p.local in body.localTys
  {
    seq(|params|, k requires 0 <= k < |params| => body.localTys[params[k].local])
  }

  ghost predicate HaveWidths(values: seq<Value>, tys: seq<ScalarTy>) {
    |values| == |tys| && forall k :: 0 <= k < |tys| ==> values[k].width == TyBits(tys[k])
  }

  /** What makes it checked on the emitted side: all blocks are there, the header is entered only as
      modelled and has the params, the machine runs header and chain and threads values of the params'
      widths, and the args of the entry edge resolve at these widths. */
  ghost predicate EmittedInSlice(body: Body, f: Func, header: BasicBlock, params: seq<BlockParam>, sk: Skeleton,
                                 env: Env)
    requires forall p <- params :: p.local in body.localTys
  {
    var tys := DeclaredTys(body, params);
    && FindBlock(f.blocks, header).Some? && FindChain(f, sk.chain).Some?
    && EnteredOnlyThere(f, header, sk.preheader, sk.latch)
    && HeaderParamsMatch(FindBlock(f.blocks, header).value, params, tys)
    && EntryResolves(f, sk.preheader, header, ArgNames(body), tys)
    && var blocks := [FindBlock(f.blocks, header).value] + FindChain(f, sk.chain).value;
       ChainRuns(blocks, header, env, true) && HaveWidths(Threaded(blocks, header, env, true), tys)
  }

  lemma BridgeIff(body: Body, f: Func, header: BasicBlock, params: seq<BlockParam>, model: Model, sk: Skeleton,
                  env: Env)
    requires forall p <- params :: p.local in body.localTys
    requires model.chain == sk.chain && model.preheader == sk.preheader && sk.chain != []
    requires sk.latch == sk.chain[|sk.chain| - 1] && model.paramTys == DeclaredTys(body, params)
    requires EntersHeader(body, params, env)
    ensures BuildBridge(body, f, header, params, model).Some? <==> EmittedInSlice(body, f, header, params, sk, env)
  {
    hide ChainSpec, ChainRuns, Threaded, EdgeArgsThroughDefs, EntryResolves, WidthsMatch, HeaderParamsMatch, FindChain,
      OnlyModelledArms, EnteredOnlyThere, Seeds, EntersHeader, ArgNames, SameShape;
    ArmsIff(f, header, sk.preheader, sk.latch);
    EdgeArgsIff(f, sk.preheader, header, ArgNames(body), model.paramTys);
    SeedsShape(body, params, model.paramTys, env);
    if FindBlock(f.blocks, header).Some? && FindChain(f, sk.chain).Some? {
      var blocks := [FindBlock(f.blocks, header).value] + FindChain(f, sk.chain).value;
      ChainSpecIff(blocks, header, Seeds(params, model.paramTys), env, true);
      if ChainRuns(blocks, header, env, true) {
        WidthsAre(ChainSpec(blocks, header, Seeds(params, model.paramTys), true).value,
                  Threaded(blocks, header, env, true), model.paramTys);
      }
    }
  }

  lemma WidthsAre(exprs: seq<Expr>, values: seq<Value>, tys: seq<ScalarTy>)
    requires SameWidths(exprs, values)
    ensures WidthsMatch(exprs, tys) <==> HaveWidths(values, tys)
  {
  }

  /** In the slice on both sides. */
  ghost predicate InSlice(u: Unit, h: BasicBlock, sk: Skeleton, env: Env)
    requires WellFormedUnit(u) && h in u.headerParams
  {
    && |u.preds| == |u.body.blocks| && InRange(u.body, u.preds[h])
    && MirInSlice(u.body, u.preds, u.dominated[h], h, u.headerParams[h], sk)
    && EmittedInSlice(u.body, u.func, h, u.headerParams[h], sk, env)
  }

  /** A header's loop is checked if and only if it is in the slice; otherwise it is skipped. The machine
      state at the header is any at all that binds the params. */
  lemma ObligationIff(u: Unit, h: BasicBlock, env: Env)
    requires WellFormedUnit(u) && h in u.headerParams && EntersHeader(u.body, u.headerParams[h], env)
    ensures ObligationOf(u, h).Some? <==> exists sk: Skeleton :: InSlice(u, h, sk, env)
  {
    hide BuildModel, BuildBridge, InSlice, EntersHeader, MirInSlice;
    var (body, params, dom) := (u.body, u.headerParams[h], u.dominated[h]);
    assert |u.preds| == |body.blocks| && InRange(body, u.preds[h]);
    ModelIff(body, u.preds, dom, h, params);
    if ObligationOf(u, h).Some? {
      var sk: Skeleton :| MirInSlice(body, u.preds, dom, h, params, sk);
      SliceObligation(u, h, env, sk);
    }
    if sk: Skeleton :| InSlice(u, h, sk, env) {
      InSliceMir(u, h, sk, env);
      SliceObligation(u, h, env, sk);
    }
  }

  lemma InSliceMir(u: Unit, h: BasicBlock, sk: Skeleton, env: Env)
    requires WellFormedUnit(u) && h in u.headerParams && InSlice(u, h, sk, env)
    ensures |u.preds| == |u.body.blocks| && InRange(u.body, u.preds[h])
    ensures MirInSlice(u.body, u.preds, u.dominated[h], h, u.headerParams[h], sk)
  {
  }

  lemma SliceObligation(u: Unit, h: BasicBlock, env: Env, sk: Skeleton)
    requires WellFormedUnit(u) && h in u.headerParams && EntersHeader(u.body, u.headerParams[h], env)
    requires |u.preds| == |u.body.blocks| && InRange(u.body, u.preds[h])
    requires MirInSlice(u.body, u.preds, u.dominated[h], h, u.headerParams[h], sk)
    ensures ObligationOf(u, h).Some? <==> InSlice(u, h, sk, env)
  {
    hide BuildModel, BuildBridge, EmittedInSlice, EntersHeader, ControlFlow, IsSkeleton, AllConvertible, EntryFits;
    var (body, params, dom) := (u.body, u.headerParams[h], u.dominated[h]);
    SliceSkeleton(body, u.preds, dom, h, params, sk);
    ModelOfSkeleton(body, u.preds, dom, h, params, sk);
    ModelFields(body, u.preds, dom, h, params, sk);
    BuiltShape(body, u.preds, dom, h, params);
    var model := BuildModel(body, u.preds, dom, h, params).value;
    assert model.paramTys == DeclaredTys(body, params);
    BridgeIff(body, u.func, h, params, model, sk, env);
  }

  /** The main theorem without mention of obligations: in an accepted function every loop in the slice is
      threaded rightly, none having been skipped. */
  lemma SlicedLoopIsThreaded(u: Unit, discharge: LoopVc.Discharge, h: BasicBlock, sk: Skeleton, env: Env,
                             mrun: seq<MirState>, erun: seq<State>, s: Valuation, t: nat)
    requires WellFormedUnit(u) && SoundSolver(discharge) && Check(u, discharge) == Ok
    requires h in u.headerParams && EntersHeader(u.body, u.headerParams[h], env) && InSlice(u, h, sk, env)
    requires Paired(u.body, u.func, mrun, erun, s) && t < |mrun| && mrun[t].block == h
    ensures HeaderAgrees(u.headerParams[h], mrun[t].store, erun[t].env)
  {
    hide Check, SoundSolver, Paired, InSlice, EntersHeader, ObligationOf, HeaderAgrees, WellFormedUnit;
    ObligationIff(u, h, env);
    CheckedFunctionThreadsItsLoops(u, discharge, h, mrun, erun, s, t);
  }
}
