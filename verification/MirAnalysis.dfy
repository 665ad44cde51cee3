/** The backward analyses over one MIR block: the guard's shape at the header's switch, and the
    value a loop-carried local holds at the end of the preheader. Both are last-writer scans
    through plain copies; they are proved against every concrete execution of the block. */
module MirAnalysis {
  import opened Wrappers
  import opened Bits
  import opened Smt
  import opened TrustIr
  import opened Mir
  import opened LoopVc
  import opened LoopConv

  predicate Writes(stmt: Statement, local: Local) {
    stmt.Assign? && stmt.place == Plain(local)
  }

  /** The last plain assignment to `local` among `stmts[..idx]`. */
  function LastWriter(stmts: seq<Statement>, idx: nat, local: Local): (r: Option<nat>)
    requires idx <= |stmts|
    ensures r.Some? ==> r.value < idx && Writes(stmts[r.value], local)
    ensures forall i :: (if r.Some? then r.value + 1 else 0) <= i < idx ==> !Writes(stmts[i], local)
  {
    if idx == 0 then None
    else if Writes(stmts[idx - 1], local) then Some(idx - 1)
    else LastWriter(stmts, idx - 1, local)
  }

  method FindLastWriter(stmts: seq<Statement>, idx: nat, local: Local) returns (r: Option<nat>)
    requires idx <= |stmts|
    ensures r == LastWriter(stmts, idx, local)
  {
    var i := idx;
    while i > 0
      invariant 0 <= i <= idx && LastWriter(stmts, i, local) == LastWriter(stmts, idx, local)
    {
      i := i - 1;
      if Writes(stmts[i], local) { return Some(i); }
    }
    return None;
  }

  function ToParam(stmts: seq<Statement>, upto: nat, local: Local, params: set<Local>): Option<Local>
    requires upto <= |stmts|
    decreases upto
  {
    if local in params then Some(local)
    else match LastWriter(stmts, upto, local)
      case None => None
      case Some(i) =>
        var rv := stmts[i].rvalue;
        if rv.Use? && OperandLocal(rv.operand).Some? then ToParam(stmts, i, OperandLocal(rv.operand).value, params)
        else None
  }

  method ResolveToParam(stmts: seq<Statement>, upto: nat, start: Local, params: set<Local>) returns (r: Option<Local>)
    requires upto <= |stmts|
    ensures r == ToParam(stmts, upto, start, params)
  {
    var local, idx := start, upto;
    while local !in params
      invariant 0 <= idx <= upto && ToParam(stmts, idx, local, params) == ToParam(stmts, upto, start, params)
      decreases idx
    {
      var w := FindLastWriter(stmts, idx, local);
      if w.None? { return None; }
      var rv := stmts[w.value].rvalue;
      if !rv.Use? || OperandLocal(rv.operand).None? { return None; }
      local, idx := OperandLocal(rv.operand).value, w.value;
    }
    return Some(local);
  }

  datatype CondShape = OnParam(param: Local) | NeZero(param: Local) | EqZero(param: Local)

  /** A comparison of a copied param with the constant zero, at statement `i`. */
  function ZeroTest(stmts: seq<Statement>, i: nat, rv: Rvalue, params: set<Local>): Option<CondShape>
    requires i <= |stmts| && rv.BinaryOp?
  {
    var (varSide, constSide) := if OperandLocal(rv.l).Some? then (rv.l, rv.r) else (rv.r, rv.l);
    if OperandLocal(varSide).None? then None
    else
      var p := ToParam(stmts, i, OperandLocal(varSide).value, params);
      if p.None? || !constSide.Constant? || constSide.scalar != Some(0) then None
      else Some(if rv.op.MNe? then NeZero(p.value) else EqZero(p.value))
  }

  function ShapeFrom(stmts: seq<Statement>, idx: nat, local: Local, params: set<Local>): Option<CondShape>
    requires idx <= |stmts|
    decreases idx
  {
    if local in params then Some(OnParam(local))
    else match LastWriter(stmts, idx, local)
      case None => None
      case Some(i) =>
        var rv := stmts[i].rvalue;
        if rv.Use? && OperandLocal(rv.operand).Some? then ShapeFrom(stmts, i, OperandLocal(rv.operand).value, params)
        else if rv.BinaryOp? && (rv.op.MNe? || rv.op.MEq?) then ZeroTest(stmts, i, rv, params)
        else None
  }

  predicate Assigns(stmt: Statement, local: Local) {
    stmt.Assign? && stmt.place.local == local
  }

  function ResolveCond(stmts: seq<Statement>, discr: Local, params: set<Local>): Option<CondShape> {
    var shape := ShapeFrom(stmts, |stmts|, discr, params);
    if shape.None? || exists i :: 0 <= i < |stmts| && Assigns(stmts[i], shape.value.param) then None else shape
  }

  method ResolveCondShape(stmts: seq<Statement>, discr: Local, params: set<Local>) returns (r: Option<CondShape>)
    ensures r == ResolveCond(stmts, discr, params)
  {
    var local, idx := discr, |stmts|;
    var shape: Option<CondShape> := None;
    while shape.None?
      invariant 0 <= idx <= |stmts|
      invariant ShapeFrom(stmts, |stmts|, discr, params) == if shape.Some? then shape
          else ShapeFrom(stmts, idx, local, params)
      decreases shape.None?, idx
    {
      if local in params {
        shape := Some(OnParam(local));
      } else {
        var w := FindLastWriter(stmts, idx, local);
        if w.None? { return None; }
        var rv := stmts[w.value].rvalue;
        if rv.Use? && OperandLocal(rv.operand).Some? {
          local, idx := OperandLocal(rv.operand).value, w.value;
        } else if rv.BinaryOp? && (rv.op.MNe? || rv.op.MEq?) {
          var varSide, constSide := rv.l, rv.r;
          if OperandLocal(rv.l).None? { varSide, constSide := rv.r, rv.l; }
          if OperandLocal(varSide).None? { return None; }
          var p := ResolveToParam(stmts, w.value, OperandLocal(varSide).value, params);
          if p.None? || !constSide.Constant? || constSide.scalar != Some(0) { return None; }
          shape := Some(if rv.op.MNe? then NeZero(p.value) else EqZero(p.value));
        } else {
          return None;
        }
      }
    }
    for i := 0 to |stmts|
      invariant forall j :: 0 <= j < i ==> !Assigns(stmts[j], shape.value.param)
    {
      if Assigns(stmts[i], shape.value.param) { return None; }
    }
    return shape;
  }

  // --- Entry values ------------------------------------------------------------------------

  predicate PlainStatements(stmts: seq<Statement>) {
    forall i :: 0 <= i < |stmts| ==> stmts[i].Bookkeeping? || (stmts[i].Assign? && stmts[i].place.Plain?)
  }

  function ScanEntry(body: Body, stmts: seq<Statement>, idx: nat, local: Local, atStart: bool): Option<SpecOperand>
    requires idx <= |stmts|
    decreases idx
  {
    match LastWriter(stmts, idx, local)
    case None =>
      if atStart && IsEntryArg(body, local) &&
          local in body.localTys then Some(SpecVar(EntryArg(local), body.localTys[local]))
      else None
    case Some(i) =>
      var rv := stmts[i].rvalue;
      if !rv.Use? then None
      else if OperandLocal(rv.operand).Some? then ScanEntry(body, stmts, i, OperandLocal(rv.operand).value, atStart)
      else if rv.operand.Constant? && rv.operand.ty.Some? && rv.operand.scalar.Some? then
        Some(SpecConst(Wrap(rv.operand.scalar.value, 64), rv.operand.ty.value))
      else None
  }

  function EntryValue(body: Body, preheader: BasicBlock, param: Local): Option<SpecOperand>
    requires preheader < |body.blocks|
  {
    var data := body.blocks[preheader];
    if !PlainStatements(data.statements) || data.terminator.Effect? then None
    else ScanEntry(body, data.statements, |data.statements|, param, preheader == START_BLOCK)
  }

  method ResolveEntryValue(body: Body, preheader: BasicBlock, param: Local) returns (r: Option<SpecOperand>)
    requires preheader < |body.blocks|
    ensures r == EntryValue(body, preheader, param)
  {
    var stmts := body.blocks[preheader].statements;
    for i := 0 to |stmts|
      invariant forall j :: 0 <= j < i ==> stmts[j].Bookkeeping? || (stmts[j].Assign? && stmts[j].place.Plain?)
    {
      if stmts[i].OtherStatement? || (stmts[i].Assign? && stmts[i].place.Projected?) { return None; }
    }
    if body.blocks[preheader].terminator.Effect? { return None; }
    var local, idx := param, |stmts|;
    while true
      invariant 0 <= idx <= |stmts|
      invariant EntryValue(body, preheader, param) == ScanEntry(body, stmts, idx, local, preheader == START_BLOCK)
      decreases idx
    {
      var w := FindLastWriter(stmts, idx, local);
      if w.None? {
        if preheader == START_BLOCK && IsEntryArg(body, local) && local in body.localTys {
          return Some(SpecVar(EntryArg(local), body.localTys[local]));
        }
        return None;
      }
      var rv := stmts[w.value].rvalue;
      if !rv.Use? { return None; }
      if OperandLocal(rv.operand).None? {
        if rv.operand.Constant? && rv.operand.ty.Some? && rv.operand.scalar.Some? {
          return Some(SpecConst(Wrap(rv.operand.scalar.value, 64), rv.operand.ty.value));
        }
        return None;
      }
      local, idx := OperandLocal(rv.operand).value, w.value;
    }
  }

  // --- Against concrete executions ------------------------------------------------------------

  /** The store before each statement and after the last. */
  ghost predicate IsTrace(body: Body, stmts: seq<Statement>, trace: seq<Store>) {
    |trace| == |stmts| + 1 && forall i :: 0 <= i < |stmts| ==> StmtStep(body, trace[i], stmts[i], trace[i + 1])
  }

  lemma {:induction false} TraceOf(body: Body, store: Store, stmts: seq<Statement>,
      store': Store) returns (trace: seq<Store>)
    requires StmtsStep(body, store, stmts, store')
    ensures IsTrace(body, stmts, trace) && trace[0] == store && trace[|stmts|] == store'
    decreases stmts
  {
    hide StmtStep;
    if stmts == [] {
      trace := [store];
    } else {
      var mid: Store :| StmtStep(body, store, stmts[0], mid) && StmtsStep(body, mid, stmts[1..], store');
      var rest := TraceOf(body, mid, stmts[1..], store');
      trace := [store] + rest;
      assert forall i :: 0 < i < |stmts| ==> trace[i] == rest[i - 1] && stmts[i] == stmts[1..][i - 1];
    }
  }

  /** Both stores agree on a local, its presence included. */
  ghost predicate SameLocal(s1: Store, l1: Local, s2: Store, l2: Local) {
    l1 in s1 && l2 in s2 && s1[l1] == s2[l2]
  }

  lemma {:induction false} UnwrittenKept(body: Body, stmts: seq<Statement>, trace: seq<Store>, local: Local, lo: nat,
      hi: nat)
    requires IsTrace(body, stmts, trace) && PlainStatements(stmts) && lo <= hi <= |stmts|
    requires forall i :: lo <= i < hi ==> !Writes(stmts[i], local)
    ensures local in trace[lo] <==> local in trace[hi]
    ensures local in trace[lo] ==> trace[lo][local] == trace[hi][local]
    decreases hi
  {
    if lo < hi {
      assert StmtStep(body, trace[hi - 1], stmts[hi - 1], trace[hi]);
      UnwrittenKept(body, stmts, trace, local, lo, hi - 1);
    }
  }

  /** What the last write at `i` left is still there at `idx`. */
  lemma WriterValue(body: Body, stmts: seq<Statement>, trace: seq<Store>, idx: nat, local: Local, i: nat)
    requires IsTrace(body, stmts, trace) && PlainStatements(stmts) && idx <= |stmts|
    requires LastWriter(stmts, idx, local) == Some(i)
    requires EvalRvalue(body, trace[i], stmts[i].rvalue).Computes?
    ensures local in trace[idx] && trace[idx][local] == EvalRvalue(body, trace[i], stmts[i].rvalue).v
  {
    hide LastWriter, EvalRvalue;
    assert StmtStep(body, trace[i], stmts[i], trace[i + 1]);
    UnwrittenKept(body, stmts, trace, local, i + 1, idx);
  }

  lemma CopyStep(body: Body, stmts: seq<Statement>, trace: seq<Store>, idx: nat, local: Local, i: nat)
    requires IsTrace(body, stmts, trace) && PlainStatements(stmts) && idx <= |stmts|
    requires LastWriter(stmts, idx, local) == Some(i) && stmts[i].rvalue.Use? &&
        OperandLocal(stmts[i].rvalue.operand).Some?
    ensures SameLocal(trace[idx], local, trace[i], OperandLocal(stmts[i].rvalue.operand).value)
  {
    hide LastWriter;
    assert StmtStep(body, trace[i], stmts[i], trace[i + 1]);
    WriterValue(body, stmts, trace, idx, local, i);
  }

  /** The scan's param, never assigned in the block, is the value the local holds. */
  lemma {:induction false} ToParamSound(body: Body, stmts: seq<Statement>, trace: seq<Store>, upto: nat,
      local: Local, params: set<Local>)
    requires IsTrace(body, stmts, trace) && PlainStatements(stmts) && upto <= |stmts|
    requires ToParam(stmts, upto, local, params).Some?
    requires var p := ToParam(stmts, upto, local, params).value;
             p in trace[0] && forall i :: 0 <= i < |stmts| ==> !Writes(stmts[i], p)
    ensures SameLocal(trace[upto], local, trace[0], ToParam(stmts, upto, local, params).value)
    decreases upto
  {
    if local in params {
      UnwrittenKept(body, stmts, trace, local, 0, upto);
    } else {
      var i := LastWriter(stmts, upto, local).value;
      CopyStep(body, stmts, trace, upto, local, i);
      ToParamSound(body, stmts, trace, i, OperandLocal(stmts[i].rvalue.operand).value, params);
    }
  }

  /** What the switch reads, in terms of the guard param's header-entry value. */
  ghost predicate ShapeHolds(shape: CondShape, guard: Value, discr: Value) {
    match shape
    case OnParam(_) => discr == guard
    case NeZero(_) => discr == BoolVal(guard.bits != 0)
    case EqZero(_) => discr == BoolVal(guard.bits == 0)
  }

  /** Statements the conversion accepts, one by one. */
  ghost predicate AllConvert(body: Body, stmts: seq<Statement>) {
    forall i :: 0 <= i < |stmts| ==> Convertible(body, stmts[i])
  }

  ghost predicate Convertible(body: Body, stmt: Statement) {
    exists c :: ConvStep(body, c, stmt).Some?
  }

  lemma {:induction false} ConvAllConvertible(body: Body, c: Conv, stmts: seq<Statement>)
    requires ConvAll(body, c, stmts).Some?
    ensures AllConvert(body, stmts) && PlainStatements(stmts)
    decreases stmts
  {
    hide ConvRvalue;
    if stmts != [] {
      assert Convertible(body, stmts[0]);
      ConvAllConvertible(body, ConvStep(body, c, stmts[0]).value, stmts[1..]);
      assert forall i :: 0 < i < |stmts| ==> stmts[i] == stmts[1..][i - 1];
    }
  }

  lemma ZeroCompare(op: MirBinOp, ty: ScalarTy, x: Value, y: Value)
    requires (op.MNe? || op.MEq?) && x.width == y.width == TyBits(ty) && (x.bits == 0 || y.bits == 0)
    ensures EvalBinary(op, ty, x, y) == Computes(BoolVal(if op.MNe? then x.bits != y.bits else x.bits == y.bits))
  {
    hide Pow2, BoolVal;
    IntInjective(ty, x.bits, y.bits);
  }

  /** The comparison at `i` computes whether the guard param was zero at header entry. */
  lemma ZeroTestSound(body: Body, stmts: seq<Statement>, trace: seq<Store>, i: nat, params: set<Local>)
    requires IsTrace(body, stmts, trace) && AllConvert(body, stmts) && PlainStatements(stmts) && i < |stmts|
    requires WellTyped(body, trace[0])
    requires stmts[i].Assign? && stmts[i].rvalue.BinaryOp? && (stmts[i].rvalue.op.MNe? || stmts[i].rvalue.op.MEq?)
    requires ZeroTest(stmts, i, stmts[i].rvalue, params).Some?
    requires var p := ZeroTest(stmts, i, stmts[i].rvalue, params).value.param;
             p in trace[0] && forall j :: 0 <= j < |stmts| ==> !Writes(stmts[j], p)
    ensures EvalRvalue(body, trace[i], stmts[i].rvalue).Computes?
    ensures var shape := ZeroTest(stmts, i, stmts[i].rvalue, params).value;
            ShapeHolds(shape, trace[0][shape.param], EvalRvalue(body, trace[i], stmts[i].rvalue).v)
  {
    hide EvalBinary, ToParam, PlainStatements, BoolVal, WellTyped, StmtStep, EvalOperand;
    var rv := stmts[i].rvalue;
    var (varSide, constSide) := if OperandLocal(rv.l).Some? then (rv.l, rv.r) else (rv.r, rv.l);
    var v := OperandLocal(varSide).value;
    ToParamSound(body, stmts, trace, i, v, params);
    ConvertedTypes(body, stmts[i]);
    TraceTyped(body, stmts, trace, i, v);
    OperandValues(body, trace[i], varSide, constSide);
    ZeroCompare(rv.op, OperandTy(body, rv.l).value, EvalOperand(body, trace[i], rv.l).v,
        EvalOperand(body, trace[i], rv.r).v);
  }

  lemma OperandValues(body: Body, store: Store, varSide: Operand, constSide: Operand)
    requires OperandLocal(varSide).Some? && OperandLocal(varSide).value in store
    requires constSide.Constant? && constSide.scalar == Some(0) && constSide.ty.Some?
    ensures EvalOperand(body, store, varSide) == Computes(store[OperandLocal(varSide).value])
    ensures EvalOperand(body, store, constSide).Computes? && EvalOperand(body, store, constSide).v.bits == 0
    ensures EvalOperand(body, store, constSide).v.width == TyBits(constSide.ty.value)
  {
    WrapSmall(0, TyBits(constSide.ty.value));
  }

  lemma ConvertedTypes(body: Body, stmt: Statement)
    requires Convertible(body, stmt) && stmt.Assign? && stmt.rvalue.BinaryOp?
    ensures OperandTy(body, stmt.rvalue.l).Some? && OperandTy(body, stmt.rvalue.r).Some?
    ensures TyBits(OperandTy(body, stmt.rvalue.l).value) == TyBits(OperandTy(body, stmt.rvalue.r).value)
  {
    var c :| ConvStep(body, c, stmt).Some?;
  }

  lemma TraceTyped(body: Body, stmts: seq<Statement>, trace: seq<Store>, i: nat, v: Local)
    requires IsTrace(body, stmts, trace) && i < |stmts| && v in trace[i] && v in body.localTys
    requires WellTyped(body, trace[0])
    ensures trace[i][v].width == TyBits(body.localTys[v])
  {
    if i > 0 { assert StmtStep(body, trace[i - 1], stmts[i - 1], trace[i]); }
  }

  lemma {:induction false} ShapeFromSound(body: Body, stmts: seq<Statement>, trace: seq<Store>, idx: nat,
      local: Local, params: set<Local>)
    requires IsTrace(body, stmts, trace) && AllConvert(body, stmts) && PlainStatements(stmts) && idx <= |stmts|
    requires WellTyped(body, trace[0])
    requires ShapeFrom(stmts, idx, local, params).Some?
    requires var p := ShapeFrom(stmts, idx, local, params).value.param;
             p in trace[0] && forall i :: 0 <= i < |stmts| ==> !Writes(stmts[i], p)
    ensures local in trace[idx]
    ensures var shape := ShapeFrom(stmts, idx, local, params).value;
            ShapeHolds(shape, trace[0][shape.param], trace[idx][local])
    decreases idx
  {
    hide ZeroTest, LastWriter, EvalRvalue, BoolVal;
    if local in params {
      UnwrittenKept(body, stmts, trace, local, 0, idx);
    } else {
      var i := LastWriter(stmts, idx, local).value;
      if stmts[i].rvalue.Use? {
        CopyStep(body, stmts, trace, idx, local, i);
        ShapeFromSound(body, stmts, trace, i, OperandLocal(stmts[i].rvalue.operand).value, params);
      } else {
        ZeroTestSound(body, stmts, trace, i, params);
        WriterValue(body, stmts, trace, idx, local, i);
      }
    }
  }

  lemma TwoWaySwitch(v: Value, zeroArm: BasicBlock, otherwise: BasicBlock, next: BasicBlock)
    requires SwitchGoes(v, [(0, zeroArm)], otherwise, next)
    ensures next == if v.bits == 0 then zeroArm else otherwise
  {
    WrapSmall(0, v.width);
    var cases := [(0, zeroArm)];
    assert cases[1..] == [];
  }

  /** Guard faithfulness. For every store at header entry: the switch goes to the arm the shape
      names as the body exactly when the guard param's entry value is nonzero. */
  lemma GuardFaithful(body: Body, header: BasicBlock, discr: Operand, zeroArm: BasicBlock, otherwise: BasicBlock,
                      params: set<Local>, store: Store, mid: Store, next: BasicBlock, store': Store)
    requires header < |body.blocks| && body.blocks[header].terminator == SwitchInt(discr, [(0, zeroArm)], otherwise)
    requires zeroArm != otherwise && OperandLocal(discr).Some?
    requires WellTyped(body, store) && AllConvert(body, body.blocks[header].statements) &&
        PlainStatements(body.blocks[header].statements)
    requires ResolveCond(body.blocks[header].statements, OperandLocal(discr).value, params).Some?
    requires ResolveCond(body.blocks[header].statements, OperandLocal(discr).value, params).value.param in store
    requires StmtsStep(body, store, body.blocks[header].statements, mid)
    requires TermStep(body, mid, body.blocks[header].terminator, next, store')
    ensures var shape := ResolveCond(body.blocks[header].statements, OperandLocal(discr).value, params).value;
            var bodyArm := if shape.EqZero? then zeroArm else otherwise;
            next == bodyArm <==> store[shape.param].bits != 0
  {
    hide ShapeFrom, StmtsStep, WellTyped;
    var stmts := body.blocks[header].statements;
    var trace := TraceOf(body, store, stmts, mid);
    var d := OperandLocal(discr).value;
    ShapeFromSound(body, stmts, trace, |stmts|, d, params);
    TwoWaySwitch(mid[d], zeroArm, otherwise, next);
  }

  /** What the entry operand stands for, given the function's argument values. */
  ghost predicate OperandIs(o: SpecOperand, start: Store, v: Value) {
    match o
    case SpecConst(c, ty) => v == Val(Wrap(c, TyBits(ty)), TyBits(ty))
    case SpecVar(EntryArg(a), _) => a in start && v == start[a]
    case SpecVar(Param(_), _) => false
  }

  /** The backward scan returns what the local really holds at `idx`; `start` is the store the
      function was entered with, which the block sees only if it is the start block. */
  lemma {:induction false} ScanEntrySound(body: Body, stmts: seq<Statement>, trace: seq<Store>, idx: nat, local: Local,
                                          atStart: bool, start: Store)
    requires IsTrace(body, stmts, trace) && PlainStatements(stmts) && idx <= |stmts|
    requires ScanEntry(body, stmts, idx, local, atStart).Some?
    requires atStart ==> trace[0] == start && forall l :: IsEntryArg(body, l) && l in body.localTys ==> l in start
    ensures local in trace[idx] && OperandIs(ScanEntry(body, stmts, idx, local, atStart).value, start,
        trace[idx][local])
    decreases idx
  {
    hide LastWriter;
    var w := LastWriter(stmts, idx, local);
    if w.None? {
      UnwrittenKept(body, stmts, trace, local, 0, idx);
    } else {
      var rv := stmts[w.value].rvalue;
      if OperandLocal(rv.operand).Some? {
        CopyStep(body, stmts, trace, idx, local, w.value);
        ScanEntrySound(body, stmts, trace, w.value, OperandLocal(rv.operand).value, atStart, start);
      } else {
        WriterValue(body, stmts, trace, idx, local, w.value);
        WrapWrap(rv.operand.scalar.value, 64, TyBits(rv.operand.ty.value));
      }
    }
  }

  /** Entry-value soundness on the MIR side: leaving the preheader, the local holds what the
      operand stands for. */
  lemma EntryValueSound(body: Body, preheader: BasicBlock, param: Local, s: MirState, s': MirState, start: Store)
    requires preheader < |body.blocks| && s.block == preheader && MirStep(body, s, s')
    requires EntryValue(body, preheader, param).Some?
    requires preheader == START_BLOCK ==>
               s.store == start && forall l :: IsEntryArg(body, l) && l in body.localTys ==> l in start
    ensures param in s'.store && OperandIs(EntryValue(body, preheader, param).value, start, s'.store[param])
  {
    hide ScanEntry, StmtsStep;
    var data := body.blocks[preheader];
    var mid: Store :| StmtsStep(body, s.store, data.statements, mid) &&
        TermStep(body, mid, data.terminator, s'.block, s'.store);
    var trace := TraceOf(body, s.store, data.statements, mid);
    ScanEntrySound(body, data.statements, trace, |data.statements|, param, preheader == START_BLOCK, start);
    assert mid == s'.store;
  }
}
