/** The optimizer refines the source: a run that ends without fault keeps its outcome. */
module OptimizerCorrectness {
  import opened Words
  import opened PowerOfTwo
  import opened Tree
  import opened Semantics
  import opened Optimizer
  import opened Shapes
  import opened OptimizerShape
  import opened OptimizerDomain

  // ----- the domain on which the optimizer's arithmetic is exact -----

  /** The constant an expression folds to, if it does. */
  function Constant(e: Expr): Option<int32>
  {
    var o := OptExpr(e);
    if o.Ok? && o.value.Imm? then Some(o.value.value) else None
  }

  /** Arrays fit the address space, width-sensitive operators are folded on constants they may be
      folded on, and every division turned into a shift has a dividend on which the two agree. */
  predicate InDomain(e: Expr, mem: seq<int16>)
  {
    match e
    case Imm(_) => true
    case Load(_) => true
    case ArrayRead(_, size, i) => size <= 65536 && InDomain(i, mem)
    case Unary(op, a) =>
      InDomain(a, mem) && (op == Abs && Constant(a).Some? ==> AbsFoldable(Constant(a).value))
    case Binary(op, l, r) =>
      && InDomain(l, mem)
      && InDomain(r, mem)
      && (Constant(l).Some? && Constant(r).Some? ==> Foldable(op, Constant(l).value, Constant(r).value))
      && (op == Div && Constant(l).None? && Constant(r).Some? && IsPOT(Constant(r).value) && Eval(l, mem).Some? ==>
            Constant(r).value == 1 || ShiftExact(Eval(l, mem).value, ShiftFromPOT(Constant(r).value)))
  }

  predicate TargetInDomain(t: Target, mem: seq<int16>) { t.ArrayWrite? ==> t.size <= 65536 && InDomain(t.index, mem) }

  /** Every expression evaluated during the run is in the domain. */
  predicate RunInDomain(s: Stmt, subs: map<nat, Stmt>, st: State, fuel: nat)
    decreases fuel, s
  {
    match s
    case Block(stmts) => RunAllInDomain(stmts, subs, st, fuel)
    case Assign(target, value) => TargetInDomain(target, st.mem) && InDomain(value, st.mem)
    case IfWhen(_, cond, thn, els) =>
      InDomain(cond, st.mem) &&
      var c := Eval(cond, st.mem);
      (c.Some? && c.value != 0 ==> RunInDomain(thn, subs, st, fuel)) &&
      (c.Some? && c.value == 0 && els.Some? ==> RunInDomain(els.value, subs, st, fuel))
    case While(cond, body) =>
      fuel > 0 ==>
        InDomain(cond, st.mem) &&
        var c := Eval(cond, st.mem);
        c.Some? && c.value != 0 ==>
          RunInDomain(body, subs, st, fuel - 1) &&
          var o := Exec(body, subs, st, fuel - 1);
          o.Done? ==> RunInDomain(s, subs, o.st, fuel - 1)
    case FoldedIf(_, _, _, _, _, _) => false
    case FoldedWhile(_, _, _, _) => false
    case Emit(_, _, _, pre) => RunAllInDomain(pre, subs, st, fuel)
    case CallSub(id) => id in subs && fuel > 0 ==> RunInDomain(subs[id], subs, st, fuel - 1)
    case Return => true
  }

  predicate RunAllInDomain(stmts: seq<Stmt>, subs: map<nat, Stmt>, st: State, fuel: nat)
    decreases fuel, stmts
  {
    stmts != [] ==>
      RunInDomain(stmts[0], subs, st, fuel) &&
      var o := Exec(stmts[0], subs, st, fuel);
      o.Done? ==> RunAllInDomain(stmts[1..], subs, o.st, fuel)
  }

  // ----- expressions -----

  lemma {:induction false} BoolNodeValue(e: Expr, mem: seq<int16>)
    requires BoolNode(e) && Eval(e, mem).Some?
    ensures Eval(e, mem).value == 0 || Eval(e, mem).value == 1
  {
  }

  /** De Morgan negates the truth value and faults when the original does. */
  lemma {:induction false} DeMorganNegates(e: Expr, mem: seq<int16>)
    requires BoolNode(e)
    ensures DeMorgan(e).Ok?
    ensures Eval(DeMorgan(e).value, mem) ==
            if Eval(e, mem).None? then None else Some(Truth(Eval(e, mem).value == 0))
  {
    var a, b := Eval(e.left, mem), Eval(e.right, mem);
    if e.op.IsLogic() {
      DeMorganNegates(e.left, mem);
      DeMorganNegates(e.right, mem);
      if a.Some? && b.Some? {
        LogicNegates(e.op, a.value, b.value);
      }
    } else if a.Some? && b.Some? {
      InverseNegates(e.op, a.value, b.value);
    }
  }

  lemma LogicNegates(op: BinOp, a: int16, b: int16)
    requires op.IsLogic()
    ensures Binary16(op, a, b).Some?
    ensures Binary16(Inverse(op), Truth(a == 0), Truth(b == 0)) == Some(Truth(Binary16(op, a, b).value == 0))
  {
    hide Wrap16, Bitwise, Pow2, TruncDiv, TruncMod;
    WrapOfWord(0);
    WrapOfWord(1);
  }

  lemma InverseNegates(op: BinOp, a: int16, b: int16)
    requires op.IsComparison()
    ensures Binary16(op, a, b).Some?
    ensures Binary16(Inverse(op), a, b) == Some(Truth(Binary16(op, a, b).value == 0))
  {
    TruthFits(op, a, b);
    TruthFits(Inverse(op), a, b);
  }

  lemma NeutralAgrees(op: BinOp, l: Expr, r: Expr, mem: seq<int16>)
    requires Neutral(op, l, r).Some? && Eval(Binary(op, l, r), mem).Some?
    requires op.IsLogic() ==> BoolShape(l) && BoolShape(r)
    ensures Eval(Neutral(op, l, r).value, mem) == Eval(Binary(op, l, r), mem)
  {
    hide Binary16, Wrap16;
    WrapSmall();
    var a, b := Eval(l, mem).value, Eval(r, mem).value;
    if op.IsLogic() {
      BoolShapeValue(l, mem);
      BoolShapeValue(r, mem);
      LogicNeutral(op, a, b);
    } else {
      ArithmeticNeutral(op, a, b);
    }
  }

  lemma WrapSmall()
    ensures Wrap16(-1) == -1 && Wrap16(0) == 0 && Wrap16(1) == 1
  {
  }

  lemma LogicNeutral(op: BinOp, a: int16, b: int16)
    requires op.IsLogic() && 0 <= a <= 1 && 0 <= b <= 1
    ensures a == Truth(op == And) ==> Binary16(op, a, b) == Some(b)
    ensures b == Truth(op == And) ==> Binary16(op, a, b) == Some(a)
  {
    hide Wrap16, Bitwise, Pow2, TruncDiv, TruncMod;
    WrapSmall();
  }

  lemma ArithmeticNeutral(op: BinOp, a: int16, b: int16)
    ensures (op == Mult && a == 1) || ((op == Add || op == BitOr) && a == 0) || (op == BitAnd && a == -1) ==>
              Binary16(op, a, b) == Some(b)
    ensures (op == Mult || op == Div) && b == 1 ==> Binary16(op, a, b) == Some(a)
    ensures ((op == Add || op == Sub || op == BitOr) && b == 0) || (op == BitAnd && b == -1) ==>
              Binary16(op, a, b) == Some(a)
  {
    hide Wrap16, Bitwise, Pow2, TruncDiv, TruncMod;
    WrapOfWord(a);
    WrapOfWord(b);
    OrWithUnit(a, b);
    AndWithUnit(a, b);
    DivByOne(a);
  }

  lemma DivByOne(a: int)
    ensures TruncDiv(a, 1) == a
  {
  }

  lemma BoolShapeValue(e: Expr, mem: seq<int16>)
    requires BoolShape(e) && Eval(e, mem).Some?
    ensures Eval(e, mem).value == 0 || Eval(e, mem).value == 1
  {
    if BoolNode(e) {
      BoolNodeValue(e, mem);
    }
  }

  lemma OrWithUnit(a: int16, b: int16)
    ensures b == 0 ==> Bitwise(OrBits, a, b) == a
    ensures a == 0 ==> Bitwise(OrBits, a, b) == b
    ensures a == -1 || b == -1 ==> Bitwise(OrBits, a, b) == -1
  {
    BitwiseUnit(OrBits, a);
    BitwiseUnit(OrBits, b);
  }

  lemma AndWithUnit(a: int16, b: int16)
    ensures b == -1 ==> Bitwise(AndBits, a, b) == a
    ensures a == -1 ==> Bitwise(AndBits, a, b) == b
    ensures a == 0 || b == 0 ==> Bitwise(AndBits, a, b) == 0
  {
    BitwiseUnit(AndBits, a);
    BitwiseUnit(AndBits, b);
  }

  lemma AbsorbingValue(op: BinOp, a: int16, b: int16)
    ensures (op == Mult || op == BitAnd || op == And) && (a == 0 || b == 0) ==> Binary16(op, a, b) == Some(0)
    ensures op == BitOr && (a == -1 || b == -1) ==> Binary16(op, a, b) == Some(-1)
    ensures op == Or && (a == 1 || b == 1) ==> Binary16(op, a, b) == Some(1)
  {
    hide Wrap16, Bitwise, Pow2, TruncDiv, TruncMod;
    WrapSmall();
    OrWithUnit(a, b);
    AndWithUnit(a, b);
  }

  lemma AbsorbedAgrees(op: BinOp, l: Expr, r: Expr, mem: seq<int16>)
    requires Absorbed(op, l, r).Some? && Eval(Binary(op, l, r), mem).Some?
    requires op.IsLogic() ==> BoolShape(l) && BoolShape(r)
    ensures Some(Wrap16(Absorbed(op, l, r).value)) == Eval(Binary(op, l, r), mem)
  {
    hide Binary16, Wrap16;
    WrapSmall();
    AbsorbingValue(op, Eval(l, mem).value, Eval(r, mem).value);
  }

  lemma StrengthAgrees(op: BinOp, l: Expr, r: Expr, mem: seq<int16>)
    requires Strength(op, l, r).Ok? && Eval(Binary(op, l, r), mem).Some?
    requires Neutral(op, l, r).None?
    requires op == Div && r.Imm? && IsPOT(r.value) ==> ShiftExact(Eval(l, mem).value, ShiftFromPOT(r.value))
    ensures Eval(Strength(op, l, r).value, mem) == Eval(Binary(op, l, r), mem)
  {
    if r.Imm? && IsPOT(r.value) {
      var a := Eval(l, mem).value;
      if op == Mult {
        ShiftMultiplies(a, r.value);
        WrapOfWord(ShiftFromPOT(r.value));
      } else if op == Div {
        DivisorPower(r.value);
        ShiftDivisionExact(a, ShiftFromPOT(r.value));
        WrapOfWord(ShiftFromPOT(r.value));
      }
    }
  }

  lemma OptBinaryAgrees(op: BinOp, l: Expr, r: Expr, mem: seq<int16>)
    requires OperandShapes(op, l, r)
    requires OptBinary(op, l, r).Ok? && Eval(Binary(op, l, r), mem).Some?
    requires l.Imm? && r.Imm? ==> Foldable(op, l.value, r.value)
    requires op == Div && !l.Imm? && r.Imm? && IsPOT(r.value) ==>
               r.value == 1 || ShiftExact(Eval(l, mem).value, ShiftFromPOT(r.value))
    ensures Eval(OptBinary(op, l, r).value, mem) == Eval(Binary(op, l, r), mem)
  {
    if l.Imm? && r.Imm? {
      FoldAgrees(op, l.value, r.value);
    } else if Neutral(op, l, r).Some? {
      NeutralAgrees(op, l, r, mem);
    } else if Absorbed(op, l, r).Some? {
      AbsorbedAgrees(op, l, r, mem);
    } else {
      StrengthAgrees(op, l, r, mem);
    }
  }

  lemma OptUnaryAgrees(op: UnOp, a: Expr, mem: seq<int16>)
    requires if op == Not then BoolShape(a) else IntShape(a)
    requires OptUnary(op, a).Ok? && Eval(a, mem).Some?
    requires op == Abs && a.Imm? ==> AbsFoldable(a.value)
    ensures Eval(OptUnary(op, a).value, mem) == Some(Unary16(op, Eval(a, mem).value))
  {
    if a.Imm? {
      FoldUnaryAgrees(op, a.value);
    } else if op == Not {
      DeMorganNegates(a, mem);
    }
  }

  /** A constant index inside the array is the one the machine computes. */
  lemma OptArrayReadAgrees(base: nat, size: nat, i: Expr, j: Expr, mem: seq<int16>)
    requires size <= 65536 && Eval(ArrayRead(base, size, i), mem).Some? && Eval(j, mem) == Eval(i, mem)
    ensures j.Imm? && 0 <= j.value < size ==> Eval(Load(base + j.value), mem) == Eval(ArrayRead(base, size, i), mem)
    ensures Eval(ArrayRead(base, size, j), mem) == Eval(ArrayRead(base, size, i), mem)
  {
  }

  /** An expression that evaluates without fault keeps its value. */
  lemma {:induction false} OptExprRefines(e: Expr, t: Type, mem: seq<int16>)
    requires WellTyped(e, t) && OptExpr(e).Ok?
    requires InDomain(e, mem) && Eval(e, mem).Some?
    ensures Eval(OptExpr(e).value, mem) == Eval(e, mem)
  {
    hide OptBinary, OptUnary, Binary16, Unary16, Foldable, AbsFoldable, ShiftExact, IsPOT, ShiftFromPOT,
         IntShape, BoolShape;
    match e
    case Imm(_) =>
    case Load(_) =>
    case ArrayRead(base, size, i) =>
      OptExprRefines(i, IntType, mem);
      OptArrayReadAgrees(base, size, i, OptExpr(i).value, mem);
    case Unary(op, a) =>
      var u := if op == Not then BoolType else IntType;
      OptExprRefines(a, u, mem);
      OptExprShape(a, u);
      OptUnaryAgrees(op, OptExpr(a).value, mem);
    case Binary(op, l, r) =>
      var u := if op.IsLogic() then BoolType else IntType;
      OptExprRefines(l, u, mem);
      OptExprRefines(r, u, mem);
      OptExprShape(l, u);
      OptExprShape(r, u);
      var x, y := OptExpr(l).value, OptExpr(r).value;
      assert Eval(Binary(op, x, y), mem) == Eval(e, mem);
      OptBinaryAgrees(op, x, y, mem);
  }

  lemma OptTargetRefines(t: Target, mem: seq<int16>)
    requires TargetTyped(t) && OptTarget(t).Ok?
    requires TargetInDomain(t, mem) && EvalTarget(t, mem).Some?
    ensures EvalTarget(OptTarget(t).value, mem) == EvalTarget(t, mem)
  {
    hide OptExpr, InDomain, IndexesTyped, TypeOf, Wrap16;
    if t.ArrayWrite? {
      OptExprRefines(t.index, IntType, mem);
      var i := OptExpr(t.index).value;
      if i.Imm? {
        ConstantIndex(i.value);
      }
    }
  }

  /** A constant below 2^16 whose word is not negative is that word. */
  lemma ConstantIndex(v: int)
    ensures 0 <= v < 65536 && Wrap16(v) >= 0 ==> Wrap16(v) == v
  {
  }

  // ----- statements -----

  /** Each subroutine body was optimized to a statement. */
  predicate SubsOptimized(subs: map<nat, Stmt>, opts: map<nat, Stmt>)
  {
    forall id | id in subs ::
      id in opts && WellTypedStmt(subs[id]) && NoWhen(subs[id]) && OptStmt(subs[id]) == Ok(Some(opts[id]))
  }

  /** Run what the optimizer left of a statement. */
  function ExecLeft(s: Option<Stmt>, subs: map<nat, Stmt>, st: State, fuel: nat): Outcome
  {
    if s.None? then Done(st) else Exec(s.value, subs, st, fuel)
  }

  lemma NoCodeRuns(s: Option<Stmt>, subs: map<nat, Stmt>, st: State, fuel: nat)
    requires NoCode(s)
    ensures ExecLeft(s, subs, st, fuel) == Done(st)
  {
    assert ExecAll([], subs, st, fuel) == Done(st);
  }

  /** A statement whose run ends, with memory and emitted events, has the same run once optimized. */
  lemma {:induction false} OptStmtRefines(s: Stmt, subs: map<nat, Stmt>, opts: map<nat, Stmt>, st: State, fuel: nat)
    requires WellTypedStmt(s) && NoWhen(s) && OptStmt(s).Ok? && SubsOptimized(subs, opts)
    requires RunInDomain(s, subs, st, fuel) && Exec(s, subs, st, fuel).Ends()
    ensures ExecLeft(OptStmt(s).value, opts, st, fuel) == Exec(s, subs, st, fuel)
    decreases fuel, s
  {
    match s
    case Block(stmts) => OptAllRefines(stmts, subs, opts, st, fuel);
    case Assign(target, value) =>
      OptTargetRefines(target, st.mem);
      OptExprRefines(value, IntType, st.mem);
    case IfWhen(edge, cond, thn, els) =>
      OptExprRefines(cond, BoolType, st.mem);
      OptExprShape(cond, BoolType);
      if Eval(cond, st.mem).value != 0 {
        OptStmtRefines(thn, subs, opts, st, fuel);
      } else if els.Some? {
        OptStmtRefines(els.value, subs, opts, st, fuel);
      }
      var f := if els.Some? then OptStmt(els.value) else Ok(None);
      OptIfRuns(edge, OptExpr(cond).value, OptStmt(thn).value, f.value, opts, st, fuel);
    case While(cond, body) => OptWhileRefines(cond, body, subs, opts, st, fuel);
    case Emit(_, _, _, pre) => OptEachRefines(pre, subs, opts, st, fuel);
    case CallSub(id) => OptStmtRefines(subs[id], subs, opts, st, fuel - 1);
    case Return =>
  }

  lemma {:induction false} OptAllRefines(
      stmts: seq<Stmt>, subs: map<nat, Stmt>, opts: map<nat, Stmt>, st: State, fuel: nat)
    requires (forall t | t in stmts :: WellTypedStmt(t) && NoWhen(t)) && OptAll(stmts).Ok? && SubsOptimized(subs, opts)
    requires RunAllInDomain(stmts, subs, st, fuel) && ExecAll(stmts, subs, st, fuel).Ends()
    ensures ExecAll(OptAll(stmts).value, opts, st, fuel) == ExecAll(stmts, subs, st, fuel)
    decreases fuel, stmts
  {
    if stmts != [] {
      OptStmtRefines(stmts[0], subs, opts, st, fuel);
      var o := Exec(stmts[0], subs, st, fuel);
      if o.Done? {
        OptAllRefines(stmts[1..], subs, opts, o.st, fuel);
      }
      var s := OptStmt(stmts[0]).value;
      if NoCode(s) {
        NoCodeRuns(s, opts, st, fuel);
      } else {
        assert ([s.value] + OptAll(stmts[1..]).value)[1..] == OptAll(stmts[1..]).value;
      }
    }
  }

  lemma {:induction false} OptEachRefines(
      stmts: seq<Stmt>, subs: map<nat, Stmt>, opts: map<nat, Stmt>, st: State, fuel: nat)
    requires (forall t | t in stmts :: WellTypedStmt(t) && NoWhen(t)) && OptEach(stmts).Ok? && SubsOptimized(subs, opts)
    requires RunAllInDomain(stmts, subs, st, fuel) && ExecAll(stmts, subs, st, fuel).Ends()
    ensures ExecAll(OptEach(stmts).value, opts, st, fuel) == ExecAll(stmts, subs, st, fuel)
    decreases fuel, stmts
  {
    if stmts != [] {
      OptStmtRefines(stmts[0], subs, opts, st, fuel);
      var o := Exec(stmts[0], subs, st, fuel);
      if o.Done? {
        OptEachRefines(stmts[1..], subs, opts, o.st, fuel);
      }
      var s := OptStmt(stmts[0]).value;
      assert ([s.value] + OptEach(stmts[1..]).value)[1..] == OptEach(stmts[1..]).value;
    }
  }

  /** What is left of an if runs the branch that its condition selects. */
  lemma OptIfRuns(edge: bool, c: Expr, t: Option<Stmt>, f: Option<Stmt>, opts: map<nat, Stmt>, st: State, fuel: nat)
    requires OptIf(edge, c, t, f).Ok? && Eval(c, st.mem).Some? && BoolShape(c)
    ensures ExecLeft(OptIf(edge, c, t, f).value, opts, st, fuel) ==
            ExecLeft(if Eval(c, st.mem).value != 0 then t else f, opts, st, fuel)
  {
    var o := OptIf(edge, c, t, f).value;
    if NoCode(t) && NoCode(f) {
      NoCodeRuns(t, opts, st, fuel);
      NoCodeRuns(f, opts, st, fuel);
    } else if !c.Imm? {
      NoCodeRuns(Some(Block([])), opts, st, fuel);
      assert c == Binary(c.op, c.left, c.right);
    }
  }

  lemma {:induction false} OptWhileRefines(
      cond: Expr, body: Stmt, subs: map<nat, Stmt>, opts: map<nat, Stmt>, st: State, fuel: nat)
    requires var s := While(cond, body);
             && WellTypedStmt(s) && NoWhen(s) && OptStmt(s).Ok? && SubsOptimized(subs, opts)
             && RunInDomain(s, subs, st, fuel) && Exec(s, subs, st, fuel).Ends()
    ensures ExecLeft(OptStmt(While(cond, body)).value, opts, st, fuel) == Exec(While(cond, body), subs, st, fuel)
    decreases fuel, body, 0
  {
    hide Eval, OptExpr, InDomain, BoolShape, SubsOptimized, WellTyped;
    var c, b := OptExpr(cond).value, OptStmt(body).value;
    OptExprRefines(cond, BoolType, st.mem);
    OptExprShape(cond, BoolType);
    if Eval(cond, st.mem).value != 0 {
      OptStmtRefines(body, subs, opts, st, fuel - 1);
      var o := Exec(body, subs, st, fuel - 1);
      if o.Done? {
        OptWhileRefines(cond, body, subs, opts, o.st, fuel - 1);
      }
      if NoCode(b) {
        NoCodeRuns(b, opts, st, fuel - 1);
      }
      OptWhileTurn(c, b, opts, st, fuel);
    } else {
      OptWhileExit(c, b, opts, st, fuel);
    }
  }

  /** One turn of what is left of a loop whose condition holds. */
  lemma OptWhileTurn(c: Expr, b: Option<Stmt>, opts: map<nat, Stmt>, st: State, fuel: nat)
    requires OptWhile(c, b).Ok? && BoolShape(c) && Eval(c, st.mem).Some? && Eval(c, st.mem).value != 0
    requires fuel > 0 && ExecLeft(b, opts, st, fuel - 1).Ends()
    ensures ExecLeft(OptWhile(c, b).value, opts, st, fuel) ==
            if NoCode(b) then Done(st)
            else
              var o := ExecLeft(b, opts, st, fuel - 1);
              if o.Done? then ExecLeft(OptWhile(c, b).value, opts, o.st, fuel - 1) else o
  {
    if !NoCode(b) {
      assert c == Binary(c.op, c.left, c.right);
    }
  }

  lemma OptWhileExit(c: Expr, b: Option<Stmt>, opts: map<nat, Stmt>, st: State, fuel: nat)
    requires OptWhile(c, b).Ok? && BoolShape(c) && Eval(c, st.mem) == Some(0) && fuel > 0
    ensures ExecLeft(OptWhile(c, b).value, opts, st, fuel) == Done(st)
  {
    if OptWhile(c, b).value.Some? {
      assert c == Binary(c.op, c.left, c.right);
    }
  }
}
