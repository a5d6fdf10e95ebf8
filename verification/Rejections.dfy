/** Exactly which programs the optimizer rejects, and for what. */
module Rejections {
  import opened Words
  import opened Tree
  import opened Semantics
  import opened Optimizer
  import opened OptimizerShape
  import opened OptimizerCorrectness
  import opened PreLink
  import opened Pipeline

  // ----- what a node is rejected for -----

  datatype Node = OfExpr(e: Expr) | OfTarget(t: Target) | OfStmt(s: Stmt)

  /** A constant index outside its array. */
  predicate Outside(index: Expr, size: nat) {
    Constant(index).Some? && !(0 <= Constant(index).value < size)
  }

  /** The result is one that C++ defines for thirty-two-bit integers. */
  predicate Representable(op: BinOp, a: int, b: int)
  {
    && (op in {ShiftLeft, ShiftRight} ==> 0 <= b < 32)
    && (IntOp(op, a, b).Some? ==> -0x8000_0000 <= IntOp(op, a, b).value < 0x8000_0000)
  }

  /** The error of a node whose operands are optimized. */
  function ExprError(e: Expr): Option<CompileError>
  {
    match e
    case Imm(_) => None
    case Load(_) => None
    case ArrayRead(_, size, i) => if Outside(i, size) then Some(ArrayOutOfBoundRead) else None
    case Unary(op, a) =>
      if op == Abs && Constant(a) == Some(-32768) then Some(AbsNotPossible)
      else if op in {Abs, Neg} && Constant(a) == Some(-0x8000_0000) then Some(Undefined)
      else if op == Not && Misplaced(a) then Some(Abort)
      else None
    case Binary(op, l, r) =>
      if Constant(r) == Some(0) && (op == Div || (op == Mod && Constant(l).Some?)) then Some(DivisionByZero)
      else if Constant(l).Some? && Constant(r).Some? && !Representable(op, Constant(l).value, Constant(r).value)
      then Some(Undefined)
      else None
  }

  /** The operands of a condition are compared, or it is a constant. */
  predicate Foldable(cond: Expr) { OptExpr(cond).Ok? && (OptExpr(cond).value.Imm? || OptExpr(cond).value.Binary?) }

  predicate Vanishes(s: Stmt) { OptStmt(s) == Ok(None) }

  /** No code is left of the statement. */
  predicate Idle(s: Stmt) {
    OptStmt(s).Ok? && (OptStmt(s).value.None? || OptStmt(s).value.value == Block([]))
  }

  function StmtError(s: Stmt): Option<CompileError>
  {
    match s
    case IfWhen(_, cond, thn, els) =>
      if Foldable(cond) || (Idle(thn) && (els.Some? ==> Idle(els.value))) then None else Some(Abort)
    case While(cond, body) =>
      if Constant(cond).Some? && Constant(cond).value != 0 then Some(InfiniteLoop)
      else if Foldable(cond) || Idle(body) then None
      else Some(Abort)
    case FoldedIf(_, _, _, _, _, _) => Some(Abort)
    case FoldedWhile(_, _, _, _) => Some(Abort)
    case Emit(_, _, _, pre) => if exists t | t in pre :: Vanishes(t) then Some(Abort) else None
    case _ => None
  }

  function NodeError(n: Node): Option<CompileError>
  {
    match n
    case OfExpr(e) => ExprError(e)
    case OfTarget(t) => if t.ArrayWrite? && Outside(t.index, t.size) then Some(ArrayOutOfBoundWrite) else None
    case OfStmt(s) => StmtError(s)
  }

  // ----- the nodes the optimizer comes to -----

  /** Children before parents, left before right, nothing after the first error. */
  function Reached(e: Expr): set<Node>
  {
    match e
    case Imm(_) => {}
    case Load(_) => {}
    case ArrayRead(_, _, i) => Reached(i) + if OptExpr(i).Ok? then {OfExpr(e)} else {}
    case Unary(_, a) => Reached(a) + if OptExpr(a).Ok? then {OfExpr(e)} else {}
    case Binary(_, l, r) =>
      Reached(l) +
      if OptExpr(l).Err? then {} else Reached(r) + if OptExpr(r).Ok? then {OfExpr(e)} else {}
  }

  function TargetReached(t: Target): set<Node>
  {
    if t.Store? then {} else Reached(t.index) + if OptExpr(t.index).Ok? then {OfTarget(t)} else {}
  }

  function StmtReached(s: Stmt): set<Node>
  {
    match s
    case Block(stmts) => AllReached(stmts)
    case Assign(target, value) => TargetReached(target) + if OptTarget(target).Ok? then Reached(value) else {}
    case IfWhen(_, cond, thn, els) =>
      Reached(cond) +
      if OptExpr(cond).Err? then {} else
      StmtReached(thn) +
      if OptStmt(thn).Err? then {}
      else if els.None? then {OfStmt(s)}
      else StmtReached(els.value) + if OptStmt(els.value).Ok? then {OfStmt(s)} else {}
    case While(cond, body) =>
      Reached(cond) +
      if OptExpr(cond).Err? then {} else StmtReached(body) + if OptStmt(body).Ok? then {OfStmt(s)} else {}
    case FoldedIf(_, _, _, _, _, _) => {OfStmt(s)}
    case FoldedWhile(_, _, _, _) => {OfStmt(s)}
    case Emit(_, _, _, pre) => AllReached(pre) + if forall t | t in pre :: OptStmt(t).Ok? then {OfStmt(s)} else {}
    case CallSub(_) => {}
    case Return => {}
  }

  function AllReached(stmts: seq<Stmt>): set<Node>
  {
    if stmts == [] then {} else StmtReached(stmts[0]) + if OptStmt(stmts[0]).Ok? then AllReached(stmts[1..]) else {}
  }

  predicate Raised(nodes: set<Node>, error: CompileError) { exists n | n in nodes :: NodeError(n) == Some(error) }

  lemma RaisedUnion(a: set<Node>, b: set<Node>, error: CompileError)
    ensures Raised(a + b, error) <==> Raised(a, error) || Raised(b, error)
  {
    hide NodeError;
    if n :| n in a && NodeError(n) == Some(error) {
      assert n in a + b;
    }
    if n :| n in b && NodeError(n) == Some(error) {
      assert n in a + b;
    }
  }

  lemma RaisedOne(n: Node, error: CompileError)
    ensures Raised({n}, error) <==> NodeError(n) == Some(error)
    ensures !Raised({}, error)
  {
    hide NodeError;
    assert n in {n};
  }

  // ----- expressions -----

  lemma FoldError(op: BinOp, a: int32, b: int32)
    ensures Fold(op, a, b) ==
            if op in {Div, Mod} && b == 0 then Err(DivisionByZero)
            else if !Representable(op, a, b) then Err(Undefined)
            else Ok(IntOp(op, a, b).value)
  {
    hide Bitwise, Pow2, TruncDiv, TruncMod;
  }

  lemma UnaryError(op: UnOp, a: Expr)
    requires OptExpr(a).Ok?
    ensures var r := OptUnary(op, OptExpr(a).value);
            if ExprError(Unary(op, a)).Some? then r == Err(ExprError(Unary(op, a)).value) else r.Ok?
  {
    hide LogicTree, DeMorgan, OptExpr;
    DeMorganExact(OptExpr(a).value);
  }

  lemma BinaryError(op: BinOp, l: Expr, r: Expr)
    requires OptExpr(l).Ok? && OptExpr(r).Ok?
    ensures var b := OptBinary(op, OptExpr(l).value, OptExpr(r).value);
            if ExprError(Binary(op, l, r)).Some? then b == Err(ExprError(Binary(op, l, r)).value) else b.Ok?
  {
    hide OptExpr, IntOp;
    var x, y := OptExpr(l).value, OptExpr(r).value;
    if x.Imm? && y.Imm? {
      FoldError(op, x.value, y.value);
    }
  }

  /** Whatever the expression, the optimizer reports an error if and only if it comes to a node that
      deserves this error. */
  lemma {:induction false} OptExprErrorExact(e: Expr, error: CompileError)
    ensures OptExpr(e) == Err(error) <==> Raised(Reached(e), error)
  {
    hide Raised, ExprError, OptBinary, OptUnary, Constant;
    RaisedOne(OfExpr(e), error);
    match e
    case Imm(_) =>
    case Load(_) =>
    case ArrayRead(_, size, i) =>
      OptExprErrorExact(i, error);
      RaisedUnion(Reached(i), if OptExpr(i).Ok? then {OfExpr(e)} else {}, error);
      ReadError(e);
    case Unary(op, a) =>
      OptExprErrorExact(a, error);
      RaisedUnion(Reached(a), if OptExpr(a).Ok? then {OfExpr(e)} else {}, error);
      if OptExpr(a).Ok? {
        UnaryError(op, a);
      }
    case Binary(op, l, r) =>
      OptExprErrorExact(l, error);
      OptExprErrorExact(r, error);
      var own := if OptExpr(r).Ok? then {OfExpr(e)} else {};
      RaisedUnion(Reached(l), if OptExpr(l).Err? then {} else Reached(r) + own, error);
      RaisedUnion(Reached(r), own, error);
      if OptExpr(l).Ok? && OptExpr(r).Ok? {
        BinaryError(op, l, r);
      }
  }

  lemma ReadError(e: Expr)
    requires e.ArrayRead?
    ensures OptExpr(e.index).Ok? ==>
              if ExprError(e).Some? then OptExpr(e) == Err(ExprError(e).value) else OptExpr(e).Ok?
  {
  }

  lemma OptTargetErrorExact(t: Target, error: CompileError)
    ensures OptTarget(t) == Err(error) <==> Raised(TargetReached(t), error)
  {
    hide Raised, OptExpr;
    RaisedOne(OfTarget(t), error);
    if t.ArrayWrite? {
      OptExprErrorExact(t.index, error);
      RaisedUnion(Reached(t.index), if OptExpr(t.index).Ok? then {OfTarget(t)} else {}, error);
    }
  }

  // ----- statements -----

  /** The same for statements: what the optimizer rejects and why. */
  lemma {:induction false} OptStmtErrorExact(s: Stmt, error: CompileError)
    ensures OptStmt(s) == Err(error) <==> Raised(StmtReached(s), error)
    decreases s, 1
  {
    hide Raised, OptExpr, OptTarget, Constant;
    RaisedOne(OfStmt(s), error);
    match s
    case Block(stmts) => OptAllErrorExact(stmts, error);
    case Assign(target, value) =>
      OptTargetErrorExact(target, error);
      OptExprErrorExact(value, error);
      RaisedUnion(TargetReached(target), if OptTarget(target).Ok? then Reached(value) else {}, error);
    case IfWhen(_, _, _, _) => OptIfErrorExact(s, error);
    case While(cond, body) =>
      OptExprErrorExact(cond, error);
      OptStmtErrorExact(body, error);
      var own := if OptStmt(body).Ok? then {OfStmt(s)} else {};
      RaisedUnion(Reached(cond), if OptExpr(cond).Err? then {} else StmtReached(body) + own, error);
      RaisedUnion(StmtReached(body), own, error);
      WhileError(s);
    case FoldedIf(_, _, _, _, _, _) =>
    case FoldedWhile(_, _, _, _) =>
    case Emit(_, _, _, pre) =>
      OptAllErrorExact(pre, error);
      OptEachResult(pre);
      RaisedUnion(AllReached(pre), if forall t | t in pre :: OptStmt(t).Ok? then {OfStmt(s)} else {}, error);
      OptAllResult(pre);
    case CallSub(_) =>
    case Return =>
  }

  lemma WhileError(s: Stmt)
    requires s.While?
    ensures OptExpr(s.cond).Ok? && OptStmt(s.body).Ok? ==>
              if StmtError(s).Some? then OptStmt(s) == Err(StmtError(s).value) else OptStmt(s).Ok?
  {
    hide OptExpr;
    if OptExpr(s.cond).Ok? && OptStmt(s.body).Ok? {
      assert OptStmt(s) == OptWhile(OptExpr(s.cond).value, OptStmt(s.body).value);
    }
  }

  lemma {:induction false} OptIfErrorExact(s: Stmt, error: CompileError)
    requires s.IfWhen?
    ensures OptStmt(s) == Err(error) <==> Raised(StmtReached(s), error)
    decreases s, 0
  {
    hide Raised, OptExpr, Constant;
    var own := if s.els.None? || OptStmt(s.els.value).Ok? then {OfStmt(s)} else {};
    RaisedOne(OfStmt(s), error);
    OptExprErrorExact(s.cond, error);
    OptStmtErrorExact(s.thn, error);
    if s.els.Some? {
      OptStmtErrorExact(s.els.value, error);
      RaisedUnion(StmtReached(s.els.value), own, error);
    }
    var other := if s.els.Some? then StmtReached(s.els.value) + own else own;
    var rest := StmtReached(s.thn) + if OptStmt(s.thn).Err? then {} else other;
    RaisedUnion(StmtReached(s.thn), if OptStmt(s.thn).Err? then {} else other, error);
    RaisedUnion(Reached(s.cond), if OptExpr(s.cond).Ok? then rest else {}, error);
    assert StmtReached(s) == Reached(s.cond) + if OptExpr(s.cond).Ok? then rest else {};
    IfError(s);
  }

  lemma IfError(s: Stmt)
    requires s.IfWhen?
    ensures OptExpr(s.cond).Ok? && OptStmt(s.thn).Ok? && (s.els.Some? ==> OptStmt(s.els.value).Ok?) ==>
              if StmtError(s).Some? then OptStmt(s) == Err(StmtError(s).value) else OptStmt(s).Ok?
  {
    hide OptExpr;
  }

  lemma {:induction false} OptAllErrorExact(stmts: seq<Stmt>, error: CompileError)
    ensures OptAll(stmts) == Err(error) <==> Raised(AllReached(stmts), error)
    decreases stmts, 0
  {
    hide Raised, OptStmt, StmtReached;
    if stmts == [] {
      RaisedOne(OfStmt(Return), error);
    } else {
      OptStmtErrorExact(stmts[0], error);
      OptAllErrorExact(stmts[1..], error);
      var rest := if OptStmt(stmts[0]).Ok? then AllReached(stmts[1..]) else {};
      RaisedOne(OfStmt(Return), error);
      RaisedUnion(StmtReached(stmts[0]), rest, error);
      assert AllReached(stmts) == StmtReached(stmts[0]) + rest;
    }
  }

  lemma {:induction false} OptAllResult(stmts: seq<Stmt>)
    ensures OptAll(stmts).Ok? <==> forall t | t in stmts :: OptStmt(t).Ok?
  {
    if stmts != [] {
      OptAllResult(stmts[1..]);
      assert stmts[0] in stmts;
      assert forall t :: t in stmts <==> t == stmts[0] || t in stmts[1..];
    }
  }

  /** The children of an emit: the same errors, and none of them may vanish. */
  lemma {:induction false} OptEachResult(stmts: seq<Stmt>)
    ensures OptAll(stmts).Err? ==> OptEach(stmts) == Err(OptAll(stmts).error)
    ensures OptAll(stmts).Ok? ==>
              if exists t | t in stmts :: Vanishes(t) then OptEach(stmts) == Err(Abort) else OptEach(stmts).Ok?
  {
    hide OptStmt;
    if stmts != [] {
      OptEachResult(stmts[1..]);
      assert stmts[0] in stmts;
      assert forall t :: t in stmts <==> t == stmts[0] || t in stmts[1..];
    }
  }

  /** The optimizer accepts a statement if and only if it comes to no node with an error. */
  lemma OptStmtAcceptsExact(s: Stmt)
    ensures OptStmt(s).Ok? <==> forall n | n in StmtReached(s) :: NodeError(n).None?
  {
    hide NodeError, OptStmt, StmtReached;
    if OptStmt(s).Err? {
      OptStmtErrorExact(s, OptStmt(s).error);
    }
    if n :| n in StmtReached(s) && NodeError(n).Some? {
      OptStmtErrorExact(s, NodeError(n).value);
    }
  }

  // ----- programs -----

  function ProgramReached(children: seq<TopLevel>): set<Node>
    decreases |children|
  {
    if children == [] then {}
    else if !children[0].Code? then ProgramReached(children[1..])
    else StmtReached(children[0].s) + if OptStmt(children[0].s).Ok? then ProgramReached(children[1..]) else {}
  }

  lemma {:induction false} OptProgramErrorExact(children: seq<TopLevel>, error: CompileError)
    ensures OptProgram(children) == Err(error) <==> Raised(ProgramReached(children), error)
    decreases |children|
  {
    hide Raised, OptStmt, StmtReached;
    if children == [] {
      RaisedOne(OfStmt(Return), error);
    } else {
      OptProgramErrorExact(children[1..], error);
      if children[0].Code? {
        var s := children[0].s;
        OptStmtErrorExact(s, error);
        var rest := if OptStmt(s).Ok? then ProgramReached(children[1..]) else {};
        RaisedOne(OfStmt(Return), error);
        RaisedUnion(StmtReached(s), rest, error);
        assert ProgramReached(children) == StmtReached(s) + rest;
      }
    }
  }

  // ----- division by zero -----

  /** An expression that can be evaluated inside the optimizer's domain is never rejected for a
      division by zero. */
  lemma {:induction false} NoFalseDivision(e: Expr, t: Type, mem: seq<int16>)
    requires WellTyped(e, t) && InDomain(e, mem) && Eval(e, mem).Some?
    ensures OptExpr(e) != Err(DivisionByZero)
  {
    hide OptBinary, OptUnary, Binary16, Unary16, ExprError, Element;
    match e
    case Imm(_) =>
    case Load(_) =>
    case ArrayRead(_, _, i) => NoFalseDivision(i, IntType, mem);
    case Unary(op, a) =>
      NoFalseDivision(a, if op == Not then BoolType else IntType, mem);
      if OptExpr(a).Ok? {
        UnaryError(op, a);
        UnaryNeverDivides(op, a);
      }
    case Binary(op, l, r) =>
      var u := if op.IsLogic() then BoolType else IntType;
      NoFalseDivision(l, u, mem);
      NoFalseDivision(r, u, mem);
      if OptExpr(l).Ok? && OptExpr(r).Ok? {
        OptExprRefines(r, u, mem);
        BinaryError(op, l, r);
        DividesByZero(op, l, r, mem);
      }
  }

  lemma UnaryNeverDivides(op: UnOp, a: Expr)
    ensures ExprError(Unary(op, a)) != Some(DivisionByZero)
  {
  }

  lemma DividesByZero(op: BinOp, l: Expr, r: Expr, mem: seq<int16>)
    requires Eval(Binary(op, l, r), mem).Some? && OptExpr(r).Ok? && Eval(OptExpr(r).value, mem) == Eval(r, mem)
    ensures ExprError(Binary(op, l, r)) != Some(DivisionByZero)
  {
    hide OptExpr, Bitwise, Pow2, TruncDiv, TruncMod;
    assert Wrap16(0) == 0;
  }
}
