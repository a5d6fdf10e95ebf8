/** The optimizer never aborts on a well-typed tree and leaves trees ready for code generation. */
module OptimizerShape {
  import opened Words
  import opened PowerOfTwo
  import opened Tree
  import opened Semantics
  import opened Optimizer
  import opened Shapes

  /** De Morgan succeeds on the boolean nodes that optimization leaves, and keeps them so. */
  lemma {:induction false} DeMorganShape(e: Expr)
    requires BoolNode(e)
    ensures DeMorgan(e).Ok? && BoolNode(DeMorgan(e).value)
  {
    if e.op.IsLogic() {
      DeMorganShape(e.left);
      DeMorganShape(e.right);
    }
  }

  lemma FoldShape(op: BinOp, a: int32, b: int32)
    ensures Fold(op, a, b) != Err(Abort)
    ensures Fold(op, a, b).Ok? && !op.IsArithmetic() ==> Fold(op, a, b).value == 0 || Fold(op, a, b).value == 1
  {
  }

  predicate OperandShapes(op: BinOp, l: Expr, r: Expr) {
    if op.IsLogic() then BoolShape(l) && BoolShape(r) else IntShape(l) && IntShape(r)
  }

  predicate ResultShape(op: BinOp, e: Expr) { if op.IsArithmetic() then IntShape(e) else BoolShape(e) }

  lemma {:induction false} NeutralShape(op: BinOp, l: Expr, r: Expr)
    requires OperandShapes(op, l, r) && Neutral(op, l, r).Some?
    ensures ResultShape(op, Neutral(op, l, r).value)
  {
  }

  lemma {:induction false} AbsorbedShape(op: BinOp, l: Expr, r: Expr)
    requires Absorbed(op, l, r).Some?
    ensures ResultShape(op, Imm(Absorbed(op, l, r).value))
  {
  }

  lemma {:induction false} StrengthShape(op: BinOp, l: Expr, r: Expr)
    requires OperandShapes(op, l, r) && !(l.Imm? && r.Imm?)
    requires Neutral(op, l, r).None? && Absorbed(op, l, r).None?
    ensures Strength(op, l, r) != Err(Abort)
    ensures Strength(op, l, r).Ok? ==> ResultShape(op, Strength(op, l, r).value)
  {
  }

  lemma {:induction false} OptBinaryShape(op: BinOp, l: Expr, r: Expr)
    requires OperandShapes(op, l, r)
    ensures OptBinary(op, l, r) != Err(Abort)
    ensures OptBinary(op, l, r).Ok? ==> ResultShape(op, OptBinary(op, l, r).value)
  {
    if l.Imm? && r.Imm? {
      FoldShape(op, l.value, r.value);
    } else if Neutral(op, l, r).Some? {
      NeutralShape(op, l, r);
    } else if Absorbed(op, l, r).Some? {
      AbsorbedShape(op, l, r);
    } else {
      StrengthShape(op, l, r);
    }
  }

  /** A tree that type-checks, indexes included, optimizes without a failing cast. A boolean one
      becomes a constant or a tree of comparisons under and/or, with no `not` left. */
  lemma {:induction false} OptExprShape(e: Expr, t: Type)
    requires WellTyped(e, t)
    ensures OptExpr(e) != Err(Abort)
    ensures OptExpr(e).Ok? ==> Shape(OptExpr(e).value, t)
  {
    match e
    case Imm(_) =>
    case Load(_) =>
    case ArrayRead(_, _, i) => OptExprShape(i, IntType);
    case Unary(op, a) =>
      OptExprShape(a, if op == Not then BoolType else IntType);
      if OptExpr(a).Ok? && op == Not && OptExpr(a).value.Binary? {
        DeMorganShape(OptExpr(a).value);
      }
    case Binary(op, l, r) =>
      var u := if op.IsLogic() then BoolType else IntType;
      OptExprShape(l, u);
      OptExprShape(r, u);
      if OptExpr(l).Ok? && OptExpr(r).Ok? {
        OptBinaryShape(op, OptExpr(l).value, OptExpr(r).value);
      }
  }

  lemma OptTargetShape(t: Target)
    requires TargetTyped(t)
    ensures OptTarget(t) != Err(Abort)
    ensures OptTarget(t).Ok? ==> TargetShape(OptTarget(t).value)
  {
    if t.ArrayWrite? {
      OptExprShape(t.index, IntType);
    }
  }

  /** The same for statements: what is left is ready for code generation. */
  lemma {:induction false} OptStmtShape(s: Stmt)
    requires WellTypedStmt(s)
    ensures OptStmt(s) != Err(Abort)
    ensures OptStmt(s).Ok? && OptStmt(s).value.Some? ==> Emittable(OptStmt(s).value.value)
    ensures OptStmt(s).Ok? && (s.Block? || s.Assign?) ==> OptStmt(s).value.Some?
  {
    match s
    case Block(stmts) => OptAllShape(stmts);
    case Assign(target, value) =>
      OptTargetShape(target);
      OptExprShape(value, IntType);
    case IfWhen(edge, cond, thn, els) =>
      OptExprShape(cond, BoolType);
      OptStmtShape(thn);
      if els.Some? {
        OptStmtShape(els.value);
      }
    case While(cond, body) =>
      OptExprShape(cond, BoolType);
      OptStmtShape(body);
    case Emit(_, _, _, pre) => OptEachShape(pre);
    case CallSub(_) =>
    case Return =>
  }

  lemma {:induction false} OptAllShape(stmts: seq<Stmt>)
    requires forall t | t in stmts :: WellTypedStmt(t)
    ensures OptAll(stmts) != Err(Abort)
    ensures OptAll(stmts).Ok? ==> Emittable(Block(OptAll(stmts).value))
  {
    if stmts != [] {
      OptStmtShape(stmts[0]);
      OptAllShape(stmts[1..]);
    }
  }

  lemma {:induction false} OptEachShape(stmts: seq<Stmt>)
    requires forall t | t in stmts :: (t.Block? || t.Assign?) && WellTypedStmt(t)
    ensures OptEach(stmts) != Err(Abort)
    ensures OptEach(stmts).Ok? ==> Emittable(Block(OptEach(stmts).value))
  {
    if stmts != [] {
      OptStmtShape(stmts[0]);
      OptEachShape(stmts[1..]);
    }
  }

  // ----- exactly when the optimizer aborts -----

  /** Comparisons joined by and/or: what a negation can be pushed into. */
  predicate LogicTree(e: Expr)
  {
    e.Binary? && !e.op.IsArithmetic() && (e.op.IsLogic() ==> LogicTree(e.left) && LogicTree(e.right))
  }

  /** De Morgan succeeds exactly on such trees, and aborts on all others. */
  lemma {:induction false} DeMorganExact(e: Expr)
    ensures DeMorgan(e).Ok? <==> LogicTree(e)
    ensures DeMorgan(e).Ok? ==> LogicTree(DeMorgan(e).value)
    ensures DeMorgan(e).Err? ==> DeMorgan(e) == Err(Abort)
  {
    if e.Binary? && e.op.IsLogic() {
      DeMorganExact(e.left);
      DeMorganExact(e.right);
    }
  }

  /** The operand of a `not` that de Morgan cannot deal with: still a binary node after
      optimization, but not comparisons joined by and/or. */
  predicate Misplaced(a: Expr) { OptExpr(a).Ok? && OptExpr(a).value.Binary? && !LogicTree(OptExpr(a).value) }

  /** The operands of all `not` nodes the optimizer comes to, before an error stops it. */
  function Nots(e: Expr): set<Expr>
  {
    match e
    case Imm(_) => {}
    case Load(_) => {}
    case ArrayRead(_, _, i) => Nots(i)
    case Unary(op, a) => Nots(a) + (if op == Not then {a} else {})
    case Binary(_, l, r) => Nots(l) + (if OptExpr(l).Ok? then Nots(r) else {})
  }

  predicate AnyMisplaced(operands: set<Expr>) { exists a | a in operands :: Misplaced(a) }

  lemma AnyUnion(a: set<Expr>, b: set<Expr>)
    ensures AnyMisplaced(a + b) <==> AnyMisplaced(a) || AnyMisplaced(b)
  {
    hide Misplaced;
    if x :| x in a && Misplaced(x) {
      assert x in a + b;
    }
    if x :| x in b && Misplaced(x) {
      assert x in a + b;
    }
  }

  lemma AnyOne(a: Expr)
    ensures AnyMisplaced({a}) <==> Misplaced(a)
    ensures !AnyMisplaced({})
  {
    hide Misplaced;
    assert a in {a};
  }

  lemma {:induction false} NoOtherAbort(op: BinOp, l: Expr, r: Expr)
    ensures OptBinary(op, l, r) != Err(Abort)
  {
    if l.Imm? && r.Imm? {
      FoldShape(op, l.value, r.value);
    }
  }

  lemma UnaryAborts(op: UnOp, a: Expr)
    ensures OptUnary(op, a) == Err(Abort) <==> op == Not && a.Binary? && !LogicTree(a)
  {
    hide LogicTree, DeMorgan;
    DeMorganExact(a);
  }

  /** Whatever the expression, the optimizer aborts if and only if it comes to a misplaced `not`. */
  lemma {:induction false} OptExprAbortExact(e: Expr)
    ensures OptExpr(e) == Err(Abort) <==> AnyMisplaced(Nots(e))
  {
    hide AnyMisplaced, OptBinary, OptUnary, LogicTree;
    AnyOne(e);
    match e
    case Imm(_) =>
    case Load(_) =>
    case ArrayRead(_, _, i) => OptExprAbortExact(i);
    case Unary(op, a) =>
      OptExprAbortExact(a);
      AnyUnion(Nots(a), if op == Not then {a} else {});
      AnyOne(a);
      if OptExpr(a).Ok? {
        UnaryAborts(op, OptExpr(a).value);
      }
    case Binary(op, l, r) =>
      OptExprAbortExact(l);
      OptExprAbortExact(r);
      AnyUnion(Nots(l), if OptExpr(l).Ok? then Nots(r) else {});
      if OptExpr(l).Ok? && OptExpr(r).Ok? {
        NoOtherAbort(op, OptExpr(l).value, OptExpr(r).value);
      }
  }

  // ----- statements that pass the type checker -----

  /** The optimizer never fails on an array index. The parser makes sure of it: it optimizes every
      index on its own before it looks at anything else. */
  predicate IndexesSurvive(e: Expr)
  {
    match e
    case Imm(_) => true
    case Load(_) => true
    case ArrayRead(_, _, i) => OptExpr(i) != Err(Abort)
    case Unary(_, a) => IndexesSurvive(a)
    case Binary(_, l, r) => IndexesSurvive(l) && IndexesSurvive(r)
  }

  predicate TargetSurvives(t: Target) { t.ArrayWrite? ==> OptExpr(t.index) != Err(Abort) }

  /** A boolean expression the type checker accepts becomes a constant or a logic tree. */
  lemma {:induction false} TypedStaysLogic(e: Expr)
    requires TypeOf(e) == Some(BoolType) && OptExpr(e).Ok?
    ensures OptExpr(e).value.Imm? || LogicTree(OptExpr(e).value)
  {
    if e.Unary? {
      TypedStaysLogic(e.arg);
      DeMorganExact(OptExpr(e.arg).value);
    } else {
      if e.op.IsLogic() {
        TypedStaysLogic(e.left);
        TypedStaysLogic(e.right);
      }
      BooleanStaysLogic(e.op, OptExpr(e.left).value, OptExpr(e.right).value);
    }
  }

  lemma {:induction false} BooleanStaysLogic(op: BinOp, l: Expr, r: Expr)
    requires op.IsLogic() ==> (l.Imm? || LogicTree(l)) && (r.Imm? || LogicTree(r))
    ensures !op.IsArithmetic() && OptBinary(op, l, r).Ok? ==>
            OptBinary(op, l, r).value.Imm? || LogicTree(OptBinary(op, l, r).value)
  {
  }

  /** An expression the type checker accepts never aborts the optimizer unless an index does. */
  lemma {:induction false} TypedNeverAborts(e: Expr)
    requires TypeOf(e).Some? && IndexesSurvive(e)
    ensures OptExpr(e) != Err(Abort)
  {
    hide OptBinary, OptUnary, LogicTree;
    match e
    case Imm(_) =>
    case Load(_) =>
    case ArrayRead(_, _, i) =>
    case Unary(op, a) =>
      TypedNeverAborts(a);
      if OptExpr(a).Ok? {
        UnaryAborts(op, OptExpr(a).value);
        if op == Not {
          TypedStaysLogic(a);
        }
      }
    case Binary(op, l, r) =>
      TypedNeverAborts(l);
      TypedNeverAborts(r);
      if OptExpr(l).Ok? && OptExpr(r).Ok? {
        NoOtherAbort(op, OptExpr(l).value, OptExpr(r).value);
      }
  }

  /** What comes before an emit: assignments to a temporary, perhaps in blocks. */
  predicate Payload(s: Stmt) { s.Assign? || (s.Block? && forall t | t in s.stmts :: Payload(t)) }

  /** Statements as they are before optimization: no folded condition, payloads of assignments. */
  predicate Parsed(s: Stmt)
  {
    match s
    case Block(stmts) => forall t | t in stmts :: Parsed(t)
    case Assign(_, _) => true
    case IfWhen(_, _, thn, els) => Parsed(thn) && (els.Some? ==> Parsed(els.value))
    case While(_, body) => Parsed(body)
    case FoldedIf(_, _, _, _, _, _) => false
    case FoldedWhile(_, _, _, _) => false
    case Emit(_, _, _, pre) => forall t | t in pre :: Payload(t)
    case CallSub(_) => true
    case Return => true
  }

  function TargetNots(t: Target): set<Expr> { if t.ArrayWrite? then Nots(t.index) else {} }

  /** The operands of all `not` nodes the optimizer comes to in a statement, before an error. */
  function StmtNots(s: Stmt): set<Expr>
  {
    match s
    case Block(stmts) => AllNots(stmts)
    case Assign(target, value) => TargetNots(target) + (if OptTarget(target).Ok? then Nots(value) else {})
    case IfWhen(_, cond, thn, els) =>
      Nots(cond) + (if OptExpr(cond).Err? then {} else
        StmtNots(thn) + (if OptStmt(thn).Ok? && els.Some? then StmtNots(els.value) else {}))
    case While(cond, body) => Nots(cond) + (if OptExpr(cond).Ok? then StmtNots(body) else {})
    case FoldedIf(_, _, _, _, _, _) => {}
    case FoldedWhile(_, _, _, _) => {}
    case Emit(_, _, _, pre) => AllNots(pre)
    case CallSub(_) => {}
    case Return => {}
  }

  function AllNots(stmts: seq<Stmt>): set<Expr> {
    if stmts == [] then {} else StmtNots(stmts[0]) + (if OptStmt(stmts[0]).Ok? then AllNots(stmts[1..]) else {})
  }

  lemma AssignAbortExact(target: Target, value: Expr)
    ensures OptStmt(Assign(target, value)) == Err(Abort) <==> AnyMisplaced(StmtNots(Assign(target, value)))
    ensures OptStmt(Assign(target, value)).Ok? ==> OptStmt(Assign(target, value)).value.Some?
  {
    hide AnyMisplaced, OptExpr, Nots;
    AnyUnion(TargetNots(target), if OptTarget(target).Ok? then Nots(value) else {});
    AnyOne(value);
    OptExprAbortExact(value);
    if target.ArrayWrite? {
      OptExprAbortExact(target.index);
    }
  }

  lemma {:induction false} PayloadAbortExact(s: Stmt)
    requires Payload(s)
    ensures OptStmt(s) == Err(Abort) <==> AnyMisplaced(StmtNots(s))
    ensures OptStmt(s).Ok? ==> OptStmt(s).value.Some?
    decreases s
  {
    hide AnyMisplaced;
    if s.Assign? {
      AssignAbortExact(s.target, s.value);
    } else {
      PayloadsAbortExact(s.stmts);
    }
  }

  lemma {:induction false} PayloadsAbortExact(stmts: seq<Stmt>)
    requires forall t | t in stmts :: Payload(t)
    ensures OptAll(stmts) == Err(Abort) <==> AnyMisplaced(AllNots(stmts))
    ensures OptEach(stmts) == Err(Abort) <==> AnyMisplaced(AllNots(stmts))
    decreases stmts
  {
    hide AnyMisplaced, OptStmt, StmtNots;
    AnyOne(Imm(0));
    if stmts != [] {
      PayloadAbortExact(stmts[0]);
      PayloadsAbortExact(stmts[1..]);
      AnyUnion(StmtNots(stmts[0]), if OptStmt(stmts[0]).Ok? then AllNots(stmts[1..]) else {});
    }
  }

  /** A statement that passes the type checker aborts the optimizer if and only if the optimizer
      comes to a misplaced `not`, in an index or in the payload of an emit. */
  lemma {:induction false} OptStmtAbortExact(s: Stmt)
    requires TypeChecks(s) && Parsed(s)
    ensures OptStmt(s) == Err(Abort) <==> AnyMisplaced(StmtNots(s))
    decreases s, 1
  {
    hide AnyMisplaced, OptExpr, Nots, LogicTree;
    AnyOne(Imm(0));
    match s
    case Block(stmts) => OptAllAbortExact(stmts);
    case Assign(target, value) => AssignAbortExact(target, value);
    case IfWhen(_, _, _, _) => OptIfAbortExact(s);
    case While(cond, body) =>
      OptExprAbortExact(cond);
      OptStmtAbortExact(body);
      AnyUnion(Nots(cond), if OptExpr(cond).Ok? then StmtNots(body) else {});
      if OptExpr(cond).Ok? {
        TypedStaysLogic(cond);
        LogicIsBinary(OptExpr(cond).value);
      }
    case Emit(_, _, _, pre) => PayloadsAbortExact(pre);
    case CallSub(_) =>
    case Return =>
  }

  lemma LogicIsBinary(e: Expr)
    ensures LogicTree(e) ==> e.Binary?
  {
  }

  lemma {:induction false} OptIfAbortExact(s: Stmt)
    requires s.IfWhen? && TypeChecks(s) && Parsed(s)
    ensures OptStmt(s) == Err(Abort) <==> AnyMisplaced(StmtNots(s))
    decreases s, 0
  {
    hide AnyMisplaced, OptExpr, Nots, LogicTree;
    AnyOne(Imm(0));
    OptExprAbortExact(s.cond);
    OptStmtAbortExact(s.thn);
    var other := if OptStmt(s.thn).Ok? && s.els.Some? then StmtNots(s.els.value) else {};
    if s.els.Some? {
      OptStmtAbortExact(s.els.value);
    }
    AnyUnion(StmtNots(s.thn), other);
    AnyUnion(Nots(s.cond), if OptExpr(s.cond).Err? then {} else StmtNots(s.thn) + other);
    if OptExpr(s.cond).Ok? {
      TypedStaysLogic(s.cond);
      LogicIsBinary(OptExpr(s.cond).value);
    }
  }

  lemma {:induction false} OptAllAbortExact(stmts: seq<Stmt>)
    requires forall t | t in stmts :: TypeChecks(t) && Parsed(t)
    ensures OptAll(stmts) == Err(Abort) <==> AnyMisplaced(AllNots(stmts))
    decreases stmts
  {
    hide AnyMisplaced, OptStmt, StmtNots;
    AnyOne(Imm(0));
    if stmts != [] {
      OptStmtAbortExact(stmts[0]);
      OptAllAbortExact(stmts[1..]);
      AnyUnion(StmtNots(stmts[0]), if OptStmt(stmts[0]).Ok? then AllNots(stmts[1..]) else {});
    }
  }

  // ----- where a misplaced `not` can come from -----

  /** No array index of the statement aborts on its own, as the parser makes sure of. */
  predicate StmtSurvives(s: Stmt)
  {
    match s
    case Block(stmts) => forall t | t in stmts :: StmtSurvives(t)
    case Assign(target, value) => TargetSurvives(target) && IndexesSurvive(value)
    case IfWhen(_, cond, thn, els) =>
      IndexesSurvive(cond) && StmtSurvives(thn) && (els.Some? ==> StmtSurvives(els.value))
    case While(cond, body) => IndexesSurvive(cond) && StmtSurvives(body)
    case FoldedIf(_, _, _, _, _, _) => true
    case FoldedWhile(_, _, _, _) => true
    case Emit(_, _, _, _) => true
    case CallSub(_) => true
    case Return => true
  }

  /** The operands of `not` nodes in the payloads of emits the optimizer comes to. */
  function PayloadNots(s: Stmt): set<Expr>
  {
    match s
    case Block(stmts) => AllPayloadNots(stmts)
    case IfWhen(_, cond, thn, els) =>
      if OptExpr(cond).Err? then {} else
      PayloadNots(thn) + (if OptStmt(thn).Ok? && els.Some? then PayloadNots(els.value) else {})
    case While(cond, body) => if OptExpr(cond).Ok? then PayloadNots(body) else {}
    case Emit(_, _, _, pre) => AllNots(pre)
    case _ => {}
  }

  function AllPayloadNots(stmts: seq<Stmt>): set<Expr> {
    if stmts == [] then {} else
    PayloadNots(stmts[0]) + (if OptStmt(stmts[0]).Ok? then AllPayloadNots(stmts[1..]) else {})
  }

  /** Of a program that the parser lets through and the type checker accepts, only the payload of
      an emit can abort the optimizer, and it does exactly for a misplaced `not` in it. */
  lemma {:induction false} PayloadAbortsOnly(s: Stmt)
    requires TypeChecks(s) && Parsed(s) && StmtSurvives(s)
    ensures OptStmt(s) == Err(Abort) <==> AnyMisplaced(PayloadNots(s))
    decreases s, 1
  {
    hide AnyMisplaced, OptExpr, LogicTree;
    AnyOne(Imm(0));
    match s
    case Block(stmts) => PayloadsAbortOnly(stmts);
    case Assign(target, value) => TypedNeverAborts(value);
    case IfWhen(_, _, _, _) => PayloadAbortsIf(s);
    case While(cond, body) =>
      TypedNeverAborts(cond);
      PayloadAbortsOnly(body);
      if OptExpr(cond).Ok? {
        TypedStaysLogic(cond);
        LogicIsBinary(OptExpr(cond).value);
      }
    case Emit(_, _, _, pre) => PayloadsAbortExact(pre);
    case CallSub(_) =>
    case Return =>
  }

  lemma {:induction false} PayloadAbortsIf(s: Stmt)
    requires s.IfWhen? && TypeChecks(s) && Parsed(s) && StmtSurvives(s)
    ensures OptStmt(s) == Err(Abort) <==> AnyMisplaced(PayloadNots(s))
    decreases s, 0
  {
    hide AnyMisplaced, OptExpr, LogicTree;
    AnyOne(Imm(0));
    TypedNeverAborts(s.cond);
    PayloadAbortsOnly(s.thn);
    var other := if OptStmt(s.thn).Ok? && s.els.Some? then PayloadNots(s.els.value) else {};
    if s.els.Some? {
      PayloadAbortsOnly(s.els.value);
    }
    AnyUnion(PayloadNots(s.thn), other);
    if OptExpr(s.cond).Ok? {
      TypedStaysLogic(s.cond);
      LogicIsBinary(OptExpr(s.cond).value);
    }
  }

  lemma {:induction false} PayloadsAbortOnly(stmts: seq<Stmt>)
    requires forall t | t in stmts :: TypeChecks(t) && Parsed(t) && StmtSurvives(t)
    ensures OptAll(stmts) == Err(Abort) <==> AnyMisplaced(AllPayloadNots(stmts))
    decreases stmts
  {
    hide AnyMisplaced, OptStmt, PayloadNots;
    AnyOne(Imm(0));
    if stmts != [] {
      PayloadAbortsOnly(stmts[0]);
      PayloadsAbortOnly(stmts[1..]);
      AnyUnion(PayloadNots(stmts[0]), if OptStmt(stmts[0]).Ok? then AllPayloadNots(stmts[1..]) else {});
    }
  }

  /** `emit ev (not (b + c))`: the type checker never looks at the payload, the optimizer does. */
  lemma UncheckedPayloadAborts()
    ensures var s := Emit(0, 6, 1, [Block([Assign(Store(6), Unary(Not, Binary(Add, Load(4), Load(5))))])]);
            TypeChecks(s) && Parsed(s) && StmtSurvives(s) && OptStmt(s) == Err(Abort)
  {
  }
}
