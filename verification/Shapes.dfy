/** The trees the optimizer leaves for code generation. */
module Shapes {
  import opened Words
  import opened Tree

  /** An integer expression without `not` and without constant array index. */
  predicate IntShape(e: Expr)
  {
    match e
    case Imm(_) => true
    case Load(_) => true
    case ArrayRead(_, _, i) => IntShape(i) && !i.Imm?
    case Unary(op, a) => op != Not && IntShape(a)
    case Binary(op, l, r) => op.IsArithmetic() && IntShape(l) && IntShape(r)
  }

  /** A comparison of integers, or a conjunction or disjunction of such nodes. */
  predicate BoolNode(e: Expr)
  {
    e.Binary? &&
    if e.op.IsLogic() then BoolNode(e.left) && BoolNode(e.right)
    else e.op.IsComparison() && IntShape(e.left) && IntShape(e.right)
  }

  predicate BoolShape(e: Expr) { e == Imm(0) || e == Imm(1) || BoolNode(e) }

  predicate Shape(e: Expr, t: Type) { if t == BoolType then BoolShape(e) else IntShape(e) }

  predicate TargetShape(t: Target) { t.ArrayWrite? ==> IntShape(t.index) && !t.index.Imm? }

  /** Every condition is folded into its statement and every expression has its shape. */
  predicate Emittable(s: Stmt)
  {
    match s
    case Block(stmts) => forall t | t in stmts :: Emittable(t)
    case Assign(target, value) => TargetShape(target) && IntShape(value)
    case IfWhen(_, _, _, _) => false
    case While(_, _) => false
    case FoldedIf(_, op, l, r, thn, els) =>
      BoolNode(Binary(op, l, r)) && Emittable(thn) && (els.Some? ==> Emittable(els.value))
    case FoldedWhile(op, l, r, body) => BoolNode(Binary(op, l, r)) && Emittable(body)
    case Emit(_, _, _, pre) => forall t | t in pre :: Emittable(t)
    case CallSub(_) => true
    case Return => true
  }
}
