/** The scalar syntax tree left by vector expansion, and its type checker. */
module Tree {
  import opened Words

  datatype BinOp =
    | ShiftLeft | ShiftRight | Add | Sub | Mult | Div | Mod
    | BitOr | BitXor | BitAnd
    | Equal | NotEqual | Bigger | BiggerEqual | Smaller | SmallerEqual
    | Or | And
  {
    predicate IsComparison() {
      Equal? || NotEqual? || Bigger? || BiggerEqual? || Smaller? || SmallerEqual?
    }

    predicate IsLogic() { Or? || And? }

    predicate IsArithmetic() { !IsComparison() && !IsLogic() }
  }

  datatype UnOp = Neg | Abs | BitNot | Not

  datatype Expr =
    | Imm(value: int32)
    | Load(addr: nat)
    | ArrayRead(base: nat, size: nat, index: Expr)
    | Unary(uop: UnOp, arg: Expr)
    | Binary(op: BinOp, left: Expr, right: Expr)

  datatype Target =
    | Store(addr: nat)
    | ArrayWrite(base: nat, size: nat, index: Expr)

  datatype Stmt =
    | Block(stmts: seq<Stmt>)
    | Assign(target: Target, value: Expr)
    | IfWhen(edge: bool, cond: Expr, thn: Stmt, els: Option<Stmt>)
    | While(cond: Expr, body: Stmt)
    | FoldedIf(edge: bool, op: BinOp, left: Expr, right: Expr, thn: Stmt, els: Option<Stmt>)
    | FoldedWhile(op: BinOp, left: Expr, right: Expr, body: Stmt)
    | Emit(event: nat, base: nat, size: nat, pre: seq<Stmt>)
    | CallSub(id: nat)
    | Return

  datatype Type = UnitType | BoolType | IntType

  // ----- the checker as the compiler has it -----

  /** None is a type error. An array index is never visited. */
  function TypeOf(e: Expr): Option<Type>
  {
    match e
    case Imm(_) => Some(IntType)
    case Load(_) => Some(IntType)
    case ArrayRead(_, _, _) => Some(IntType)
    case Unary(op, a) =>
      if op == Not then (if TypeOf(a) == Some(BoolType) then Some(BoolType) else None)
      else if TypeOf(a) == Some(IntType) then Some(IntType) else None
    case Binary(op, l, r) =>
      if op.IsLogic() then (if TypeOf(l) == TypeOf(r) == Some(BoolType) then Some(BoolType) else None)
      else if TypeOf(l) == TypeOf(r) == Some(IntType) then Some(if op.IsArithmetic() then IntType else BoolType)
      else None
  }

  /** The node kinds that if, when and while accept as a condition. */
  predicate ConditionNode(e: Expr) {
    (e.Binary? && (e.op.IsComparison() || e.op.IsLogic())) || (e.Unary? && e.uop == Not)
  }

  predicate TypeChecks(s: Stmt)
  {
    match s
    case Block(stmts) => forall t | t in stmts :: TypeChecks(t)
    case Assign(_, value) => TypeOf(value) == Some(IntType)
    case IfWhen(_, cond, thn, els) =>
      TypeOf(cond) == Some(BoolType) && TypeChecks(thn) && (els.Some? ==> TypeChecks(els.value)) && ConditionNode(cond)
    case While(cond, body) =>
      TypeOf(cond) == Some(BoolType) && TypeChecks(body) && ConditionNode(cond)
    case FoldedIf(_, _, l, r, thn, els) =>
      TypeOf(l).Some? && TypeOf(r).Some? && TypeChecks(thn) && (els.Some? ==> TypeChecks(els.value))
    case FoldedWhile(_, l, r, body) => TypeOf(l).Some? && TypeOf(r).Some? && TypeChecks(body)
    case Emit(_, _, _, _) => true
    case CallSub(_) => true
    case Return => true
  }

  /** The separate test of the node kind never rejects a condition of boolean type. */
  lemma ConditionKindFollows(e: Expr)
    ensures TypeOf(e) == Some(BoolType) ==> ConditionNode(e)
  {
  }

  // ----- what the checker leaves unchecked -----

  /** Every array index, however deep, is itself an integer expression. */
  predicate IndexesTyped(e: Expr)
  {
    match e
    case Imm(_) => true
    case Load(_) => true
    case ArrayRead(_, _, i) => TypeOf(i) == Some(IntType) && IndexesTyped(i)
    case Unary(_, a) => IndexesTyped(a)
    case Binary(_, l, r) => IndexesTyped(l) && IndexesTyped(r)
  }

  predicate TargetTyped(t: Target) {
    t.ArrayWrite? ==> TypeOf(t.index) == Some(IntType) && IndexesTyped(t.index)
  }

  /** Expression of type t, array indexes included. */
  predicate WellTyped(e: Expr, t: Type) { TypeOf(e) == Some(t) && IndexesTyped(e) }

  /** A statement that type-checks, with array indexes and emit payloads checked as well. */
  predicate WellTypedStmt(s: Stmt)
  {
    match s
    case Block(stmts) => forall t | t in stmts :: WellTypedStmt(t)
    case Assign(target, value) => TargetTyped(target) && WellTyped(value, IntType)
    case IfWhen(_, cond, thn, els) =>
      WellTyped(cond, BoolType) && WellTypedStmt(thn) && (els.Some? ==> WellTypedStmt(els.value))
    case While(cond, body) => WellTyped(cond, BoolType) && WellTypedStmt(body)
    case FoldedIf(_, _, _, _, _, _) => false
    case FoldedWhile(_, _, _, _) => false
    case Emit(_, _, _, pre) => forall t | t in pre :: (t.Block? || t.Assign?) && WellTypedStmt(t)
    case CallSub(_) => true
    case Return => true
  }

  lemma WellTypedTypeChecks(s: Stmt)
    requires WellTypedStmt(s)
    ensures TypeChecks(s)
  {
  }

  /** No edge-triggered condition anywhere. */
  predicate NoWhen(s: Stmt)
  {
    match s
    case Block(stmts) => forall t | t in stmts :: NoWhen(t)
    case Assign(_, _) => true
    case IfWhen(edge, _, thn, els) => !edge && NoWhen(thn) && (els.Some? ==> NoWhen(els.value))
    case While(_, body) => NoWhen(body)
    case FoldedIf(edge, _, _, _, thn, els) => !edge && NoWhen(thn) && (els.Some? ==> NoWhen(els.value))
    case FoldedWhile(_, _, _, body) => NoWhen(body)
    case Emit(_, _, _, pre) => forall t | t in pre :: NoWhen(t)
    case CallSub(_) => true
    case Return => true
  }
}
