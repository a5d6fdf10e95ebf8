/** The tree optimizer: constant folding, neutral and absorbing elements, strength reduction,
    removal of `not`, static array accesses, removal of dead code, folding of conditions. */
module Optimizer {
  import opened Words
  import opened PowerOfTwo
  import opened Tree
  import opened Semantics

  /** Undefined stands for behaviour the C++ language leaves undefined, Abort for a failed cast,
      assertion or call of abort(). */
  datatype CompileError =
    | DivisionByZero | AbsNotPossible | ArrayOutOfBoundRead | ArrayOutOfBoundWrite | InfiniteLoop
    | Undefined | Abort

  datatype Result<+T> = Ok(value: T) | Err(error: CompileError)
  {
    predicate IsFailure() { Err? }
    function PropagateFailure<U>(): Result<U> requires Err? { Err(error) }
    function Extract(): T requires Ok? { value }
  }

  // ----- expressions -----

  function Fold(op: BinOp, a: int32, b: int32): Result<int32>
  {
    if (op == Div || op == Mod) && b == 0 then Err(DivisionByZero) else
    match IntOp(op, a, b)
    case Some(v) => if Int32(v) then Ok(v) else Err(Undefined)
    case None => Err(Undefined)
  }

  function FoldUnary(op: UnOp, a: int32): Result<int32>
  {
    if op == Abs && a == -32768 then Err(AbsNotPossible)
    else if Int32(IntUnary(op, a)) then Ok(IntUnary(op, a)) else Err(Undefined)
  }

  predicate Is(e: Expr, v: int) { e.Imm? && e.value == v }

  predicate IsNonZero(e: Expr) { e.Imm? && e.value != 0 }

  /** The operand that alone survives next to a neutral element. */
  function Neutral(op: BinOp, l: Expr, r: Expr): Option<Expr>
  {
    match op
    case Mult => if Is(l, 1) then Some(r) else if Is(r, 1) then Some(l) else None
    case Div => if Is(r, 1) then Some(l) else None
    case Add => if Is(l, 0) then Some(r) else if Is(r, 0) then Some(l) else None
    case Sub => if Is(r, 0) then Some(l) else None
    case BitOr => if Is(l, 0) then Some(r) else if Is(r, 0) then Some(l) else None
    case Or => if Is(l, 0) then Some(r) else if Is(r, 0) then Some(l) else None
    case BitAnd => if Is(l, -1) then Some(r) else if Is(r, -1) then Some(l) else None
    case And => if IsNonZero(l) then Some(r) else if IsNonZero(r) then Some(l) else None
    case _ => None
  }

  /** The constant an absorbing element turns the node into. */
  function Absorbed(op: BinOp, l: Expr, r: Expr): Option<int32>
  {
    match op
    case Mult => if Is(l, 0) || Is(r, 0) then Some(0) else None
    case BitAnd => if Is(l, 0) || Is(r, 0) then Some(0) else None
    case And => if Is(l, 0) || Is(r, 0) then Some(0) else None
    case BitOr => if Is(l, -1) || Is(r, -1) then Some(-1) else None
    case Or => if IsNonZero(l) || IsNonZero(r) then Some(1) else None
    case _ => None
  }

  /** Multiplication and division by a constant power of two become shifts. */
  function Strength(op: BinOp, l: Expr, r: Expr): Result<Expr>
  {
    if r.Imm? && IsPOT(r.value) && op == Mult then Ok(Binary(ShiftLeft, l, Imm(ShiftFromPOT(r.value))))
    else if r.Imm? && IsPOT(r.value) && op == Div then Ok(Binary(ShiftRight, l, Imm(ShiftFromPOT(r.value))))
    else if op == Div && Is(r, 0) then Err(DivisionByZero)
    else Ok(Binary(op, l, r))
  }

  /** A binary node whose children are already optimized. */
  function OptBinary(op: BinOp, l: Expr, r: Expr): Result<Expr>
  {
    if l.Imm? && r.Imm? then
      var v :- Fold(op, l.value, r.value);
      Ok(Imm(v))
    else if Neutral(op, l, r).Some? then Ok(Neutral(op, l, r).value)
    else if Absorbed(op, l, r).Some? then Ok(Imm(Absorbed(op, l, r).value))
    else Strength(op, l, r)
  }

  function Inverse(op: BinOp): BinOp
    requires !op.IsArithmetic()
  {
    match op
    case Equal => NotEqual
    case NotEqual => Equal
    case Bigger => SmallerEqual
    case BiggerEqual => Smaller
    case Smaller => BiggerEqual
    case SmallerEqual => Bigger
    case Or => And
    case And => Or
  }

  /** De Morgan: push a negation down to the comparisons. Any other node aborts. */
  function DeMorgan(e: Expr): Result<Expr>
  {
    if !e.Binary? || e.op.IsArithmetic() then Err(Abort)
    else if e.op.IsComparison() then Ok(Binary(Inverse(e.op), e.left, e.right))
    else
      var l :- DeMorgan(e.left);
      var r :- DeMorgan(e.right);
      Ok(Binary(Inverse(e.op), l, r))
  }

  function OptUnary(op: UnOp, a: Expr): Result<Expr>
  {
    if a.Imm? then
      var v :- FoldUnary(op, a.value);
      Ok(Imm(v))
    else if op == Not && a.Binary? then DeMorgan(a)
    else Ok(Unary(op, a))
  }

  function OptExpr(e: Expr): Result<Expr>
  {
    match e
    case Imm(_) => Ok(e)
    case Load(_) => Ok(e)
    case ArrayRead(base, size, index) =>
      var i :- OptExpr(index);
      if !i.Imm? then Ok(ArrayRead(base, size, i))
      else if 0 <= i.value < size then Ok(Load(base + i.value))
      else Err(ArrayOutOfBoundRead)
    case Unary(op, a) =>
      var x :- OptExpr(a);
      OptUnary(op, x)
    case Binary(op, l, r) =>
      var x :- OptExpr(l);
      var y :- OptExpr(r);
      OptBinary(op, x, y)
  }

  function OptTarget(t: Target): Result<Target>
  {
    match t
    case Store(_) => Ok(t)
    case ArrayWrite(base, size, index) =>
      var i :- OptExpr(index);
      if !i.Imm? then Ok(ArrayWrite(base, size, i))
      else if 0 <= i.value < size then Ok(Store(base + i.value))
      else Err(ArrayOutOfBoundWrite)
  }

  // ----- statements -----

  predicate NoCode(s: Option<Stmt>) { s.None? || s.value == Block([]) }

  /** Ok(None) is a statement that vanishes. */
  function OptStmt(s: Stmt): Result<Option<Stmt>>
  {
    match s
    case Block(stmts) =>
      var kept :- OptAll(stmts);
      Ok(Some(Block(kept)))
    case Assign(target, value) =>
      var t :- OptTarget(target);
      var v :- OptExpr(value);
      Ok(Some(Assign(t, v)))
    case IfWhen(edge, cond, thn, els) =>
      var c :- OptExpr(cond);
      var t :- OptStmt(thn);
      var f :- if els.Some? then OptStmt(els.value) else Ok(None);
      OptIf(edge, c, t, f)
    case While(cond, body) =>
      var c :- OptExpr(cond);
      var b :- OptStmt(body);
      OptWhile(c, b)
    case FoldedIf(_, _, _, _, _, _) => Err(Abort)
    case FoldedWhile(_, _, _, _) => Err(Abort)
    case Emit(event, base, size, pre) =>
      var p :- OptEach(pre);
      Ok(Some(Emit(event, base, size, p)))
    case CallSub(_) => Ok(Some(s))
    case Return => Ok(Some(s))
  }

  /** The children of a block, without those that vanish or leave an empty block. */
  function OptAll(stmts: seq<Stmt>): Result<seq<Stmt>>
  {
    if stmts == [] then Ok([]) else
    var s :- OptStmt(stmts[0]);
    var rest :- OptAll(stmts[1..]);
    Ok(if NoCode(s) then rest else [s.value] + rest)
  }

  /** The children of an emit, which are all kept. */
  function OptEach(stmts: seq<Stmt>): Result<seq<Stmt>>
  {
    if stmts == [] then Ok([]) else
    var s :- OptStmt(stmts[0]);
    var rest :- OptEach(stmts[1..]);
    if s.None? then Err(Abort) else Ok([s.value] + rest)
  }

  function OptIf(edge: bool, c: Expr, t: Option<Stmt>, f: Option<Stmt>): Result<Option<Stmt>>
  {
    if NoCode(t) && NoCode(f) then Ok(None)
    else if c.Imm? then Ok(if c.value != 0 then t else f)
    else if !c.Binary? then Err(Abort)
    else Ok(Some(FoldedIf(edge, c.op, c.left, c.right, if t.None? then Block([]) else t.value, f)))
  }

  function OptWhile(c: Expr, b: Option<Stmt>): Result<Option<Stmt>>
  {
    if c.Imm? then (if c.value != 0 then Err(InfiniteLoop) else Ok(None))
    else if NoCode(b) then Ok(None)
    else if !c.Binary? then Err(Abort)
    else Ok(Some(FoldedWhile(c.op, c.left, c.right, b.value)))
  }

  /** The loop over the children of a block, which replaces and erases in place. */
  method OptimizeBlock(stmts: seq<Stmt>) returns (r: Result<seq<Stmt>>)
    ensures r == OptAll(stmts)
  {
    var children, i := stmts, 0;
    ghost var rest := stmts;
    PrependEmpty(OptAll(stmts));
    while i < |children|
      invariant i <= |children| && children[i..] == rest
      invariant OptAll(stmts) == Prepend(children[..i], OptAll(rest))
    {
      var s := OptStmt(children[i]);
      assert children[i] == rest[0] && children[i + 1..] == rest[1..];
      ghost var before := children[..i];
      if s.Err? {
        return Err(s.error);
      }
      if NoCode(s.value) {
        children := children[..i] + children[i + 1..];
        assert children[..i] == before && children[i..] == rest[1..];
      } else {
        children := children[i := s.value.value];
        i := i + 1;
        assert children[..i] == before + [s.value.value] && children[i..] == rest[1..];
        PrependSplit(before, s.value.value, OptAll(rest[1..]));
      }
      rest := rest[1..];
    }
    assert children[..i] == children && children + [] == children;
    r := Ok(children);
  }

  lemma PrependEmpty(r: Result<seq<Stmt>>)
    ensures Prepend([], r) == r
  {
    if r.Ok? {
      assert [] + r.value == r.value;
    }
  }

  lemma PrependSplit(a: seq<Stmt>, s: Stmt, r: Result<seq<Stmt>>)
    ensures Prepend(a + [s], r) == Prepend(a, Prepend([s], r))
  {
    if r.Ok? {
      assert (a + [s]) + r.value == a + ([s] + r.value);
    }
  }

  ghost function Prepend(a: seq<Stmt>, r: Result<seq<Stmt>>): Result<seq<Stmt>>
  {
    if r.Ok? then Ok(a + r.value) else r
  }
}
