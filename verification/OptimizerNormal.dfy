/** How far the optimizer goes: the trees it leaves cannot be optimized further. */
module OptimizerNormal {
  import opened Words
  import opened PowerOfTwo
  import opened Tree
  import opened Semantics
  import opened Optimizer
  import opened OptimizerShape

  predicate Constant(e: Expr, values: set<int>) { e.Imm? && e.value in values }

  /** No operand that the operator ignores or that decides the result, and no factor or divisor that
      a shift could replace. */
  predicate Useful(op: BinOp, l: Expr, r: Expr)
  {
    match op
    case Add => !Constant(l, {0}) && !Constant(r, {0})
    case Sub => !Constant(r, {0})
    case Mult => !Constant(l, {0, 1}) && !Constant(r, {0}) && !IsPower(r)
    case Div => !Constant(r, {0}) && !IsPower(r)
    case BitOr => !Constant(l, {0, -1}) && !Constant(r, {0, -1})
    case BitAnd => !Constant(l, {0, -1}) && !Constant(r, {0, -1})
    case Or => !l.Imm? && !r.Imm?
    case And => !l.Imm? && !r.Imm?
    case _ => true
  }

  /** The constant 1, 2, 4, 8 and so on. */
  predicate IsPower(e: Expr) { e.Imm? && exists k | 0 <= k < 31 :: e.value == Pow2(k) }

  /** Nothing constant to fold, no useless operand, no `not` over a binary node, no access at a
      constant index. */
  predicate Simplified(e: Expr)
  {
    match e
    case Imm(_) => true
    case Load(_) => true
    case ArrayRead(_, _, i) => !i.Imm? && Simplified(i)
    case Unary(op, a) => !a.Imm? && !(op == Not && a.Binary?) && Simplified(a)
    case Binary(op, l, r) => !(l.Imm? && r.Imm?) && Useful(op, l, r) && Simplified(l) && Simplified(r)
  }

  lemma PowerIsPOT(e: Expr)
    ensures IsPower(e) <==> e.Imm? && IsPOT(e.value)
  {
    if e.Imm? {
      IsPOTExact(e.value);
      if k: nat :| e.value == Pow2(k) {
        SmallPower(k);
        assert 0 <= k < 31;
      }
    }
  }

  lemma SmallPower(k: nat)
    requires Pow2(k) < 0x8000_0000
    ensures k < 31
  {
    if k >= 31 {
      Pow2Add(31, k - 31);
      assert Pow2(31) == 0x8000_0000 by {
        Pow2At16();
        Pow2Add(16, 15);
      }
    }
  }

  lemma {:induction false} DeMorganSimplified(e: Expr)
    requires Simplified(e) && LogicTree(e)
    ensures DeMorgan(e).Ok? && Simplified(DeMorgan(e).value) && DeMorgan(e).value.Binary?
  {
    if e.op.IsLogic() {
      DeMorganSimplified(e.left);
      DeMorganSimplified(e.right);
    }
  }

  lemma BinarySimplified(op: BinOp, l: Expr, r: Expr)
    requires Simplified(l) && Simplified(r) && OptBinary(op, l, r).Ok?
    ensures Simplified(OptBinary(op, l, r).value)
  {
    PowerIsPOT(l);
    PowerIsPOT(r);
    assert Pow2(0) == 1;
    hide IsPOT, IsPower, Pow2;
    PowerOfOne(r);
    if !(l.Imm? && r.Imm?) && Neutral(op, l, r).None? && Absorbed(op, l, r).None? {
      StrengthUseful(op, l, r);
    }
  }

  lemma PowerOfOne(r: Expr)
    ensures Is(r, 1) ==> IsPower(r)
    ensures Is(r, 0) ==> !IsPower(r)
  {
    assert Pow2(0) == 1;
    forall k | 0 <= k < 31
      ensures Pow2(k) > 0
    {
    }
  }

  lemma StrengthUseful(op: BinOp, l: Expr, r: Expr)
    requires !(l.Imm? && r.Imm?) && Neutral(op, l, r).None? && Absorbed(op, l, r).None?
    requires Simplified(l) && Simplified(r) && Strength(op, l, r).Ok?
    requires IsPower(r) <==> r.Imm? && IsPOT(r.value)
    ensures Simplified(Strength(op, l, r).value)
  {
    hide IsPOT, IsPower, Pow2;
  }

  /** Whatever the expression, what the optimizer makes of it is simplified. */
  lemma {:induction false} OptExprSimplifies(e: Expr)
    requires OptExpr(e).Ok?
    ensures Simplified(OptExpr(e).value)
  {
    hide OptBinary, DeMorgan, LogicTree;
    match e
    case Imm(_) =>
    case Load(_) =>
    case ArrayRead(_, _, i) => OptExprSimplifies(i);
    case Unary(op, a) =>
      OptExprSimplifies(a);
      var x := OptExpr(a).value;
      if op == Not && x.Binary? {
        DeMorganExact(x);
        DeMorganSimplified(x);
      }
    case Binary(op, l, r) =>
      OptExprSimplifies(l);
      OptExprSimplifies(r);
      BinarySimplified(op, OptExpr(l).value, OptExpr(r).value);
  }

  /** The optimizer leaves an expression alone if and only if it is simplified. So optimizing again
      changes nothing. */
  lemma {:induction false} OptExprFixedExact(e: Expr)
    ensures OptExpr(e) == Ok(e) <==> Simplified(e)
  {
    if OptExpr(e) == Ok(e) {
      OptExprSimplifies(e);
    }
    if Simplified(e) {
      SimplifiedFixed(e);
    }
  }

  lemma {:induction false} SimplifiedFixed(e: Expr)
    requires Simplified(e)
    ensures OptExpr(e) == Ok(e)
  {
    match e
    case Imm(_) =>
    case Load(_) =>
    case ArrayRead(_, _, i) => SimplifiedFixed(i);
    case Unary(_, a) => SimplifiedFixed(a);
    case Binary(op, l, r) =>
      SimplifiedFixed(l);
      SimplifiedFixed(r);
      UsefulStays(op, l, r);
  }

  lemma UsefulStays(op: BinOp, l: Expr, r: Expr)
    requires !(l.Imm? && r.Imm?) && Useful(op, l, r)
    ensures OptBinary(op, l, r) == Ok(Binary(op, l, r))
  {
    PowerIsPOT(r);
    PowerOfOne(r);
    hide IsPOT, IsPower, Pow2;
  }

  // ----- statements -----

  predicate NoCodeAt(s: Stmt) { s == Block([]) }

  /** Simplified expressions, folded conditions, no empty block among others, no loop without a body
      and no `if` without any code. */
  predicate SimplifiedStmt(s: Stmt)
  {
    match s
    case Block(stmts) => forall t | t in stmts :: SimplifiedStmt(t) && !NoCodeAt(t)
    case Assign(target, value) =>
      Simplified(value) && (target.ArrayWrite? ==> !target.index.Imm? && Simplified(target.index))
    case IfWhen(_, _, _, _) => false
    case While(_, _) => false
    case FoldedIf(_, op, l, r, thn, els) =>
      && Simplified(Binary(op, l, r)) && SimplifiedStmt(thn) && (els.Some? ==> SimplifiedStmt(els.value))
      && !(NoCodeAt(thn) && (els.Some? ==> NoCodeAt(els.value)))
    case FoldedWhile(op, l, r, body) => Simplified(Binary(op, l, r)) && SimplifiedStmt(body) && !NoCodeAt(body)
    case Emit(_, _, _, pre) => forall t | t in pre :: SimplifiedStmt(t)
    case CallSub(_) => true
    case Return => true
  }

  /** Dead code is gone and every expression simplified. */
  lemma {:induction false} OptStmtSimplifies(s: Stmt)
    requires OptStmt(s).Ok? && OptStmt(s).value.Some?
    ensures SimplifiedStmt(OptStmt(s).value.value)
    decreases s, 1
  {
    hide OptExpr, Simplified;
    match s
    case Block(stmts) => OptAllSimplifies(stmts);
    case Assign(target, value) =>
      OptExprSimplifies(value);
      if target.ArrayWrite? {
        OptExprSimplifies(target.index);
      }
    case IfWhen(_, _, _, _) => OptIfSimplifies(s);
    case While(cond, body) =>
      OptExprSimplifies(cond);
      OptStmtSimplifies(body);
    case Emit(_, _, _, pre) => OptEachSimplifies(pre);
    case CallSub(_) =>
    case Return =>
  }

  lemma {:induction false} OptIfSimplifies(s: Stmt)
    requires s.IfWhen? && OptStmt(s).Ok? && OptStmt(s).value.Some?
    ensures SimplifiedStmt(OptStmt(s).value.value)
    decreases s, 0
  {
    hide OptExpr, Simplified;
    var c, t := OptExpr(s.cond).value, OptStmt(s.thn).value;
    var f := if s.els.Some? then OptStmt(s.els.value).value else None;
    OptExprSimplifies(s.cond);
    if t.Some? {
      OptStmtSimplifies(s.thn);
    }
    if f.Some? {
      OptStmtSimplifies(s.els.value);
    }
    if !c.Imm? {
      var block := if t.None? then Block([]) else t.value;
      assert SimplifiedStmt(Block([]));
      assert OptStmt(s).value == Some(FoldedIf(s.edge, c.op, c.left, c.right, block, f));
    }
  }

  lemma {:induction false} OptAllSimplifies(stmts: seq<Stmt>)
    requires OptAll(stmts).Ok?
    ensures forall t | t in OptAll(stmts).value :: SimplifiedStmt(t) && !NoCodeAt(t)
    decreases stmts
  {
    hide OptStmt, SimplifiedStmt;
    if stmts != [] {
      OptAllSimplifies(stmts[1..]);
      if !NoCode(OptStmt(stmts[0]).value) {
        OptStmtSimplifies(stmts[0]);
      }
    }
  }

  lemma {:induction false} OptEachSimplifies(stmts: seq<Stmt>)
    requires OptEach(stmts).Ok?
    ensures forall t | t in OptEach(stmts).value :: SimplifiedStmt(t)
    decreases stmts
  {
    hide OptStmt, SimplifiedStmt;
    if stmts != [] {
      OptEachSimplifies(stmts[1..]);
      OptStmtSimplifies(stmts[0]);
    }
  }
}
