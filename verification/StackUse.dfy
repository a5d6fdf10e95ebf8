/** What the reported stack depth is: the most leaves of any expression. */
module StackUse {
  import opened Words
  import opened Tree
  import opened CodeGen
  import opened PreLink
  import opened Compiler

  /** The constants and variables of an expression, from left to right. Reading an array element
      takes no more than its index. */
  function Leaves(e: Expr): seq<Expr>
  {
    match e
    case Imm(_) => [e]
    case Load(_) => [e]
    case ArrayRead(_, _, index) => Leaves(index)
    case Unary(_, a) => Leaves(a)
    case Binary(_, l, r) => Leaves(l) + Leaves(r)
  }

  /** The conditions, assigned values and indexes of array writes of a statement. */
  function Expressions(s: Stmt): set<Expr>
  {
    match s
    case Block(stmts) => ExpressionsAll(stmts)
    case Assign(target, value) => {value} + if target.ArrayWrite? then {target.index} else {}
    case IfWhen(_, cond, thn, els) =>
      {cond} + Expressions(thn) + if els.Some? then Expressions(els.value) else {}
    case While(cond, body) => {cond} + Expressions(body)
    case FoldedIf(_, op, l, r, thn, els) =>
      {Binary(op, l, r)} + Expressions(thn) + if els.Some? then Expressions(els.value) else {}
    case FoldedWhile(op, l, r, body) => {Binary(op, l, r)} + Expressions(body)
    case Emit(_, _, _, pre) => ExpressionsAll(pre)
    case CallSub(_) => {}
    case Return => {}
  }

  function ExpressionsAll(stmts: seq<Stmt>): set<Expr>
  {
    if stmts == [] then {} else Expressions(stmts[0]) + ExpressionsAll(stmts[1..])
  }

  /** No expression has more than n leaves. */
  predicate AtMost(es: set<Expr>, n: nat) { forall e | e in es :: |Leaves(e)| <= n }

  lemma {:induction false} DepthIsLeaves(e: Expr)
    ensures ExprDepth(e) == |Leaves(e)|
  {
    match e
    case Imm(_) =>
    case Load(_) =>
    case ArrayRead(_, _, index) => DepthIsLeaves(index);
    case Unary(_, a) => DepthIsLeaves(a);
    case Binary(_, l, r) =>
      DepthIsLeaves(l);
      DepthIsLeaves(r);
  }

  lemma AtMostUnion(a: set<Expr>, b: set<Expr>, n: nat)
    ensures AtMost(a + b, n) <==> AtMost(a, n) && AtMost(b, n)
  {
    hide Leaves;
    assert forall e | e in a :: e in a + b;
    assert forall e | e in b :: e in a + b;
  }

  lemma AtMostOne(e: Expr, n: nat)
    ensures AtMost({e}, n) <==> ExprDepth(e) <= n
    ensures AtMost({}, n)
  {
    DepthIsLeaves(e);
    assert e in {e};
  }

  /** The reported depth of a statement is the most leaves that one of its expressions has. */
  lemma {:induction false} StackDepthExact(s: Stmt, n: nat)
    ensures StackDepth(s) <= n <==> AtMost(Expressions(s), n)
    decreases s, 1
  {
    hide AtMost, Leaves;
    AtMostOne(Imm(0), n);
    match s
    case Block(stmts) => StackDepthAllExact(stmts, n);
    case Assign(target, value) =>
      AtMostOne(value, n);
      if target.ArrayWrite? {
        AtMostOne(target.index, n);
      }
      AtMostUnion({value}, if target.ArrayWrite? then {target.index} else {}, n);
    case IfWhen(_, cond, thn, els) => IfDepthExact(cond, thn, els, s, n);
    case While(cond, body) =>
      AtMostOne(cond, n);
      StackDepthExact(body, n);
      AtMostUnion({cond}, Expressions(body), n);
    case FoldedIf(_, op, l, r, thn, els) => IfDepthExact(Binary(op, l, r), thn, els, s, n);
    case FoldedWhile(op, l, r, body) =>
      AtMostOne(Binary(op, l, r), n);
      StackDepthExact(body, n);
      AtMostUnion({Binary(op, l, r)}, Expressions(body), n);
    case Emit(_, _, _, pre) => StackDepthAllExact(pre, n);
    case CallSub(_) =>
    case Return =>
  }

  lemma {:induction false} IfDepthExact(cond: Expr, thn: Stmt, els: Option<Stmt>, s: Stmt, n: nat)
    requires s == IfWhen(false, cond, thn, els) || s == IfWhen(true, cond, thn, els) ||
             (cond.Binary? && s.FoldedIf? && s == FoldedIf(s.edge, cond.op, cond.left, cond.right, thn, els))
    ensures StackDepth(s) <= n <==> AtMost(Expressions(s), n)
    decreases s, 0
  {
    hide AtMost, Leaves;
    var other := if els.Some? then Expressions(els.value) else {};
    AtMostOne(cond, n);
    StackDepthExact(thn, n);
    if els.Some? {
      StackDepthExact(els.value, n);
    }
    AtMostUnion({cond}, Expressions(thn), n);
    AtMostUnion({cond} + Expressions(thn), other, n);
  }

  lemma {:induction false} StackDepthAllExact(stmts: seq<Stmt>, n: nat)
    ensures StackDepthAll(stmts) <= n <==> AtMost(ExpressionsAll(stmts), n)
    decreases stmts, 0
  {
    hide AtMost, StackDepth, Expressions;
    if stmts == [] {
      AtMostOne(Imm(0), n);
    } else {
      StackDepthExact(stmts[0], n);
      StackDepthAllExact(stmts[1..], n);
      AtMostUnion(Expressions(stmts[0]), ExpressionsAll(stmts[1..]), n);
    }
  }

  /** The depth the stack check reads off a segment of the program. */
  lemma SegmentDepthExact(children: seq<TopLevel>, k: Key, n: nat)
    requires UniqueDecls(children) && k in SegmentsOf(children)
    ensures SegmentsOf(children)[k].maxStackDepth <= n <==> AtMost(ExpressionsAll(Body(children, k)), n)
  {
    hide AtMost, SegmentsOf, StackDepthAll, ExpressionsAll, FixCode, Body;
    SegmentOf(children, k);
    StackDepthAllExact(Body(children, k), n);
  }
}
