/** Exactly which trees the type checker accepts. */
module Typing {
  import opened Words
  import opened Tree

  /** Comparisons, and/or and `not` give truth values, everything else numbers. */
  predicate IsTruth(e: Expr)
  {
    match e
    case Binary(op, _, _) =>
      op in {Equal, NotEqual, Bigger, BiggerEqual, Smaller, SmallerEqual, BinOp.Or, BinOp.And}
    case Unary(op, _) => op == Not
    case _ => false
  }

  /** The nodes the checker visits: all but what is inside an array index. */
  function Visited(e: Expr): set<Expr>
  {
    match e
    case Unary(_, a) => {e} + Visited(a)
    case Binary(_, l, r) => {e} + Visited(l) + Visited(r)
    case _ => {e}
  }

  /** The operands of the node are of the kind it takes. */
  predicate OperandsFit(e: Expr)
  {
    match e
    case Unary(op, a) => IsTruth(a) <==> op == Not
    case Binary(op, l, r) =>
      var takesTruth := op in {BinOp.Or, BinOp.And};
      (IsTruth(l) <==> takesTruth) && (IsTruth(r) <==> takesTruth)
    case _ => true
  }

  predicate AllFit(nodes: set<Expr>) { forall x | x in nodes :: OperandsFit(x) }

  lemma FitUnion(a: set<Expr>, b: set<Expr>)
    ensures AllFit(a + b) <==> AllFit(a) && AllFit(b)
  {
    hide OperandsFit;
    assert forall x | x in a :: x in a + b;
    assert forall x | x in b :: x in a + b;
  }

  lemma FitOne(e: Expr)
    ensures AllFit({e}) <==> OperandsFit(e)
  {
    hide OperandsFit;
    assert e in {e};
  }

  /** An expression has a type if and only if each node has operands that fit, and the type is then
      that of its top node. */
  lemma {:induction false} TypeExact(e: Expr)
    ensures TypeOf(e).Some? <==> AllFit(Visited(e))
    ensures TypeOf(e).Some? ==> TypeOf(e).value == if IsTruth(e) then BoolType else IntType
  {
    hide AllFit;
    FitOne(e);
    match e
    case Imm(_) =>
    case Load(_) =>
    case ArrayRead(_, _, _) =>
    case Unary(_, a) =>
      TypeExact(a);
      FitUnion({e}, Visited(a));
    case Binary(_, l, r) =>
      TypeExact(l);
      TypeExact(r);
      FitUnion({e}, Visited(l));
      FitUnion({e} + Visited(l), Visited(r));
  }

  // ----- statements -----

  /** An expression and what it has to be. */
  datatype Use = AsTruth(e: Expr) | AsNumber(e: Expr) | AsOperand(e: Expr)

  /** The expressions of a statement that the checker looks at. */
  function Uses(s: Stmt): set<Use>
  {
    match s
    case Block(stmts) => set t, u | t in stmts && u in Uses(t) :: u
    case Assign(_, value) => {AsNumber(value)}
    case IfWhen(_, cond, thn, els) => {AsTruth(cond)} + Uses(thn) + if els.Some? then Uses(els.value) else {}
    case While(cond, body) => {AsTruth(cond)} + Uses(body)
    case FoldedIf(_, _, l, r, thn, els) =>
      {AsOperand(l), AsOperand(r)} + Uses(thn) + if els.Some? then Uses(els.value) else {}
    case FoldedWhile(_, l, r, body) => {AsOperand(l), AsOperand(r)} + Uses(body)
    case _ => {}
  }

  predicate UseFits(u: Use)
  {
    && AllFit(Visited(u.e))
    && (u.AsTruth? ==> IsTruth(u.e)) && (u.AsNumber? ==> !IsTruth(u.e))
  }

  predicate AllUsesFit(uses: set<Use>) { forall u | u in uses :: UseFits(u) }

  lemma UsesUnion(a: set<Use>, b: set<Use>)
    ensures AllUsesFit(a + b) <==> AllUsesFit(a) && AllUsesFit(b)
  {
    hide UseFits;
    assert forall u | u in a :: u in a + b;
    assert forall u | u in b :: u in a + b;
  }

  lemma UsesOne(u: Use)
    ensures AllUsesFit({u}) <==> UseFits(u)
    ensures AllUsesFit({})
  {
    hide UseFits;
    assert u in {u};
  }

  lemma UsesPair(u: Use, v: Use)
    ensures AllUsesFit({u, v}) <==> UseFits(u) && UseFits(v)
  {
    hide UseFits;
    assert u in {u, v} && v in {u, v};
  }

  /** A statement passes the checker if and only if its conditions are well-formed truth values and
      its assigned values well-formed numbers. */
  lemma {:induction false} TypeChecksExact(s: Stmt)
    ensures TypeChecks(s) <==> AllUsesFit(Uses(s))
    decreases s, 1
  {
    hide AllUsesFit, UseFits, IsTruth, AllFit, ConditionNode;
    UsesOne(AsNumber(Imm(0)));
    match s
    case Block(stmts) => BlockChecksExact(s);
    case Assign(_, value) =>
      UseExact(value);
      UsesOne(AsNumber(value));
    case IfWhen(_, cond, thn, els) =>
      UseExact(cond);
      ConditionKindFollows(cond);
      UsesOne(AsTruth(cond));
      BranchesExact({AsTruth(cond)}, thn, els, s);
    case While(cond, body) =>
      UseExact(cond);
      ConditionKindFollows(cond);
      UsesOne(AsTruth(cond));
      TypeChecksExact(body);
      UsesUnion({AsTruth(cond)}, Uses(body));
    case FoldedIf(_, _, l, r, thn, els) =>
      UseExact(l);
      UseExact(r);
      UsesPair(AsOperand(l), AsOperand(r));
      BranchesExact({AsOperand(l), AsOperand(r)}, thn, els, s);
    case FoldedWhile(_, l, r, body) =>
      UseExact(l);
      UseExact(r);
      UsesPair(AsOperand(l), AsOperand(r));
      TypeChecksExact(body);
      UsesUnion({AsOperand(l), AsOperand(r)}, Uses(body));
    case Emit(_, _, _, _) =>
    case CallSub(_) =>
    case Return =>
  }

  lemma UseExact(e: Expr)
    ensures UseFits(AsTruth(e)) <==> TypeOf(e) == Some(BoolType)
    ensures UseFits(AsNumber(e)) <==> TypeOf(e) == Some(IntType)
    ensures UseFits(AsOperand(e)) <==> TypeOf(e).Some?
  {
    hide AllFit, Visited;
    TypeExact(e);
  }

  lemma {:induction false} BranchesExact(own: set<Use>, thn: Stmt, els: Option<Stmt>, s: Stmt)
    requires thn < s && (els.Some? ==> els.value < s)
    ensures AllUsesFit(own + Uses(thn) + if els.Some? then Uses(els.value) else {}) <==>
            AllUsesFit(own) && TypeChecks(thn) && (els.Some? ==> TypeChecks(els.value))
    decreases s, 0
  {
    hide AllUsesFit, TypeChecks, Uses;
    TypeChecksExact(thn);
    if els.Some? {
      TypeChecksExact(els.value);
    }
    UsesOne(AsNumber(Imm(0)));
    UsesUnion(own, Uses(thn));
    UsesUnion(own + Uses(thn), if els.Some? then Uses(els.value) else {});
  }

  lemma {:induction false} BlockChecksExact(s: Stmt)
    requires s.Block?
    ensures TypeChecks(s) <==> AllUsesFit(Uses(s))
    decreases s, 0
  {
    hide UseFits;
    forall t | t in s.stmts
      ensures TypeChecks(t) <==> AllUsesFit(Uses(t))
    {
      TypeChecksExact(t);
    }
    if AllUsesFit(Uses(s)) {
      forall t | t in s.stmts
        ensures AllUsesFit(Uses(t))
      {
        assert forall u | u in Uses(t) :: u in Uses(s);
      }
    }
  }
}
