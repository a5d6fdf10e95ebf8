/** Every access a program makes, before and after optimization, stays inside its own arrays. */
module Confinement {
  import opened Words
  import opened Tree
  import opened Semantics
  import opened Optimizer
  import opened VectorTree
  import opened Allocator
  import opened Expansion

  predicate Within(addr: int, arrays: set<Range>) { exists r | r in arrays :: r.base <= addr < r.base + r.size }

  /** Static addresses are words of an array, dynamic accesses name a whole array. */
  predicate Confined(e: Expr, arrays: set<Range>)
  {
    match e
    case Imm(_) => true
    case Load(addr) => Within(addr, arrays)
    case ArrayRead(base, size, i) => Range(base, size) in arrays && Confined(i, arrays)
    case Unary(_, a) => Confined(a, arrays)
    case Binary(_, l, r) => Confined(l, arrays) && Confined(r, arrays)
  }

  predicate ConfinedTarget(t: Target, arrays: set<Range>)
  {
    match t
    case Store(addr) => Within(addr, arrays)
    case ArrayWrite(base, size, i) => Range(base, size) in arrays && Confined(i, arrays)
  }

  predicate ConfinedStmt(s: Stmt, arrays: set<Range>)
  {
    match s
    case Block(stmts) => forall t | t in stmts :: ConfinedStmt(t, arrays)
    case Assign(target, value) => ConfinedTarget(target, arrays) && Confined(value, arrays)
    case IfWhen(_, cond, thn, els) =>
      Confined(cond, arrays) && ConfinedStmt(thn, arrays) && (els.Some? ==> ConfinedStmt(els.value, arrays))
    case While(cond, body) => Confined(cond, arrays) && ConfinedStmt(body, arrays)
    case FoldedIf(_, _, l, r, thn, els) =>
      && Confined(l, arrays) && Confined(r, arrays)
      && ConfinedStmt(thn, arrays) && (els.Some? ==> ConfinedStmt(els.value, arrays))
    case FoldedWhile(_, l, r, body) => Confined(l, arrays) && Confined(r, arrays) && ConfinedStmt(body, arrays)
    case Emit(_, _, _, pre) => forall t | t in pre :: ConfinedStmt(t, arrays)
    case CallSub(_) => true
    case Return => true
  }

  // ----- expansion -----

  lemma {:induction false} ExpandConfined(e: VExpr, i: nat, vars: map<string, Range>)
    requires FromSpace(e, vars) && ExpandAt(e, i).Ok?
    ensures Confined(ExpandAt(e, i).value, vars.Values)
  {
    hide VectorSize, StaticWord;
    match e
    case VImm(_) =>
    case Tuple(elems) => ExpandInConfined(elems, i, vars);
    case Mem(_, _, name, index) =>
      assert vars[name] in vars.Values;
      if StaticIndex(e) {
        StaticWordInside(e, i);
      } else {
        ExpandConfined(index.value, i, vars);
      }
    case VUnary(_, a) => ExpandConfined(a, i, vars);
    case VBinary(_, l, r) =>
      ExpandConfined(l, i, vars);
      ExpandConfined(r, i, vars);
  }

  lemma {:induction false} ExpandInConfined(elems: seq<VExpr>, i: nat, vars: map<string, Range>)
    requires (forall x | x in elems :: FromSpace(x, vars)) && ExpandIn(elems, i).Ok?
    ensures Confined(ExpandIn(elems, i).value, vars.Values)
  {
    hide VectorSize;
    var n := VectorSize(elems[0]).value;
    if i < n {
      ExpandConfined(elems[0], i, vars);
    } else {
      ExpandInConfined(elems[1..], i - n, vars);
    }
  }

  lemma ExpandTargetConfined(e: VExpr, i: nat, vars: map<string, Range>)
    requires e.Mem? && FromSpace(e, vars) && ExpandTarget(e, i).Ok?
    ensures ConfinedTarget(ExpandTarget(e, i).value, vars.Values)
  {
    hide VectorSize, StaticWord;
    assert vars[e.name] in vars.Values;
    if StaticIndex(e) {
      StaticWordInside(e, i);
    } else {
      ExpandConfined(e.index.value, i, vars);
    }
  }

  lemma {:induction false} AssignsConfined(left: VExpr, right: VExpr, i: nat, n: nat, vars: map<string, Range>)
    requires left.Mem? && FromSpace(left, vars) && FromSpace(right, vars) && Assigns(left, right, i, n).Ok?
    ensures forall s | s in Assigns(left, right, i, n).value :: ConfinedStmt(s, vars.Values)
    decreases n - i
  {
    hide ExpandTarget, ExpandAt, FromSpace;
    if i < n {
      ExpandTargetConfined(left, i, vars);
      ExpandConfined(right, i, vars);
      AssignsConfined(left, right, i + 1, n, vars);
    }
  }

  /** The variables together with the temporary of one assignment. */
  function WithTemporary(vars: map<string, Range>, name: string, next: Space): map<string, Range>
  {
    if next.temps == [] then vars else vars[name := next.temps[0]]
  }

  lemma {:induction false} FromLarger(e: VExpr, vars: map<string, Range>, name: string, r: Range)
    requires FromSpace(e, vars) && name !in vars
    ensures FromSpace(e, vars[name := r])
  {
    match e
    case VImm(_) =>
    case Tuple(elems) =>
      forall x | x in elems
        ensures FromSpace(x, vars[name := r])
      {
        FromLarger(x, vars, name, r);
      }
    case Mem(_, _, _, index) =>
      if index.Some? {
        FromLarger(index.value, vars, name, r);
      }
    case VUnary(_, a) => FromLarger(a, vars, name, r);
    case VBinary(_, l, x) =>
      FromLarger(l, vars, name, r);
      FromLarger(x, vars, name, r);
  }

  /** An expanded vector assignment only touches variables, and the temporary it goes through. */
  lemma AssignmentConfined(left: VExpr, right: VExpr, sp: Space, name: string)
    requires left.Mem? && FromSpace(left, sp.vars) && FromSpace(right, sp.vars) && name !in sp.vars
    requires ExpandAssign(left, right, sp, name).Ok?
    ensures var (s, next) := ExpandAssign(left, right, sp, name).value;
            if NeedsTemporary(left, right) then ConfinedStmt(s, WithTemporary(sp.vars, name, next).Values)
            else ConfinedStmt(s, sp.vars.Values)
  {
    hide VectorSize, Assigns, Mentions;
    if !NeedsTemporary(left, right) {
      AssignsConfined(left, right, 0, VectorSize(left).value, sp.vars);
    } else {
      var n := VectorSize(right).value;
      var (next, addr) := Allocate(sp, n).value;
      var vars := WithTemporary(sp.vars, name, next);
      var temp := Mem(addr, n, name, None);
      FromLarger(left, sp.vars, name, next.temps[0]);
      FromLarger(right, sp.vars, name, next.temps[0]);
      AssignsConfined(temp, right, 0, VectorSize(temp).value, vars);
      AssignsConfined(left, temp, 0, VectorSize(left).value, vars);
    }
  }

  // ----- optimization -----

  lemma {:induction false} DeMorganConfined(e: Expr, arrays: set<Range>)
    requires Confined(e, arrays) && DeMorgan(e).Ok?
    ensures Confined(DeMorgan(e).value, arrays)
  {
    if e.op.IsLogic() {
      DeMorganConfined(e.left, arrays);
      DeMorganConfined(e.right, arrays);
    }
  }

  lemma {:induction false} OptExprConfined(e: Expr, arrays: set<Range>)
    requires Confined(e, arrays) && OptExpr(e).Ok?
    ensures Confined(OptExpr(e).value, arrays)
  {
    hide Fold, FoldUnary;
    match e
    case Imm(_) =>
    case Load(_) =>
    case ArrayRead(_, _, i) => OptExprConfined(i, arrays);
    case Unary(op, a) =>
      OptExprConfined(a, arrays);
      var x := OptExpr(a).value;
      if op == Not && x.Binary? {
        DeMorganConfined(x, arrays);
      }
    case Binary(op, l, r) =>
      OptExprConfined(l, arrays);
      OptExprConfined(r, arrays);
      OptBinaryConfined(op, OptExpr(l).value, OptExpr(r).value, arrays);
  }

  lemma {:induction false} OptBinaryConfined(op: BinOp, l: Expr, r: Expr, arrays: set<Range>)
    requires Confined(l, arrays) && Confined(r, arrays) && OptBinary(op, l, r).Ok?
    ensures Confined(OptBinary(op, l, r).value, arrays)
  {
    hide Fold, Strength, Neutral, Absorbed;
    if !(l.Imm? && r.Imm?) {
      if Neutral(op, l, r).Some? {
        NeutralIsOperand(op, l, r);
      } else if Absorbed(op, l, r).None? {
        StrengthConfined(op, l, r, arrays);
      }
    }
  }

  lemma {:induction false} NeutralIsOperand(op: BinOp, l: Expr, r: Expr)
    requires Neutral(op, l, r).Some?
    ensures Neutral(op, l, r).value in {l, r}
  {
  }

  lemma {:induction false} StrengthConfined(op: BinOp, l: Expr, r: Expr, arrays: set<Range>)
    requires Confined(l, arrays) && Confined(r, arrays) && Strength(op, l, r).Ok?
    ensures Confined(Strength(op, l, r).value, arrays)
  {
  }

  lemma OptTargetConfined(t: Target, arrays: set<Range>)
    requires ConfinedTarget(t, arrays) && OptTarget(t).Ok?
    ensures ConfinedTarget(OptTarget(t).value, arrays)
  {
    if t.ArrayWrite? {
      OptExprConfined(t.index, arrays);
    }
  }

  /** Optimization invents no access: constant indexes turn into words of the same array. */
  lemma {:induction false} OptStmtConfined(s: Stmt, arrays: set<Range>)
    requires ConfinedStmt(s, arrays) && OptStmt(s).Ok? && OptStmt(s).value.Some?
    ensures ConfinedStmt(OptStmt(s).value.value, arrays)
    decreases s, 1
  {
    hide OptExpr, OptTarget, Confined, ConfinedTarget;
    match s
    case Block(stmts) => OptAllConfined(stmts, arrays);
    case Assign(target, value) =>
      OptTargetConfined(target, arrays);
      OptExprConfined(value, arrays);
    case IfWhen(edge, cond, thn, els) => OptIfConfined(s, arrays);
    case While(cond, body) =>
      OptExprConfined(cond, arrays);
      OptStmtConfined(body, arrays);
      CondConfined(OptExpr(cond).value, arrays);
    case Emit(_, _, _, pre) => OptEachConfined(pre, arrays);
    case CallSub(_) =>
    case Return =>
  }

  lemma CondConfined(c: Expr, arrays: set<Range>)
    requires Confined(c, arrays) && c.Binary?
    ensures Confined(c.left, arrays) && Confined(c.right, arrays)
  {
  }

  lemma {:induction false} OptIfConfined(s: Stmt, arrays: set<Range>)
    requires s.IfWhen? && ConfinedStmt(s, arrays) && OptStmt(s).Ok? && OptStmt(s).value.Some?
    ensures ConfinedStmt(OptStmt(s).value.value, arrays)
    decreases s, 0
  {
    hide OptExpr, Confined;
    OptExprConfined(s.cond, arrays);
    var c := OptExpr(s.cond).value;
    var t := OptStmt(s.thn).value;
    if c.Binary? {
      CondConfined(c, arrays);
    }
    if t.Some? {
      OptStmtConfined(s.thn, arrays);
    }
    if s.els.Some? && OptStmt(s.els.value).value.Some? {
      OptStmtConfined(s.els.value, arrays);
    }
  }

  lemma {:induction false} OptAllConfined(stmts: seq<Stmt>, arrays: set<Range>)
    requires (forall t | t in stmts :: ConfinedStmt(t, arrays)) && OptAll(stmts).Ok?
    ensures forall t | t in OptAll(stmts).value :: ConfinedStmt(t, arrays)
  {
    if stmts != [] {
      var s := OptStmt(stmts[0]).value;
      if s.Some? {
        OptStmtConfined(stmts[0], arrays);
      }
      OptAllConfined(stmts[1..], arrays);
    }
  }

  lemma {:induction false} OptEachConfined(stmts: seq<Stmt>, arrays: set<Range>)
    requires (forall t | t in stmts :: ConfinedStmt(t, arrays)) && OptEach(stmts).Ok?
    ensures forall t | t in OptEach(stmts).value :: ConfinedStmt(t, arrays)
  {
    if stmts != [] {
      OptStmtConfined(stmts[0], arrays);
      OptEachConfined(stmts[1..], arrays);
    }
  }

  // ----- runs -----

  predicate TargetWithin(t: Target, arrays: set<Range>)
  {
    match t
    case Store(addr) => Within(addr, arrays)
    case ArrayWrite(base, size, _) => Range(base, size) in arrays
  }

  /** Every assignment is to a word of one of the arrays. */
  predicate WritesWithin(s: Stmt, arrays: set<Range>)
  {
    match s
    case Block(stmts) => forall t | t in stmts :: WritesWithin(t, arrays)
    case Assign(target, _) => TargetWithin(target, arrays)
    case IfWhen(_, _, thn, els) => WritesWithin(thn, arrays) && (els.Some? ==> WritesWithin(els.value, arrays))
    case While(_, body) => WritesWithin(body, arrays)
    case FoldedIf(_, _, _, _, thn, els) => WritesWithin(thn, arrays) && (els.Some? ==> WritesWithin(els.value, arrays))
    case FoldedWhile(_, _, _, body) => WritesWithin(body, arrays)
    case Emit(_, _, _, pre) => forall t | t in pre :: WritesWithin(t, arrays)
    case CallSub(_) => true
    case Return => true
  }

  lemma {:induction s} ConfinedWrites(s: Stmt, arrays: set<Range>)
    requires ConfinedStmt(s, arrays)
    ensures WritesWithin(s, arrays)
  {
    hide Confined;
  }

  predicate Untouched(a: seq<int16>, b: seq<int16>, arrays: set<Range>) {
    |a| == |b| && forall p | 0 <= p < |a| && !Within(p, arrays) :: a[p] == b[p]
  }

  predicate KeepsRest(o: Outcome, st: State, arrays: set<Range>) { o.Ends() ==> Untouched(st.mem, o.st.mem, arrays) }

  predicate SubsWithin(subs: map<nat, Stmt>, arrays: set<Range>) {
    forall id | id in subs :: WritesWithin(subs[id], arrays)
  }

  lemma AssignUntouched(t: Target, v: Expr, st: State, arrays: set<Range>)
    requires TargetWithin(t, arrays)
    ensures KeepsRest(ExecAssign(t, v, st), st, arrays)
  {
    hide Eval;
  }

  /** Over any run, calls and loops included, a program that writes inside its arrays
      leaves every other word as it was. */
  lemma {:induction false} RunsConfined(s: Stmt, subs: map<nat, Stmt>, st: State, fuel: nat, arrays: set<Range>)
    requires WritesWithin(s, arrays) && SubsWithin(subs, arrays)
    ensures KeepsRest(Exec(s, subs, st, fuel), st, arrays)
    decreases fuel, s
  {
    hide Eval, TargetWithin, Within, ExecAssign;
    match s
    case Block(stmts) => RunsAllConfined(stmts, subs, st, fuel, arrays);
    case Assign(target, value) => AssignUntouched(target, value, st, arrays);
    case IfWhen(_, _, thn, els) =>
      RunsConfined(thn, subs, st, fuel, arrays);
      if els.Some? {
        RunsConfined(els.value, subs, st, fuel, arrays);
      }
    case FoldedIf(_, _, _, _, thn, els) =>
      RunsConfined(thn, subs, st, fuel, arrays);
      if els.Some? {
        RunsConfined(els.value, subs, st, fuel, arrays);
      }
    case While(_, body) => LoopConfined(s, body, subs, st, fuel, arrays);
    case FoldedWhile(_, _, _, body) => LoopConfined(s, body, subs, st, fuel, arrays);
    case Emit(_, _, _, pre) => RunsAllConfined(pre, subs, st, fuel, arrays);
    case CallSub(id) =>
      if id in subs && fuel > 0 {
        RunsConfined(subs[id], subs, st, fuel - 1, arrays);
      }
    case Return =>
  }

  lemma {:induction false} LoopConfined(
      s: Stmt, body: Stmt, subs: map<nat, Stmt>, st: State, fuel: nat, arrays: set<Range>)
    requires (s.While? || s.FoldedWhile?) && body == s.body
    requires WritesWithin(s, arrays) && SubsWithin(subs, arrays)
    ensures KeepsRest(Exec(s, subs, st, fuel), st, arrays)
    decreases fuel, s, 0
  {
    hide Eval, Within;
    if fuel > 0 {
      RunsConfined(body, subs, st, fuel - 1, arrays);
      var o := Exec(body, subs, st, fuel - 1);
      if o.Done? {
        RunsConfined(s, subs, o.st, fuel - 1, arrays);
      }
    }
  }

  lemma {:induction false} RunsAllConfined(
      stmts: seq<Stmt>, subs: map<nat, Stmt>, st: State, fuel: nat, arrays: set<Range>)
    requires (forall t | t in stmts :: WritesWithin(t, arrays)) && SubsWithin(subs, arrays)
    ensures KeepsRest(ExecAll(stmts, subs, st, fuel), st, arrays)
    decreases fuel, stmts
  {
    hide Within;
    if stmts != [] {
      RunsConfined(stmts[0], subs, st, fuel, arrays);
      var o := Exec(stmts[0], subs, st, fuel);
      if o.Done? {
        RunsAllConfined(stmts[1..], subs, o.st, fuel, arrays);
      }
    }
  }

  // ----- from the source to the run -----

  predicate ConfinedSubs(subs: map<nat, Stmt>, arrays: set<Range>) {
    forall id | id in subs :: ConfinedStmt(subs[id], arrays)
  }

  /** A confined statement, optimized and run with confined subroutines, leaves every word outside
      its arrays as it was. */
  lemma OptimizedRunConfined(s: Stmt, subs: map<nat, Stmt>, st: State, fuel: nat, arrays: set<Range>)
    requires ConfinedStmt(s, arrays) && ConfinedSubs(subs, arrays) && OptStmt(s).Ok? && OptStmt(s).value.Some?
    ensures KeepsRest(Exec(OptStmt(s).value.value, subs, st, fuel), st, arrays)
  {
    hide ConfinedStmt, WritesWithin, OptStmt, Exec, KeepsRest;
    OptStmtConfined(s, arrays);
    ConfinedWrites(OptStmt(s).value.value, arrays);
    forall id | id in subs
      ensures WritesWithin(subs[id], arrays)
    {
      ConfinedWrites(subs[id], arrays);
    }
    RunsConfined(OptStmt(s).value.value, subs, st, fuel, arrays);
  }

  /** The arrays an assignment may touch: the variables, and its temporary if it needs one. */
  function ArraysOf(left: VExpr, right: VExpr, sp: Space, name: string): set<Range>
    requires left.Mem? && ExpandAssign(left, right, sp, name).Ok?
  {
    if NeedsTemporary(left, right) then WithTemporary(sp.vars, name, ExpandAssign(left, right, sp, name).value.1).Values
    else sp.vars.Values
  }

  /** A vector assignment, expanded, optimized and run with confined subroutines, changes no word
      outside the variables and its temporary. */
  lemma CompiledAssignmentConfined(
      left: VExpr, right: VExpr, sp: Space, name: string, subs: map<nat, Stmt>, st: State, fuel: nat)
    requires left.Mem? && FromSpace(left, sp.vars) && FromSpace(right, sp.vars) && name !in sp.vars
    requires ExpandAssign(left, right, sp, name).Ok? && ConfinedSubs(subs, ArraysOf(left, right, sp, name))
    requires var o := OptStmt(ExpandAssign(left, right, sp, name).value.0); o.Ok? && o.value.Some?
    ensures var o := Exec(OptStmt(ExpandAssign(left, right, sp, name).value.0).value.value, subs, st, fuel);
            o.Ends() ==> Untouched(st.mem, o.st.mem, ArraysOf(left, right, sp, name))
  {
    hide ExpandAssign, OptStmt, Exec, ConfinedStmt, FromSpace, NeedsTemporary, WithTemporary, Untouched;
    AssignmentConfined(left, right, sp, name);
    OptimizedRunConfined(ExpandAssign(left, right, sp, name).value.0, subs, st, fuel, ArraysOf(left, right, sp, name));
  }
}
