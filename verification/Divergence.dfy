/** Runs that do not end: where the tree evaluator runs out of any fuel, the machine runs forever. */
module Divergence {
  import opened Words
  import opened Tree
  import opened Semantics
  import opened Shapes
  import opened Bytecode
  import opened CodeGen
  import opened Machine
  import opened ExprCode
  import opened StmtCode

  /** The machine still runs after n steps or more. */
  ghost predicate Lasts(vm: VM, c: Config, n: nat) { exists k: nat :: k >= n && Steps(vm, c, k).Running? }

  lemma LastsNow(vm: VM, m: Machine)
    ensures Lasts(vm, Running(m), 0)
  {
    assert Steps(vm, Running(m), 0).Running?;
  }

  /** A machine on its way to one that lasts lasts as long, and longer if it has a way to go. */
  lemma LastsBefore(vm: VM, a: Config, b: Config, n: nat)
    requires Reaches(vm, a, b) && Lasts(vm, b, n)
    ensures Lasts(vm, a, n) && (a != b ==> Lasts(vm, a, n + 1))
  {
    var m: nat :| Steps(vm, a, m) == b;
    var k: nat :| k >= n && Steps(vm, b, k).Running?;
    StepsAdd(vm, a, m, k);
    assert Steps(vm, a, m + k).Running?;
  }

  /** A machine that lasts for every number of steps never stops. */
  lemma LastsForever(vm: VM, a: Config, b: Config)
    requires Reaches(vm, a, b) && !b.Running?
    ensures exists n: nat :: !Lasts(vm, a, n)
  {
    var m: nat :| Steps(vm, a, m) == b;
    if Lasts(vm, a, m) {
      var k: nat :| k >= m && Steps(vm, a, k).Running?;
      StepsAdd(vm, a, m, k - m);
      FinalStays(vm, b, k - m);
    }
  }

  /** A statement that runs out of fuel keeps the machine busy for as many steps. */
  lemma {:induction false} StmtLasts(img: Image, s: Stmt, m: Machine, sub: bool, fuel: nat)
    requires img.Loaded() && img.Ready(s, m, sub) && Exec(s, img.subs, m.st, fuel).OutOfFuel?
    ensures Lasts(img.vm, Running(m), fuel)
    decreases fuel, s, 1
  {
    hide Reaches, Step, At, Eval, EmitExpr, FitsExpr, Lasts;
    LastsNow(img.vm, m);
    match s
    case Block(stmts) => StmtsLast(img, stmts, m, sub, fuel);
    case FoldedIf(edge, op, l, r, thn, els) => IfLasts(img, op, l, r, thn, els, m, sub, fuel);
    case FoldedWhile(op, l, r, body) => WhileLasts(img, op, l, r, body, m, sub, fuel);
    case Emit(event, base, size, pre) =>
      AtSplit(img.vm.prog, m.pc, EmitAll(pre, img.Place(sub)), [Pack(EMIT, event), base % 65536, size % 65536]);
      StmtsLast(img, pre, m, sub, fuel);
    case CallSub(id) => CallLasts(img, id, m, sub, fuel);
  }

  lemma {:induction false} StmtsLast(img: Image, stmts: seq<Stmt>, m: Machine, sub: bool, fuel: nat)
    requires img.Loaded() && img.ReadyAll(stmts, m, sub) && ExecAll(stmts, img.subs, m.st, fuel).OutOfFuel?
    ensures Lasts(img.vm, Running(m), fuel)
    decreases fuel, stmts, 0
  {
    hide Reaches, Step, At, Emittable, NoWhen, Fits, Peak, Callees, Exec, EmitStmt, Eval, Wrap16, Lasts;
    var head, tail, p := stmts[0], stmts[1..], img.Place(sub);
    AtSplit(img.vm.prog, m.pc, EmitStmt(head, p), EmitAll(tail, p));
    var o := Exec(head, img.subs, m.st, fuel);
    if o.OutOfFuel? {
      StmtLasts(img, head, m, sub, fuel);
    } else {
      StmtRuns(img, head, m, sub, fuel);
      var n := After(o, m, |EmitStmt(head, p)|, sub).m;
      StmtsLast(img, tail, n, sub, fuel);
      LastsBefore(img.vm, Running(m), Running(n), fuel);
    }
  }

  lemma {:induction false} CallLasts(img: Image, id: nat, m: Machine, sub: bool, fuel: nat)
    requires img.Loaded() && img.Ready(CallSub(id), m, sub) && Exec(CallSub(id), img.subs, m.st, fuel).OutOfFuel?
    ensures Lasts(img.vm, Running(m), fuel)
    decreases fuel, CallSub(id), 0
  {
    hide Reaches, Step, At, Emittable, NoWhen, Fits, Wrap16, Pack, MayFall, Eval, EmitAll, ExecAll, Lasts;
    LastsNow(img.vm, m);
    if fuel > 0 {
      var vm, body := img.vm, img.subs[id];
      assert id in Callees(CallSub(id));
      assert img.SubLoaded(id);
      CallRuns(vm, img.table[id], m);
      var n := m.(pc := img.table[id], stack := m.stack + [Wrap16(m.pc + 1)]);
      ReachesStep(vm, Running(m), Running(n));
      StmtLasts(img, body, n, true, fuel - 1);
      assert |n.stack| != |m.stack|;
      LastsBefore(vm, Running(m), Running(n), fuel - 1);
    }
  }

  lemma {:induction false} IfLasts(
      img: Image, op: BinOp, l: Expr, r: Expr, thn: Stmt, els: Option<Stmt>, m: Machine, sub: bool, fuel: nat)
    requires var s := FoldedIf(false, op, l, r, thn, els);
             img.Loaded() && img.Ready(s, m, sub) && Exec(s, img.subs, m.st, fuel).OutOfFuel?
    ensures Lasts(img.vm, Running(m), fuel)
    decreases fuel, FoldedIf(false, op, l, r, thn, els), 0
  {
    hide Reaches, Step, At, Eval, EmitExpr, FitsExpr, Peak, ExprPeak, Callees, EmitBranch, Pack, BoolNode, Emittable,
         Fits, Lasts;
    var vm, p := img.vm, img.Place(sub);
    var t := EmitStmt(thn, p);
    var f := if els.Some? then Some(EmitStmt(els.value, p)) else None;
    var skip := 2 + |t| + if f.Some? then 1 else 0;
    var pre := EmitExpr(l) + EmitExpr(r) + EmitBranch(false, op, skip);
    IfReady(img, op, l, r, thn, els, m, sub);
    AtSplit(vm.prog, m.pc, pre, EmitBranches(t, f));
    ConditionRuns(vm, op, l, r, skip, m);
    var c := Eval(Binary(op, l, r), m.st.mem);
    var q := m.pc + |EmitExpr(l)| + |EmitExpr(r)|;
    if c.value != 0 {
      var n := m.(pc := q + 2);
      ThenReady(vm.prog, q + 2, t, f);
      StmtLasts(img, thn, n, sub, fuel);
      LastsBefore(vm, Running(m), Running(n), fuel);
    } else {
      var n := m.(pc := q + skip);
      AtSplit(vm.prog, q + 2, t + [Pack(JUMP, |f.value| + 1)], f.value);
      StmtLasts(img, els.value, n, sub, fuel);
      LastsBefore(vm, Running(m), Running(n), fuel);
    }
  }

  lemma ThenReady(prog: seq<word>, pc: nat, t: seq<word>, f: Option<seq<word>>)
    requires At(prog, pc, EmitBranches(t, f))
    ensures At(prog, pc, t)
  {
    hide At, Pack;
    if f.Some? {
      var j := [Pack(JUMP, |f.value| + 1)];
      AtSplit(prog, pc, t + j, f.value);
      AtSplit(prog, pc, t, j);
    }
  }

  lemma {:induction false} WhileLasts(
      img: Image, op: BinOp, l: Expr, r: Expr, body: Stmt, m: Machine, sub: bool, fuel: nat)
    requires var s := FoldedWhile(op, l, r, body);
             img.Loaded() && img.Ready(s, m, sub) && Exec(s, img.subs, m.st, fuel).OutOfFuel?
    ensures Lasts(img.vm, Running(m), fuel)
    decreases fuel, FoldedWhile(op, l, r, body), 0
  {
    hide Reaches, Step, At, Eval, EmitExpr, FitsExpr, Peak, ExprPeak, Callees, EmitBranch, Pack, BoolNode, Emittable,
         Fits, Lasts;
    LastsNow(img.vm, m);
    if fuel > 0 {
      var vm, p := img.vm, img.Place(sub);
      var b := EmitStmt(body, p);
      var pre := EmitExpr(l) + EmitExpr(r) + EmitBranch(false, op, 2 + |b| + 1);
      var back := |EmitExpr(l)| + |EmitExpr(r)| + |b| + 2;
      var j := Pack(JUMP, (-back) % 4096);
      WhileReady(img, op, l, r, body, m, sub);
      AtSplit(vm.prog, m.pc, pre, b + [j]);
      AtSplit(vm.prog, m.pc + |pre|, b, [j]);
      ConditionRuns(vm, op, l, r, 2 + |b| + 1, m);
      var n := m.(pc := m.pc + |pre|);
      var o := Exec(body, img.subs, m.st, fuel - 1);
      if o.OutOfFuel? {
        StmtLasts(img, body, n, sub, fuel - 1);
      } else {
        StmtRuns(img, body, n, sub, fuel - 1);
        var e := n.(pc := n.pc + |b|, st := o.st);
        JumpBack(vm, back, e);
        var again := m.(st := o.st);
        ReachesThenStep(vm, Running(n), Running(e), Running(again));
        WhileLasts(img, op, l, r, body, again, sub, fuel - 1);
        LastsBefore(vm, Running(n), Running(again), fuel - 1);
      }
      assert n.pc != m.pc;
      LastsBefore(vm, Running(m), Running(n), fuel - 1);
    }
  }

  /** The evaluator's run ends with some fuel. */
  ghost predicate Terminates(s: Stmt, subs: map<nat, Stmt>, st: State) {
    exists fuel: nat :: !Exec(s, subs, st, fuel).OutOfFuel?
  }

  /** A statement that runs out of any fuel keeps the machine from ever stopping. */
  lemma StmtDiverges(img: Image, s: Stmt, m: Machine, sub: bool, end: Config)
    requires img.Loaded() && img.Ready(s, m, sub) && !Terminates(s, img.subs, m.st)
    requires Reaches(img.vm, Running(m), end)
    ensures end.Running?
  {
    hide Lasts, Reaches, Exec;
    if !end.Running? {
      LastsForever(img.vm, Running(m), end);
      var n: nat :| !Lasts(img.vm, Running(m), n);
      assert Exec(s, img.subs, m.st, n).OutOfFuel?;
      StmtLasts(img, s, m, sub, n);
    }
  }
}
