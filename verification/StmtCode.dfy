/** The code of a statement does what the statement does, on a machine whose stack is just as
    large as the stack analysis says. */
module StmtCode {
  import opened Words
  import opened Tree
  import opened Semantics
  import opened Shapes
  import opened Bytecode
  import opened CodeGen
  import opened Machine
  import opened ExprCode

  // ----- single instructions -----

  lemma StoreRuns(vm: VM, addr: nat, m: Machine, v: int16, stack: seq<int16>)
    requires addr < 4096 && At(vm.prog, m.pc, [Pack(STORE, addr)]) && m.stack == stack + [v]
    ensures Step(vm, Running(m)) ==
            if addr < |m.st.mem| then Running(m.(pc := m.pc + 1, stack := stack,
                st := m.st.(mem := m.st.mem[addr := v])))
            else Faulted
  {
    hide Pack, Wrap16, SignExtend12, Unary16, Binary16, Element, ExecEmit, Push, Branch;
    AtWord(vm.prog, m.pc, [Pack(STORE, addr)], 0);
    PackFits(STORE, addr);
    assert Pop(m.stack) == stack;
  }

  lemma StoreIndirectRuns(vm: VM, base: nat, size: nat, m: Machine, v: int16, i: int16, stack: seq<int16>)
    requires base < 4096 && size < 65536 && At(vm.prog, m.pc, [Pack(STORE_INDIRECT, base), size % 65536])
    requires m.stack == stack + [v] + [i]
    ensures Step(vm, Running(m)) ==
            var p := Element(base, size, i, m.st.mem);
            if p.None? then Faulted
            else Running(m.(pc := m.pc + 2, stack := stack, st := m.st.(mem := m.st.mem[p.value := v])))
  {
    hide Pack, Wrap16, SignExtend12, Unary16, Binary16, ExecEmit, Push, Branch;
    var code := [Pack(STORE_INDIRECT, base), size % 65536];
    AtWord(vm.prog, m.pc, code, 0);
    AtWord(vm.prog, m.pc, code, 1);
    PackFits(STORE_INDIRECT, base);
    assert Pop(m.stack) == stack + [v] && Pop(Pop(m.stack)) == stack;
  }

  lemma BranchRuns(vm: VM, op: BinOp, skip: nat, m: Machine, a: int16, b: int16, stack: seq<int16>)
    requires skip < 32768 && At(vm.prog, m.pc, EmitBranch(false, op, skip)) && m.stack == stack + [a] + [b]
    ensures Step(vm, Running(m)) ==
            var c := Binary16(op, a, b);
            if c.None? then Faulted
            else Running(m.(pc := m.pc + if c.value != 0 then 2 else skip, stack := stack))
  {
    hide Pack, Wrap16, SignExtend12, Unary16, Binary16, Element, ExecEmit, Push;
    var code := EmitBranch(false, op, skip);
    AtWord(vm.prog, m.pc, code, 0);
    AtWord(vm.prog, m.pc, code, 1);
    PackFits(CONDITIONAL_BRANCH, BinaryCode(op));
    DecodeBinaryCode(op);
    WrapOfWord(skip);
    assert Pop(m.stack) == stack + [a] && Pop(Pop(m.stack)) == stack;
  }

  lemma JumpRuns(vm: VM, w: word, n: int, m: Machine)
    requires At(vm.prog, m.pc, [w]) && Opcode(w) == JUMP && SignExtend12(Operand(w)) == n && m.pc + n >= 0
    ensures Step(vm, Running(m)) == Running(m.(pc := m.pc + n))
  {
    hide Wrap16, SignExtend12, Unary16, Binary16, Element, ExecEmit, Push, Branch;
    AtWord(vm.prog, m.pc, [w], 0);
  }

  lemma EmitRuns(vm: VM, event: nat, base: nat, size: nat, m: Machine)
    requires event < 4096 && base < 65536 && size < 65536
    requires At(vm.prog, m.pc, [Pack(EMIT, event), base % 65536, size % 65536])
    ensures Step(vm, Running(m)) ==
            var o := ExecEmit(event, base, size, m.st);
            if o.Done? then Running(m.(pc := m.pc + 3, st := o.st)) else Faulted
  {
    hide Pack, Wrap16, SignExtend12, Unary16, Binary16, Element, ExecEmit, Push, Branch;
    var code := [Pack(EMIT, event), base % 65536, size % 65536];
    AtWord(vm.prog, m.pc, code, 0);
    AtWord(vm.prog, m.pc, code, 1);
    AtWord(vm.prog, m.pc, code, 2);
    PackFits(EMIT, event);
  }

  lemma CallRuns(vm: VM, address: nat, m: Machine)
    requires address < 4096 && At(vm.prog, m.pc, [Pack(SUB_CALL, address)]) && |m.stack| < vm.limit
    ensures Step(vm, Running(m)) == Running(m.(pc := address, stack := m.stack + [Wrap16(m.pc + 1)]))
  {
    hide Pack, Wrap16, SignExtend12, Unary16, Binary16, Element, ExecEmit, Push, Branch;
    AtWord(vm.prog, m.pc, [Pack(SUB_CALL, address)], 0);
    PackFits(SUB_CALL, address);
  }

  lemma StopRuns(vm: VM, m: Machine)
    requires At(vm.prog, m.pc, [Pack(STOP, 0)])
    ensures Step(vm, Running(m)) == Halted(m.st)
  {
    hide Pack, Wrap16, SignExtend12, Unary16, Binary16, Element, ExecEmit, Push, Branch;
    AtWord(vm.prog, m.pc, [Pack(STOP, 0)], 0);
    PackFits(STOP, 0);
  }

  lemma RetRuns(vm: VM, m: Machine)
    requires At(vm.prog, m.pc, [SUB_RET * 4096]) && m.stack != []
    ensures Step(vm, Running(m)) == Running(Machine(Top(m.stack) % 65536, Pop(m.stack), m.st))
  {
    hide Pack, Wrap16, SignExtend12, Unary16, Binary16, Element, ExecEmit, Push, Branch;
    AtWord(vm.prog, m.pc, [SUB_RET * 4096], 0);
  }

  // ----- the loaded program -----

  /** Subroutines a statement may call directly. */
  function Callees(s: Stmt): set<nat>
  {
    match s
    case Block(stmts) => CalleesAll(stmts)
    case Assign(_, _) => {}
    case IfWhen(_, _, thn, els) => Callees(thn) + if els.Some? then Callees(els.value) else {}
    case While(_, body) => Callees(body)
    case FoldedIf(_, _, _, _, thn, els) => Callees(thn) + if els.Some? then Callees(els.value) else {}
    case FoldedWhile(_, _, _, body) => Callees(body)
    case Emit(_, _, _, pre) => CalleesAll(pre)
    case CallSub(id) => {id}
    case Return => {}
  }

  function CalleesAll(stmts: seq<Stmt>): set<nat>
  {
    if stmts == [] then {} else Callees(stmts[0]) + CalleesAll(stmts[1..])
  }

  /** Control may reach the end of the statement's code. */
  predicate MayFall(s: Stmt)
  {
    match s
    case Block(stmts) => forall t | t in stmts :: MayFall(t)
    case FoldedIf(_, _, _, _, thn, els) => els.None? || MayFall(thn) || MayFall(els.value)
    case Emit(_, _, _, pre) => forall t | t in pre :: MayFall(t)
    case Return => false
    case _ => true
  }

  lemma {:induction false} DoneMayFall(s: Stmt, subs: map<nat, Stmt>, st: State, fuel: nat)
    requires Emittable(s) && Exec(s, subs, st, fuel).Done?
    ensures MayFall(s)
    decreases s
  {
    match s
    case Block(stmts) => DoneAllMayFall(stmts, subs, st, fuel);
    case FoldedIf(_, op, l, r, thn, els) =>
      if Eval(Binary(op, l, r), st.mem).value != 0 {
        DoneMayFall(thn, subs, st, fuel);
      } else if els.Some? {
        DoneMayFall(els.value, subs, st, fuel);
      }
    case Emit(_, _, _, pre) => DoneAllMayFall(pre, subs, st, fuel);
    case _ =>
  }

  lemma {:induction false} DoneAllMayFall(stmts: seq<Stmt>, subs: map<nat, Stmt>, st: State, fuel: nat)
    requires (forall t | t in stmts :: Emittable(t)) && ExecAll(stmts, subs, st, fuel).Done?
    ensures forall t | t in stmts :: MayFall(t)
    decreases stmts
  {
    if stmts != [] {
      DoneMayFall(stmts[0], subs, st, fuel);
      DoneAllMayFall(stmts[1..], subs, Exec(stmts[0], subs, st, fuel).st, fuel);
    }
  }

  /** A program in the machine: the subroutine bodies, the addresses of their code, and for each a
      bound on the number of return addresses below its frame. */
  datatype Image = Image(vm: VM, subs: map<nat, Stmt>, table: seq<nat>, depth: map<nat, nat>)
  {
    function Place(sub: bool): Placement { Placement(sub, Some(table)) }

    predicate SubLoaded(id: nat)
      requires id in subs
    {
      var body := subs[id];
      var code := EmitStmt(body, Place(true));
      && Emittable(body) && NoWhen(body) && Fits(body)
      && id < |table| && At(vm.prog, table[id], code)
      && (MayFall(body) ==> At(vm.prog, table[id] + |code|, [SUB_RET * 4096]))
      && id in depth && depth[id] + Peak(body) <= vm.limit
      && CallsFit(Callees(body), depth[id])
    }

    /** Calls from a frame with d words on the stack stay within the depth bounds, and the
        addresses they go to fit the operand of a call. */
    predicate CallsFit(ids: set<nat>, d: nat) {
      forall id | id in ids :: id in subs && id in depth && d < depth[id] && id < |table| && table[id] < 4096
    }

    predicate Loaded() {
      && |vm.prog| < 65536
      && forall id | id in subs :: SubLoaded(id)
    }

    /** The code of s stands at the program counter and the stack has room for it. */
    predicate Ready(s: Stmt, m: Machine, sub: bool) {
      && Emittable(s) && NoWhen(s) && Fits(s)
      && At(vm.prog, m.pc, EmitStmt(s, Place(sub)))
      && |m.stack| + Peak(s) <= vm.limit
      && CallsFit(Callees(s), |m.stack|)
      && (sub ==> m.stack != [])
    }

    predicate ReadyAll(stmts: seq<Stmt>, m: Machine, sub: bool) {
      && (forall t | t in stmts :: Emittable(t) && NoWhen(t) && Fits(t))
      && At(vm.prog, m.pc, EmitAll(stmts, Place(sub)))
      && |m.stack| + PeakAll(stmts) <= vm.limit
      && CallsFit(CalleesAll(stmts), |m.stack|)
      && (sub ==> m.stack != [])
    }
  }

  /** Where the machine is after the code of a statement with the given outcome. */
  function After(o: Outcome, m: Machine, size: nat, sub: bool): Config
    requires sub ==> m.stack != []
  {
    match o
    case Done(st) => Running(m.(pc := m.pc + size, st := st))
    case Stopped(st) => if sub then Running(Machine(Top(m.stack) % 65536, Pop(m.stack), st)) else Halted(st)
    case Fault => Faulted
    case OutOfFuel => Running(m)
  }

  // ----- assignments -----

  lemma AssignRuns(img: Image, target: Target, value: Expr, m: Machine)
    requires img.Ready(Assign(target, value), m, false) || img.Ready(Assign(target, value), m, true)
    ensures var o := ExecAssign(target, value, m.st);
            Reaches(img.vm, Running(m), After(o, m, |EmitExpr(value) + EmitTarget(target)|, false))
  {
    hide Reaches, Step, At, Eval, EmitExpr, ExprPeak, NoNot, FitsExpr, Emittable, Element;
    var vm := img.vm;
    AssignReady(img, target, value, m);
    AtSplit(vm.prog, m.pc, EmitExpr(value), EmitTarget(target));
    ExprRuns(vm, value, m);
    var v := Eval(value, m.st.mem);
    if v.Some? {
      var n := Pushed(m, |EmitExpr(value)|, v).m;
      TargetRuns(vm, target, n, v.value, m.stack);
      var o := ExecAssign(target, value, m.st);
      ReachesTransitive(vm, Running(m), Running(n), After(o, m, |EmitExpr(value) + EmitTarget(target)|, false));
    }
  }

  lemma AssignReady(img: Image, target: Target, value: Expr, m: Machine)
    requires img.Ready(Assign(target, value), m, false) || img.Ready(Assign(target, value), m, true)
    ensures NoNot(value) && FitsExpr(value) && |m.stack| + ExprPeak(value) <= img.vm.limit
    ensures FitsTarget(target) && |m.stack| + TargetPeak(target) <= img.vm.limit
    ensures target.ArrayWrite? ==> NoNot(target.index)
    ensures At(img.vm.prog, m.pc, EmitExpr(value) + EmitTarget(target))
  {
    IntShapeNoNot(value);
    if target.ArrayWrite? {
      IntShapeNoNot(target.index);
    }
  }

  lemma TargetRuns(vm: VM, target: Target, m: Machine, v: int16, stack: seq<int16>)
    requires FitsTarget(target) && (target.ArrayWrite? ==> NoNot(target.index))
    requires At(vm.prog, m.pc, EmitTarget(target)) && m.stack == stack + [v] && |stack| + TargetPeak(target) <= vm.limit
    ensures Reaches(vm, Running(m),
                    var p := EvalTarget(target, m.st.mem);
                    if p.None? then Faulted
                    else Running(m.(pc := m.pc + |EmitTarget(target)|, stack := stack,
                                    st := m.st.(mem := m.st.mem[p.value := v]))))
  {
    hide Reaches, Step, At, Eval, EmitExpr, NoNot, FitsExpr, Element;
    match target
    case Store(addr) =>
      StoreRuns(vm, addr, m, v, stack);
      ReachesStep(vm, Running(m), Step(vm, Running(m)));
    case ArrayWrite(base, size, index) =>
      AtSplit(vm.prog, m.pc, EmitExpr(index), [Pack(STORE_INDIRECT, base), size % 65536]);
      ExprRuns(vm, index, m);
      var i := Eval(index, m.st.mem);
      if i.Some? {
        var n := Pushed(m, |EmitExpr(index)|, i).m;
        StoreIndirectRuns(vm, base, size, n, v, i.value, stack);
        ReachesThenStep(vm, Running(m), Running(n), Step(vm, Running(n)));
      }
  }

  // ----- conditions -----

  /** Evaluating a folded condition leaves the stack alone and selects the way on. */
  lemma {:induction false} ConditionRuns(vm: VM, op: BinOp, l: Expr, r: Expr, skip: nat, m: Machine)
    requires BoolNode(Binary(op, l, r)) && FitsExpr(l) && FitsExpr(r) && skip < 32768
    requires At(vm.prog, m.pc, EmitExpr(l) + EmitExpr(r) + EmitBranch(false, op, skip))
    requires |m.stack| + ExprPeak(Binary(op, l, r)) <= vm.limit
    ensures Reaches(vm, Running(m),
                    var c := Eval(Binary(op, l, r), m.st.mem);
                    var q := m.pc + |EmitExpr(l)| + |EmitExpr(r)|;
                    if c.None? then Faulted else Running(m.(pc := q + if c.value != 0 then 2 else skip)))
  {
    hide Reaches, Step, At, EmitExpr, EmitBranch, FitsExpr, Binary16, BoolNode, Unary16, Element, Wrap16;
    BoolNodeNoNot(Binary(op, l, r));
    AtSplit(vm.prog, m.pc, EmitExpr(l) + EmitExpr(r), EmitBranch(false, op, skip));
    OperandsRun(vm, l, r, m);
    var a, b := Eval(l, m.st.mem), Eval(r, m.st.mem);
    assert Eval(Binary(op, l, r), m.st.mem) == if a.None? || b.None? then None else Binary16(op, a.value, b.value);
    hide Eval;
    if a.Some? && b.Some? {
      var n := Operands(m, l, r, a.value, b.value);
      BranchRuns(vm, op, skip, n, a.value, b.value, m.stack);
      ReachesThenStep(vm, Running(m), Running(n), Step(vm, Running(n)));
    }
  }

  // ----- statements -----

  /** From any machine state at the code of a statement, the machine reaches the end of the code,
      or the end of the event or subroutine on a return, with exactly the memory and the emitted
      events of the tree evaluator and an unchanged stack; it faults exactly when the evaluator
      does, and never runs out of stack. */
  lemma {:induction false} StmtRuns(img: Image, s: Stmt, m: Machine, sub: bool, fuel: nat)
    requires img.Loaded() && img.Ready(s, m, sub) && !Exec(s, img.subs, m.st, fuel).OutOfFuel?
    ensures Reaches(img.vm, Running(m),
                    After(Exec(s, img.subs, m.st, fuel), m, |EmitStmt(s, img.Place(sub))|, sub))
    decreases fuel, s, 1
  {
    hide Reaches, Step, At, Eval, EmitExpr, FitsExpr;
    match s
    case Block(stmts) => StmtsRun(img, stmts, m, sub, fuel);
    case Assign(target, value) => AssignRuns(img, target, value, m);
    case FoldedIf(edge, op, l, r, thn, els) => IfRuns(img, op, l, r, thn, els, m, sub, fuel);
    case FoldedWhile(op, l, r, body) => WhileRuns(img, op, l, r, body, m, sub, fuel);
    case Emit(event, base, size, pre) => EmitStmtRuns(img, event, base, size, pre, m, sub, fuel);
    case CallSub(id) => CallSubRuns(img, id, m, sub, fuel);
    case Return =>
      if sub {
        RetRuns(img.vm, m);
      } else {
        StopRuns(img.vm, m);
      }
      ReachesStep(img.vm, Running(m), Step(img.vm, Running(m)));
  }

  lemma {:induction false} StmtsRun(img: Image, stmts: seq<Stmt>, m: Machine, sub: bool, fuel: nat)
    requires img.Loaded() && img.ReadyAll(stmts, m, sub) && !ExecAll(stmts, img.subs, m.st, fuel).OutOfFuel?
    ensures Reaches(img.vm, Running(m),
                    After(ExecAll(stmts, img.subs, m.st, fuel), m, |EmitAll(stmts, img.Place(sub))|, sub))
    decreases fuel, stmts, 0
  {
    hide Reaches, Step, At, Emittable, NoWhen, Fits, Peak, Callees, Exec, EmitStmt, Eval, Wrap16;
    if stmts == [] {
      ReachesSelf(img.vm, Running(m));
    } else {
      var head, tail, p := stmts[0], stmts[1..], img.Place(sub);
      AtSplit(img.vm.prog, m.pc, EmitStmt(head, p), EmitAll(tail, p));
      StmtRuns(img, head, m, sub, fuel);
      var o := Exec(head, img.subs, m.st, fuel);
      if o.Done? {
        var n := After(o, m, |EmitStmt(head, p)|, sub).m;
        StmtsRun(img, tail, n, sub, fuel);
        var o2 := ExecAll(tail, img.subs, o.st, fuel);
        ReachesTransitive(img.vm, Running(m), Running(n), After(o2, n, |EmitAll(tail, p)|, sub));
      }
    }
  }

  lemma {:induction false} EmitStmtRuns(
      img: Image, event: nat, base: nat, size: nat, pre: seq<Stmt>, m: Machine, sub: bool, fuel: nat)
    requires var s := Emit(event, base, size, pre);
             img.Loaded() && img.Ready(s, m, sub) && !Exec(s, img.subs, m.st, fuel).OutOfFuel?
    ensures var s := Emit(event, base, size, pre);
            Reaches(img.vm, Running(m),
                    After(Exec(s, img.subs, m.st, fuel), m, |EmitStmt(s, img.Place(sub))|, sub))
    decreases fuel, pre, 1
  {
    hide Reaches, Step, At, PeakAll, CalleesAll, EmitAll, ExecAll;
    var p := img.Place(sub);
    AtSplit(img.vm.prog, m.pc, EmitAll(pre, p), [Pack(EMIT, event), base % 65536, size % 65536]);
    StmtsRun(img, pre, m, sub, fuel);
    var o := ExecAll(pre, img.subs, m.st, fuel);
    if o.Done? {
      var n := After(o, m, |EmitAll(pre, p)|, sub).m;
      EmitRuns(img.vm, event, base, size, n);
      ReachesThenStep(img.vm, Running(m), Running(n), Step(img.vm, Running(n)));
    }
  }

  lemma {:induction false} CallSubRuns(img: Image, id: nat, m: Machine, sub: bool, fuel: nat)
    requires img.Loaded() && img.Ready(CallSub(id), m, sub) && !Exec(CallSub(id), img.subs, m.st, fuel).OutOfFuel?
    ensures Reaches(img.vm, Running(m), After(Exec(CallSub(id), img.subs, m.st, fuel), m, 1, sub))
    decreases fuel, CallSub(id), 0
  {
    hide Reaches, Step, At, Emittable, NoWhen, Fits, Wrap16, Pack, MayFall, Eval, EmitAll, ExecAll;
    var vm, body := img.vm, img.subs[id];
    assert id in Callees(CallSub(id));
    assert img.SubLoaded(id);
    var code := EmitStmt(body, img.Place(true));
    CallRuns(vm, img.table[id], m);
    var n := m.(pc := img.table[id], stack := m.stack + [Wrap16(m.pc + 1)]);
    ReachesStep(vm, Running(m), Running(n));
    StmtRuns(img, body, n, true, fuel - 1);
    var o := Exec(body, img.subs, m.st, fuel - 1);
    ReachesTransitive(vm, Running(m), Running(n), After(o, n, |code|, true));
    ReturnAddress(vm, m.pc, [Pack(SUB_CALL, img.table[id])]);
    assert Pop(n.stack) == m.stack;
    if o.Done? {
      DoneMayFall(body, img.subs, m.st, fuel - 1);
      var q := n.(pc := n.pc + |code|, st := o.st);
      RetRuns(vm, q);
      ReachesThenStep(vm, Running(m), Running(q), Step(vm, Running(q)));
    }
  }

  lemma ReturnAddress(vm: VM, pc: nat, code: seq<word>)
    requires |vm.prog| < 65536 && At(vm.prog, pc, code) && code != []
    ensures Wrap16(pc + 1) % 65536 == pc + 1
  {
  }

  lemma {:induction false} IfRuns(
      img: Image, op: BinOp, l: Expr, r: Expr, thn: Stmt, els: Option<Stmt>, m: Machine, sub: bool, fuel: nat)
    requires var s := FoldedIf(false, op, l, r, thn, els);
             img.Loaded() && img.Ready(s, m, sub) && !Exec(s, img.subs, m.st, fuel).OutOfFuel?
    ensures var s := FoldedIf(false, op, l, r, thn, els);
            Reaches(img.vm, Running(m),
                    After(Exec(s, img.subs, m.st, fuel), m, |EmitStmt(s, img.Place(sub))|, sub))
    decreases fuel, FoldedIf(false, op, l, r, thn, els), 0
  {
    hide Reaches, Step, At, Eval, EmitExpr, FitsExpr, Peak, ExprPeak, Callees, EmitBranch, Pack, BoolNode, Emittable,
        Fits;
    var s, vm, p := FoldedIf(false, op, l, r, thn, els), img.vm, img.Place(sub);
    var t := EmitStmt(thn, p);
    var f := if els.Some? then Some(EmitStmt(els.value, p)) else None;
    var skip := 2 + |t| + if f.Some? then 1 else 0;
    var pre := EmitExpr(l) + EmitExpr(r) + EmitBranch(false, op, skip);
    IfReady(img, op, l, r, thn, els, m, sub);
    AtSplit(vm.prog, m.pc, pre, EmitBranches(t, f));
    ConditionRuns(vm, op, l, r, skip, m);
    var c := Eval(Binary(op, l, r), m.st.mem);
    var q := m.pc + |EmitExpr(l)| + |EmitExpr(r)|;
    if c.Some? && c.value != 0 {
      var n := m.(pc := q + 2);
      ThenRuns(img, thn, els, n, sub, fuel);
      ReachesTransitive(vm, Running(m), Running(n),
                        After(Exec(thn, img.subs, m.st, fuel), n, |EmitBranches(t, f)|, sub));
    } else if c.Some? && els.Some? {
      var n := m.(pc := q + skip);
      AtSplit(vm.prog, q + 2, t + [Pack(JUMP, |f.value| + 1)], f.value);
      StmtRuns(img, els.value, n, sub, fuel);
      ReachesTransitive(vm, Running(m), Running(n),
                        After(Exec(els.value, img.subs, m.st, fuel), n, |f.value|, sub));
    }
  }

  /** What the parts of an if inherit. */
  lemma IfReady(img: Image, op: BinOp, l: Expr, r: Expr, thn: Stmt, els: Option<Stmt>, m: Machine, sub: bool)
    requires img.Ready(FoldedIf(false, op, l, r, thn, els), m, sub)
    ensures BoolNode(Binary(op, l, r)) && FitsExpr(l) && FitsExpr(r)
    ensures |m.stack| + ExprPeak(Binary(op, l, r)) <= img.vm.limit
    ensures Emittable(thn) && NoWhen(thn) && Fits(thn) && |m.stack| + Peak(thn) <= img.vm.limit
    ensures img.CallsFit(Callees(thn), |m.stack|) && 3 + |EmitStmt(thn, img.Place(sub))| < 32768
    ensures els.Some? ==>
              && Emittable(els.value) && NoWhen(els.value) && Fits(els.value)
              && |m.stack| + Peak(els.value) <= img.vm.limit && img.CallsFit(Callees(els.value), |m.stack|)
              && |EmitStmt(els.value, img.Place(sub))| + 1 < 2048
  {
    hide At, ExprPeak, BoolNode, FitsExpr, EmitIf;
    EmitLength(thn, img.Place(sub));
    if els.Some? {
      EmitLength(els.value, img.Place(sub));
    }
  }

  /** The true block, followed by the jump over the false block if there is one. */
  lemma {:induction false} ThenRuns(img: Image, thn: Stmt, els: Option<Stmt>, m: Machine, sub: bool, fuel: nat)
    requires img.Loaded() && Emittable(thn) && NoWhen(thn) && Fits(thn) && |m.stack| + Peak(thn) <= img.vm.limit
    requires img.CallsFit(Callees(thn), |m.stack|) && (sub ==> m.stack != [])
    requires els.Some? ==> |EmitStmt(els.value, img.Place(sub))| + 1 < 2048
    requires var f := if els.Some? then Some(EmitStmt(els.value, img.Place(sub))) else None;
             At(img.vm.prog, m.pc, EmitBranches(EmitStmt(thn, img.Place(sub)), f))
    requires !Exec(thn, img.subs, m.st, fuel).OutOfFuel?
    ensures var f := if els.Some? then Some(EmitStmt(els.value, img.Place(sub))) else None;
            Reaches(img.vm, Running(m),
                    After(Exec(thn, img.subs, m.st, fuel), m, |EmitBranches(EmitStmt(thn, img.Place(sub)), f)|, sub))
    decreases fuel, thn, 2
  {
    hide Reaches, Step, At, Emittable, NoWhen, Fits, Peak, Callees, Pack, Exec;
    var vm, p := img.vm, img.Place(sub);
    var t := EmitStmt(thn, p);
    if els.None? {
      StmtRuns(img, thn, m, sub, fuel);
    } else {
      var f := EmitStmt(els.value, p);
      var j := Pack(JUMP, |f| + 1);
      AtSplit(vm.prog, m.pc, t + [j], f);
      AtSplit(vm.prog, m.pc, t, [j]);
      StmtRuns(img, thn, m, sub, fuel);
      var o := Exec(thn, img.subs, m.st, fuel);
      if o.Done? {
        var n := m.(pc := m.pc + |t|, st := o.st);
        ForwardJumpExact(|f| + 1);
        JumpRuns(vm, j, |f| + 1, n);
        ReachesThenStep(vm, Running(m), Running(n), Step(vm, Running(n)));
      }
    }
  }

  lemma {:induction false} WhileRuns(
      img: Image, op: BinOp, l: Expr, r: Expr, body: Stmt, m: Machine, sub: bool, fuel: nat)
    requires var s := FoldedWhile(op, l, r, body);
             img.Loaded() && img.Ready(s, m, sub) && !Exec(s, img.subs, m.st, fuel).OutOfFuel?
    ensures var s := FoldedWhile(op, l, r, body);
            Reaches(img.vm, Running(m),
                    After(Exec(s, img.subs, m.st, fuel), m, |EmitStmt(s, img.Place(sub))|, sub))
    decreases fuel, FoldedWhile(op, l, r, body), 0
  {
    hide Reaches, Step, At, Eval, EmitExpr, FitsExpr, Peak, ExprPeak, Callees, EmitBranch, Pack, BoolNode, Emittable,
        Fits;
    var s, vm, p := FoldedWhile(op, l, r, body), img.vm, img.Place(sub);
    var b := EmitStmt(body, p);
    var pre := EmitExpr(l) + EmitExpr(r) + EmitBranch(false, op, 2 + |b| + 1);
    var back := |EmitExpr(l)| + |EmitExpr(r)| + |b| + 2;
    var j := Pack(JUMP, (-back) % 4096);
    WhileReady(img, op, l, r, body, m, sub);
    AtSplit(vm.prog, m.pc, pre, b + [j]);
    AtSplit(vm.prog, m.pc + |pre|, b, [j]);
    ConditionRuns(vm, op, l, r, 2 + |b| + 1, m);
    var c := Eval(Binary(op, l, r), m.st.mem);
    if c.Some? && c.value != 0 {
      var n := m.(pc := m.pc + |pre|);
      StmtRuns(img, body, n, sub, fuel - 1);
      var o := Exec(body, img.subs, m.st, fuel - 1);
      ReachesTransitive(vm, Running(m), Running(n), After(o, n, |b|, sub));
      if o.Done? {
        var e := n.(pc := n.pc + |b|, st := o.st);
        JumpBack(vm, back, e);
        var again := m.(st := o.st);
        ReachesThenStep(vm, Running(m), Running(e), Running(again));
        WhileRuns(img, op, l, r, body, again, sub, fuel - 1);
        ReachesTransitive(vm, Running(m), Running(again),
                          After(Exec(s, img.subs, o.st, fuel - 1), again, |EmitStmt(s, p)|, sub));
      }
    }
  }

  lemma WhileReady(img: Image, op: BinOp, l: Expr, r: Expr, body: Stmt, m: Machine, sub: bool)
    requires img.Ready(FoldedWhile(op, l, r, body), m, sub)
    ensures BoolNode(Binary(op, l, r)) && FitsExpr(l) && FitsExpr(r)
    ensures |m.stack| + ExprPeak(Binary(op, l, r)) <= img.vm.limit
    ensures Emittable(body) && NoWhen(body) && Fits(body) && |m.stack| + Peak(body) <= img.vm.limit
    ensures img.CallsFit(Callees(body), |m.stack|)
    ensures |EmitExpr(l)| + |EmitExpr(r)| + |EmitStmt(body, img.Place(sub))| + 2 <= 2048
  {
    hide At, ExprPeak, BoolNode, FitsExpr, EmitWhile;
    EmitLength(body, img.Place(sub));
  }

  lemma JumpBack(vm: VM, back: int, m: Machine)
    requires 0 <= back <= 2048 && back <= m.pc && At(vm.prog, m.pc, [Pack(JUMP, (-back) % 4096)])
    ensures Step(vm, Running(m)) == Running(m.(pc := m.pc - back))
  {
    hide Step, Pack, At, SignExtend12;
    PackFits(JUMP, (-back) % 4096);
    BackwardJumpExact(back);
    JumpRuns(vm, Pack(JUMP, (-back) % 4096), -back, m);
  }
}
