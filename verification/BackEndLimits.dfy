/** Where the back end's own bookkeeping falls short of the machine, and exactly when. */
module BackEndLimits {
  import opened Words
  import opened Tree
  import opened Semantics
  import opened Shapes
  import opened Bytecode
  import opened CodeGen
  import opened Machine
  import opened ExprCode
  import opened StmtCode
  import opened Relocation
  import opened ControlFlow
  import opened FallThrough
  import opened StackCheck
  import opened PreLink
  import opened Linker
  import opened Compiler

  // ----- the stack an expression needs -----

  /** With one slot less than its peak, an expression that would evaluate overflows the stack. */
  lemma {:induction false} ExprOverflows(vm: VM, e: Expr, m: Machine)
    requires NoNot(e) && FitsExpr(e) && At(vm.prog, m.pc, EmitExpr(e)) && Eval(e, m.st.mem).Some?
    requires |m.stack| <= vm.limit < |m.stack| + ExprPeak(e)
    ensures Reaches(vm, Running(m), Overflowed)
    decreases Size(e)
  {
    hide Reaches, Step, Binary16, Unary16, Element, At, Wrap16, Pack, EmitImm;
    match e
    case Imm(v) =>
      ImmOverflows(vm, v, m);
      ReachesStep(vm, Running(m), Overflowed);
    case Load(addr) =>
      LoadOverflows(vm, addr, m);
      ReachesStep(vm, Running(m), Overflowed);
    case ArrayRead(base, size, index) =>
      AtSplit(vm.prog, m.pc, EmitExpr(index), [Pack(LOAD_INDIRECT, base), size % 65536]);
      ExprOverflows(vm, index, m);
    case Unary(op, a) =>
      AtSplit(vm.prog, m.pc, EmitExpr(a), [Pack(UNARY_ARITHMETIC, UnaryCode(op))]);
      ExprOverflows(vm, a, m);
    case Binary(op, l, r) =>
      AtSplit(vm.prog, m.pc, EmitExpr(l) + EmitExpr(r), [Pack(BINARY_ARITHMETIC, BinaryCode(op))]);
      AtSplit(vm.prog, m.pc, EmitExpr(l), EmitExpr(r));
      if vm.limit < |m.stack| + ExprPeak(l) {
        ExprOverflows(vm, l, m);
      } else {
        ExprRuns(vm, l, m);
        var n := Pushed(m, |EmitExpr(l)|, Eval(l, m.st.mem)).m;
        ExprOverflows(vm, r, n);
        ReachesTransitive(vm, Running(m), Running(n), Overflowed);
      }
  }

  lemma ImmOverflows(vm: VM, v: int32, m: Machine)
    requires At(vm.prog, m.pc, EmitImm(v)) && |m.stack| == vm.limit
    ensures Step(vm, Running(m)) == Overflowed
  {
    hide Pack, Wrap16, SignExtend12, Unary16, Binary16, Element, ExecEmit, Branch;
    AtWord(vm.prog, m.pc, EmitImm(v), 0);
    if -2048 < v < 2048 {
      PackFits(SMALL_IMMEDIATE, v % 4096);
    } else {
      AtWord(vm.prog, m.pc, EmitImm(v), 1);
      PackFits(LARGE_IMMEDIATE, 0);
    }
  }

  lemma LoadOverflows(vm: VM, addr: nat, m: Machine)
    requires addr < 4096 && addr < |m.st.mem| && At(vm.prog, m.pc, [Pack(LOAD, addr)]) && |m.stack| == vm.limit
    ensures Step(vm, Running(m)) == Overflowed
  {
    hide Pack, Wrap16, SignExtend12, Unary16, Binary16, Element, ExecEmit, Branch;
    AtWord(vm.prog, m.pc, [Pack(LOAD, addr)], 0);
    PackFits(LOAD, addr);
  }

  // ----- assignments -----

  /** An assignment that does not fault, with STOP after it: the machine halts with the new memory if
      and only if the stack has room for the peak, which for an array write counts the value below
      the index, and overflows if and only if it has not. */
  lemma AssignmentStackExact(vm: VM, target: Target, value: Expr, m: Machine)
    requires Emittable(Assign(target, value)) && Fits(Assign(target, value)) && |m.stack| <= vm.limit
    requires At(vm.prog, m.pc, EmitExpr(value) + EmitTarget(target) + [Pack(STOP, 0)])
    requires ExecAssign(target, value, m.st).Done?
    ensures Reaches(vm, Running(m), Halted(ExecAssign(target, value, m.st).st)) <==>
            |m.stack| + Peak(Assign(target, value)) <= vm.limit
    ensures Reaches(vm, Running(m), Overflowed) <==> |m.stack| + Peak(Assign(target, value)) > vm.limit
  {
    hide Reaches, At, Peak, Fits, Emittable, ExecAssign, EmitExpr, EmitTarget;
    AssignmentEnds(vm, target, value, m);
    var done := Halted(ExecAssign(target, value, m.st).st);
    if Reaches(vm, Running(m), done) && Reaches(vm, Running(m), Overflowed) {
      ReachesUnique(vm, Running(m), done, Overflowed);
    }
  }

  lemma AssignmentEnds(vm: VM, target: Target, value: Expr, m: Machine)
    requires Emittable(Assign(target, value)) && Fits(Assign(target, value)) && |m.stack| <= vm.limit
    requires At(vm.prog, m.pc, EmitExpr(value) + EmitTarget(target) + [Pack(STOP, 0)])
    requires ExecAssign(target, value, m.st).Done?
    ensures Reaches(vm, Running(m),
                    if |m.stack| + Peak(Assign(target, value)) <= vm.limit
                    then Halted(ExecAssign(target, value, m.st).st) else Overflowed)
  {
    hide Reaches, Step, At, Eval, EmitExpr, ExprPeak, NoNot, FitsExpr, Element, IntShape, Pack;
    IntShapeNoNot(value);
    if target.ArrayWrite? {
      IntShapeNoNot(target.index);
    }
    AtSplit(vm.prog, m.pc, EmitExpr(value) + EmitTarget(target), [Pack(STOP, 0)]);
    AtSplit(vm.prog, m.pc, EmitExpr(value), EmitTarget(target));
    if vm.limit < |m.stack| + ExprPeak(value) {
      ExprOverflows(vm, value, m);
    } else {
      ExprRuns(vm, value, m);
      var v := Eval(value, m.st.mem);
      var n := Pushed(m, |EmitExpr(value)|, v).m;
      if target.ArrayWrite? && vm.limit < |m.stack| + TargetPeak(target) {
        AtSplit(vm.prog, n.pc, EmitExpr(target.index), [Pack(STORE_INDIRECT, target.base), target.size % 65536]);
        ExprOverflows(vm, target.index, n);
        ReachesTransitive(vm, Running(m), Running(n), Overflowed);
      } else {
        var done := ExecAssign(target, value, m.st).st;
        var q := Machine(m.pc + |EmitExpr(value) + EmitTarget(target)|, m.stack, done);
        TargetRuns(vm, target, n, v.value, m.stack);
        ReachesTransitive(vm, Running(m), Running(n), Running(q));
        StopRuns(vm, q);
        ReachesThenStep(vm, Running(m), Running(q), Halted(done));
      }
    }
  }

  /** The reported depth of an assignment is too small exactly when the index of an array write
      needs as many slots as are reported for the whole assignment. */
  lemma ReportedDepthExact(target: Target, value: Expr)
    ensures Peak(Assign(target, value)) <= StackDepth(Assign(target, value)) <==>
              target.Store? || ExprPeak(target.index) < Max(ExprDepth(target.index), ExprDepth(value))
  {
    ExprPeakBound(value);
    if target.ArrayWrite? {
      ExprPeakBound(target.index);
    }
  }

  /** `a[x] = 1` is reported to need one slot; a machine with one slot overflows on it. */
  lemma ArrayWriteCounterexample()
    ensures var s := Assign(ArrayWrite(0, 2, Load(2)), Imm(1));
            StackDepth(s) == 1 &&
            Reaches(VM(EmitStmt(s, Raw) + [Pack(STOP, 0)], 1), Running(Machine(0, [], State([0, 0, 0], []))),
                Overflowed)
  {
    hide Reaches, Pack;
    var target, value := ArrayWrite(0, 2, Load(2)), Imm(1);
    var s := Assign(target, value);
    var vm := VM(EmitStmt(s, Raw) + [Pack(STOP, 0)], 1);
    var st := State([0, 0, 0], []);
    assert Eval(value, st.mem) == Some(1) && Eval(Load(2), st.mem) == Some(0);
    assert EvalTarget(target, st.mem) == Some(0);
    assert vm.prog[0..|vm.prog|] == vm.prog;
    AssignmentStackExact(vm, target, value, Machine(0, [], st));
  }

  // ----- subroutines without a closing word -----

  /** Control can leave the finished code of a subroutine at its end if and only if the code gets no
      closing word, because its last instruction is a return, although the tree may fall through. */
  lemma SubFallsExact(body: seq<Stmt>)
    requires ReadyStmt(Block(body))
    ensures Falls(SubCode(body) + Closing(body)) <==> !Closes(body)
  {
    hide Emittable, Fits, Falls, EmitAll, Contained, TypeOfLast;
    var p := Placement(true, None);
    ReadyParts(body);
    StmtsFall(body, p);
    if Closing(body) == [] {
      assert SubCode(body) + [] == SubCode(body);
    } else {
      StmtsContained(body, p);
      StopContained(p);
      FallsConcat(SubCode(body), [p.StopWord()]);
      StopFalls(p);
    }
  }

  lemma ReadyParts(body: seq<Stmt>)
    requires ReadyStmt(Block(body))
    ensures forall t | t in body :: Fits(t) && Emittable(t)
  {
  }

  /** The same for the segments of a program. Events always end in STOP. */
  lemma SegmentFallsExact(children: seq<TopLevel>, tableSize: nat, k: Key)
    requires Compilable(children, tableSize) && k in SegmentsOf(children)
    ensures Falls(SegmentsOf(children)[k].code) <==> k.SubKey? && !Closes(Body(children, k))
  {
    hide SegmentsOf, EmitAll, Body, StackDepthAll, CalleesAll, Whole, Rewrite, Closing, Pack, Emittable, Fits,
         Falls, Contained, Closes;
    var body := Body(children, k);
    SegmentOf(children, k);
    BodyReady(children, tableSize, k);
    if k.SubKey? {
      SubFixed(body, []);
      SubFallsExact(body);
    } else {
      ReadyParts(body);
      StmtsContained(body, Raw);
      StopContained(Raw);
      FallsConcat(EmitAll(body, Raw), [Raw.StopWord()]);
      StopFalls(Raw);
    }
  }

  lemma SegmentContained(children: seq<TopLevel>, tableSize: nat, k: Key)
    requires Compilable(children, tableSize) && k in SegmentsOf(children)
    ensures Contained(SegmentsOf(children)[k].code)
  {
    hide SegmentsOf, EmitAll, Body, StackDepthAll, CalleesAll, Whole, Rewrite, Pack, Emittable, Fits, Contained,
         TypeOfLast;
    var body := Body(children, k);
    SegmentOf(children, k);
    BodyReady(children, tableSize, k);
    ReadyParts(body);
    if k.SubKey? {
      var p := Placement(true, None);
      SubFixed(body, []);
      StmtsContained(body, p);
      StopContained(p);
      EmptyIsWhole();
      ContainedConcat(SubCode(body), Closing(body));
    } else {
      StmtsContained(body, Raw);
      StopContained(Raw);
      ContainedConcat(EmitAll(body, Raw), [Raw.StopWord()]);
    }
  }

  /** Control stays in the segment it starts in, for every event, and for a subroutine if and only if
      it has its closing word where control may reach the end. */
  lemma SegmentStaysExact(children: seq<TopLevel>, tableSize: nat, k: Key)
    requires Compilable(children, tableSize) && k in SegmentsOf(children)
    ensures Stays(SegmentsOf(children)[k].code) <==> k.EventKey? || Closes(Body(children, k))
  {
    hide SegmentsOf, Stays, Falls, Contained, Closes, Body;
    SegmentContained(children, tableSize, k);
    SegmentFallsExact(children, tableSize, k);
    StaysExact(SegmentsOf(children)[k].code);
  }

  /** Every run of a body without closing word that comes to its end leaves the code behind its last
      word. */
  lemma FallsOff(img: Image, body: seq<Stmt>, m: Machine, fuel: nat)
    requires img.Loaded() && img.Ready(Block(body), m, true)
    requires Closing(body) == [] && Exec(Block(body), img.subs, m.st, fuel).Done?
    ensures Reaches(img.vm, Running(m),
                    Running(m.(pc := m.pc + |SubCode(body) + Closing(body)|,
                               st := Exec(Block(body), img.subs, m.st, fuel).st)))
  {
    hide Reaches, Exec, EmitAll;
    StmtRuns(img, Block(body), m, true, fuel);
    EmitLength(Block(body), img.Place(true));
    EmitLength(Block(body), Placement(true, None));
    BlockParts(body, img.Place(true));
    BlockParts(body, Placement(true, None));
    assert SubCode(body) + [] == SubCode(body);
  }

  /** In a compiled program, a subroutine without closing word that calls others which have theirs:
      each of its runs that comes to its end goes on behind its segment. */
  lemma ProgramFallsOff(
      children: seq<TopLevel>, ids: set<nat>, tableSize: nat, depth: map<nat, nat>, stackSize: nat, limit: nat,
      id: nat, m: Machine, fuel: nat)
    requires Compiled(children, tableSize, depth, stackSize) && limit >= stackSize + Slack(children)
    requires SelfContained(children, ids) && AllClose(children, ids)
    requires id in DeclaredSubs(children) && CallsOnly(Body(children, SubKey(id)), ids)
    requires Closing(Body(children, SubKey(id))) == []
    requires m.stack != [] && id in depth && |m.stack| <= depth[id]
    requires m.pc == ImageOf(children, ids, tableSize, depth, limit).table[id]
    requires Exec(Block(Body(children, SubKey(id))), SubBodies(children), m.st, fuel).Done?
    ensures var body := Body(children, SubKey(id));
            && SubKey(id) in SegmentsOf(children)
            && Reaches(MachineOf(children, tableSize, limit), Running(m),
                       Running(m.(pc := m.pc + |SegmentsOf(children)[SubKey(id)].code|,
                                  st := Exec(Block(body), SubBodies(children), m.st, fuel).st)))
  {
    hide EventList, SubList, SegmentsOf, EmitAll, Body, StackDepthAll, PeakAll, At, Linked, SubTable, Whole,
         Settled, Slack, MayFall, Emittable, Fits, NoWhen, TypeOfLast, Unresolved, Pack, AllClose, Closing,
         Reaches, Exec, Rewrite;
    var img := ImageOf(children, ids, tableSize, depth, limit);
    var body := Body(children, SubKey(id));
    ImageLoaded(children, ids, tableSize, depth, stackSize, limit);
    SubPlaced(children, ids, tableSize, depth, stackSize, limit, id);
    SubDepth(children, tableSize, depth, stackSize, id);
    DeclaredSub(children, id);
    SegmentOf(children, SubKey(id));
    BodyReady(children, tableSize, SubKey(id));
    BodyPeak(children, SubKey(id));
    SubFixed(body, []);
    BlockParts(body, img.Place(true));
    BodyOnly(children, ids, body, m.st, fuel);
    AtSplit(img.vm.prog, m.pc, EmitAll(body, img.Place(true)), Closing(body));
    FallsOff(img, body, m, fuel);
  }

  // ----- a program that falls off -----

  /** `sub f  if a == b then return end`. */
  const Guarded: seq<Stmt> := [FoldedIf(false, Equal, Load(0), Load(1), Return, None)]

  /** A call of it, and STOP, in front of its finished code. */
  const Caller: seq<word> := [Pack(SUB_CALL, 2), Pack(STOP, 0)] + (SubCode(Guarded) + Closing(Guarded))

  /** Called with a and b different, it neither returns nor stops: the machine runs off the program. */
  lemma FallOffCounterexample()
    ensures !Closes(Guarded) && Falls(SubCode(Guarded) + Closing(Guarded))
    ensures Reaches(VM(Caller, 3), Running(Machine(0, [], State([0, 1], []))), Broken)
  {
    hide Reaches, EmitExpr, EmitStmt, TypeOfLast, Falls, Closing, Pack, At, Step, Exec;
    var vm, st := VM(Caller, 3), State([0, 1], []);
    var img := Image(vm, map[], [], map[]);
    var start, m := Machine(0, [], st), Machine(2, [1], st);
    GuardedReturn(Equal, Load(0), Load(1));
    GuardedReady(img, m);
    SubFallsExact(Guarded);
    GuardedRuns(st);
    CallerStarts();
    CallRuns(vm, 2, start);
    ReachesStep(vm, Running(start), Running(m));
    FallsOff(img, Guarded, m, 0);
    var off := m.(pc := |Caller|);
    ReachesTransitive(vm, Running(start), Running(m), Running(off));
    OffTheEnd(vm, off);
    ReachesThenStep(vm, Running(start), Running(off), Broken);
  }

  lemma OffTheEnd(vm: VM, m: Machine)
    requires m.pc >= |vm.prog|
    ensures Step(vm, Running(m)) == Broken
  {
  }

  lemma CallerStarts()
    ensures At(Caller, 0, [Pack(SUB_CALL, 2)])
    ensures At(Caller, 2, SubCode(Guarded) + Closing(Guarded))
    ensures |Caller| == 2 + |SubCode(Guarded) + Closing(Guarded)|
  {
    hide Pack, Closing;
    assert Caller[0..1] == [Pack(SUB_CALL, 2)];
    assert Caller[2..] == SubCode(Guarded) + Closing(Guarded);
  }

  lemma GuardedReady(img: Image, m: Machine)
    requires img.vm == VM(Caller, 3) && img.subs == map[] && img.table == []
    requires m == Machine(2, [1], State([0, 1], [])) && Closing(Guarded) == []
    ensures ReadyStmt(Block(Guarded)) && MayFall(Block(Guarded))
    ensures img.Loaded() && img.Ready(Block(Guarded), m, true)
  {
    hide Pack, At, Closing;
    CallerStarts();
    assert SubCode(Guarded) + [] == SubCode(Guarded);
    assert Guarded[1..] == [];
    assert EmitStmt(Block(Guarded), img.Place(true)) == SubCode(Guarded);
    assert Callees(Block(Guarded)) == {};
  }

  lemma GuardedRuns(st: State)
    requires st.mem == [0, 1]
    ensures Exec(Block(Guarded), map[], st, 0) == Done(st)
  {
    hide Eval;
    var s := Guarded[0];
    LoadsDiffer(st);
    assert Exec(s, map[], st, 0) == Done(st);
    assert Guarded[1..] == [] && ExecAll(Guarded, map[], st, 0) == Done(st);
  }

  lemma LoadsDiffer(st: State)
    requires st.mem == [0, 1]
    ensures Eval(Binary(Equal, Load(0), Load(1)), st.mem) == Some(0)
  {
    hide Bitwise, Pow2;
  }

  /** Whatever the condition, a guarded return at the end is taken for a return. */
  lemma GuardedReturn(op: BinOp, l: Expr, r: Expr)
    requires FitsExpr(l) && FitsExpr(r)
    ensures Closing([FoldedIf(false, op, l, r, Return, None)]) == []
  {
    hide Pack, EmitExpr, FitsExpr, EmitBranch, Inert;
    var s, p := FoldedIf(false, op, l, r, Return, None), Placement(true, None);
    var c, ret := EmitExpr(l) + EmitExpr(r) + EmitBranch(false, op, 3), [SUB_RET * 4096];
    assert EmitStmt(s, p) == c + ret;
    assert [s][1..] == [] && EmitAll([], p) == [];
    assert EmitAll([s], p) == c + ret;
    ConditionInert(op, false, l, r, 3);
    InertWhole(c);
    TypeOfLastConcat(c, ret);
  }
}
