/** From the type-checked source tree to the running machine. */
module Pipeline {
  import opened Words
  import opened Tree
  import opened Semantics
  import opened Optimizer
  import opened OptimizerShape
  import opened OptimizerCorrectness
  import opened Shapes
  import opened Machine
  import opened StmtCode
  import opened PreLink
  import opened Compiler

  /** The optimizer on the children of the program node. */
  function OptProgram(children: seq<TopLevel>): Result<seq<TopLevel>>
  {
    if children == [] then Ok([])
    else if !children[0].Code? then
      var rest :- OptProgram(children[1..]);
      Ok([children[0]] + rest)
    else
      var s :- OptStmt(children[0].s);
      var rest :- OptProgram(children[1..]);
      Ok(if NoCode(s) then rest else [Code(s.value)] + rest)
  }

  predicate Typed(children: seq<TopLevel>) { forall c | c in children && c.Code? :: WellTypedStmt(c.s) }

  /** Segment by segment, the optimized program is the optimized source. */
  lemma {:induction false} OptBody(children: seq<TopLevel>, cur: Key, k: Key)
    requires OptProgram(children).Ok?
    ensures OptAll(BodyOf(children, cur, k)) == Ok(BodyOf(OptProgram(children).value, cur, k))
    decreases |children|
  {
    hide OptStmt;
    if children != [] {
      var rest := OptProgram(children[1..]).value;
      var next := if children[0].Code? then cur else KeyOf(children[0]);
      OptBody(children[1..], next, k);
      var body := BodyOf(children[1..], next, k);
      if !children[0].Code? {
        assert ([children[0]] + rest)[1..] == rest;
      } else {
        var s := OptStmt(children[0].s).value;
        assert !NoCode(s) ==> ([Code(s.value)] + rest)[1..] == rest;
        if cur == k {
          assert ([children[0].s] + body)[1..] == body && ([children[0].s] + body)[0] == children[0].s;
        } else {
          assert [] + body == body && [] + BodyOf(rest, cur, k) == BodyOf(rest, cur, k);
        }
      }
    }
  }

  lemma {:induction false} OptDeclarations(children: seq<TopLevel>)
    requires OptProgram(children).Ok?
    ensures forall c: TopLevel | !c.Code? :: c in children <==> c in OptProgram(children).value
    decreases |children|
  {
    hide OptStmt;
    if children != [] {
      OptDeclarations(children[1..]);
      assert forall c :: c in children <==> c == children[0] || c in children[1..];
    }
  }

  lemma BodyTyped(children: seq<TopLevel>, k: Key)
    requires Typed(children)
    ensures WellTypedStmt(Block(Body(children, k)))
  {
    BodyMembers(children, EventKey(EVENT_INIT), k);
    forall t | t in Body(children, k)
      ensures WellTypedStmt(t)
    {
      assert Code(t) in children;
    }
  }

  // ----- what optimization keeps of calls -----

  /** Optimization adds no call and no `when`. */
  predicate Keeps(s: Stmt, o: Stmt) { Callees(o) <= Callees(s) && (NoWhen(s) ==> NoWhen(o)) }

  lemma {:induction false} OptKeeps(s: Stmt)
    requires OptStmt(s).Ok? && OptStmt(s).value.Some?
    ensures Keeps(s, OptStmt(s).value.value)
    decreases s, 1
  {
    hide OptExpr, OptTarget;
    match s
    case Block(stmts) => OptAllKeeps(stmts);
    case IfWhen(_, _, _, _) => OptIfKeeps(s);
    case While(_, body) => OptKeeps(body);
    case Emit(_, _, _, pre) => OptEachKeeps(pre);
    case _ =>
  }

  lemma {:induction false} OptIfKeeps(s: Stmt)
    requires s.IfWhen? && OptStmt(s).Ok? && OptStmt(s).value.Some?
    ensures Keeps(s, OptStmt(s).value.value)
    decreases s, 0
  {
    hide OptExpr;
    var t := OptStmt(s.thn).value;
    var f := if s.els.Some? then OptStmt(s.els.value).value else None;
    var c := OptExpr(s.cond).value;
    if t.Some? {
      OptKeeps(s.thn);
    }
    if f.Some? {
      OptKeeps(s.els.value);
    }
    assert Callees(Block([])) == {} && NoWhen(Block([]));
    if !c.Imm? {
      var block := if t.None? then Block([]) else t.value;
      assert OptStmt(s).value == Some(FoldedIf(s.edge, c.op, c.left, c.right, block, f));
    }
  }

  lemma {:induction false} OptAllKeeps(stmts: seq<Stmt>)
    requires OptAll(stmts).Ok?
    ensures CalleesAll(OptAll(stmts).value) <= CalleesAll(stmts)
    ensures (forall t | t in stmts :: NoWhen(t)) ==> forall t | t in OptAll(stmts).value :: NoWhen(t)
    decreases stmts
  {
    hide OptStmt, NoWhen, Callees;
    if stmts != [] {
      OptAllKeeps(stmts[1..]);
      var s := OptStmt(stmts[0]).value;
      if !NoCode(s) {
        OptKeeps(stmts[0]);
        var rest := OptAll(stmts[1..]).value;
        assert ([s.value] + rest)[1..] == rest;
      }
    }
  }

  lemma {:induction false} OptEachKeeps(stmts: seq<Stmt>)
    requires OptEach(stmts).Ok?
    ensures CalleesAll(OptEach(stmts).value) <= CalleesAll(stmts)
    ensures (forall t | t in stmts :: NoWhen(t)) ==> forall t | t in OptEach(stmts).value :: NoWhen(t)
    decreases stmts
  {
    hide OptStmt, NoWhen, Callees;
    if stmts != [] {
      OptEachKeeps(stmts[1..]);
      OptKeeps(stmts[0]);
      var s, rest := OptStmt(stmts[0]).value, OptEach(stmts[1..]).value;
      assert ([s.value] + rest)[1..] == rest;
    }
  }

  lemma OptCallsOnly(children: seq<TopLevel>, ids: set<nat>, k: Key)
    requires OptProgram(children).Ok? && CallsOnly(Body(children, k), ids)
    ensures CallsOnly(Body(OptProgram(children).value, k), ids)
  {
    hide OptProgram, OptAll, BodyOf, Callees, CalleesAll;
    OptBody(children, EventKey(EVENT_INIT), k);
    OptAllKeeps(Body(children, k));
  }

  lemma OptSelfContained(children: seq<TopLevel>, ids: set<nat>)
    requires OptProgram(children).Ok? && SelfContained(children, ids)
    ensures SelfContained(OptProgram(children).value, ids)
  {
    hide OptProgram, Body, CallsOnly;
    OptDeclarations(children);
    forall id | id in ids
      ensures CallsOnly(Body(OptProgram(children).value, SubKey(id)), ids)
    {
      OptCallsOnly(children, ids, SubKey(id));
    }
    forall id | id in DeclaredSubs(children)
      ensures id in DeclaredSubs(OptProgram(children).value)
    {
      assert SubDecl(id) in children;
    }
  }

  lemma ProgramSubsOptimized(children: seq<TopLevel>, ids: set<nat>)
    requires Typed(children) && OptProgram(children).Ok? && SelfContained(children, ids)
    ensures SubsOptimized(Only(SubBodies(children), ids), SubBodies(OptProgram(children).value))
  {
    hide OptAll, BodyOf, WellTypedStmt, NoWhen, OptProgram, CalleesAll;
    var opt := OptProgram(children).value;
    OptDeclarations(children);
    forall id | id in ids
      ensures id in SubBodies(opt)
      ensures WellTypedStmt(SubBodies(children)[id]) && NoWhen(SubBodies(children)[id])
      ensures OptStmt(SubBodies(children)[id]) == Ok(Some(SubBodies(opt)[id]))
    {
      assert SubDecl(id) in children && SubDecl(id) in opt;
      OptBody(children, EventKey(EVENT_INIT), SubKey(id));
      BodyTyped(children, SubKey(id));
    }
  }

  /** The whole chain: if a source event, run by the tree evaluator inside the optimizer's domain,
      ends, then the compiled program, started at that event's entry in the vector table, halts
      with the same memory and the same emitted events. Only the subroutines the event calls matter. */
  lemma SourceEventRuns(
      children: seq<TopLevel>, ids: set<nat>, tableSize: nat, depth: map<nat, nat>, stackSize: nat, limit: nat,
      a: nat, st: State, fuel: nat)
    requires Typed(children) && OptProgram(children).Ok? && SelfContained(children, ids)
    requires var opt := OptProgram(children).value;
             && Compiled(opt, tableSize, depth, stackSize) && limit >= stackSize + Slack(opt)
             && AllClose(opt, ids) && a in EventTable(opt, tableSize)
             && var id := EventTable(opt, tableSize)[a];
             && CallsOnly(Body(children, EventKey(id)), ids)
             && RunInDomain(EventBody(children, id), Only(SubBodies(children), ids), st, fuel)
             && Exec(EventBody(children, id), SubBodies(children), st, fuel).Ends()
    ensures var opt := OptProgram(children).value;
            var o := Exec(EventBody(children, EventTable(opt, tableSize)[a]), SubBodies(children), st, fuel);
            Reaches(MachineOf(opt, tableSize, limit), Running(Machine(a, [], st)), Halted(o.st))
  {
    hide OptAll, BodyOf, WellTypedStmt, NoWhen, OptProgram, Reaches, Compilable, RunInDomain, EventTable, Slack,
         SubsOptimized, SubBodies, Exec, Typed, SelfContained, AllClose, CalleesAll, Only, Addressable,
         MachineOf;
    var opt := OptProgram(children).value;
    var id := EventTable(opt, tableSize)[a];
    var body := EventBody(children, id);
    ProgramSubsOptimized(children, ids);
    OptSelfContained(children, ids);
    OptCallsOnly(children, ids, EventKey(id));
    OptBody(children, EventKey(EVENT_INIT), EventKey(id));
    BodyTyped(children, EventKey(id));
    BodyOnly(children, ids, Body(children, EventKey(id)), st, fuel);
    assert OptStmt(body) == Ok(Some(EventBody(opt, id)));
    OptStmtRefines(body, Only(SubBodies(children), ids), SubBodies(opt), st, fuel);
    CompiledEventRuns(opt, ids, tableSize, depth, stackSize, limit, a, st, fuel);
  }

  /** Optimizing a typed program never aborts and leaves only trees ready for code generation. */
  lemma {:induction false} OptProgramShape(children: seq<TopLevel>)
    requires Typed(children)
    ensures OptProgram(children) != Err(Abort)
    ensures OptProgram(children).Ok? ==> forall c | c in OptProgram(children).value && c.Code? :: Emittable(c.s)
    decreases |children|
  {
    hide OptStmt, Emittable, WellTypedStmt;
    if children != [] {
      assert forall c | c in children[1..] :: c in children;
      OptProgramShape(children[1..]);
      if children[0].Code? {
        assert children[0] in children;
        OptStmtShape(children[0].s);
      }
    }
  }
}
