/** The whole compiler: from the vector program to the running machine. */
module VectorPipeline {
  import opened Words
  import opened Tree
  import opened Semantics
  import opened VectorTree
  import opened Allocator
  import opened Expansion
  import opened VectorProgram
  import opened Optimizer
  import opened OptimizerCorrectness
  import opened Machine
  import opened StmtCode
  import opened PreLink
  import opened Compiler
  import opened Pipeline

  /** The children of the program node before expansion. */
  datatype VTopLevel = VCode(s: VStmt) | VEventDecl(id: nat) | VSubDecl(id: nat)

  function Declaration(c: VTopLevel): TopLevel
    requires !c.VCode?
  {
    if c.VEventDecl? then EventDecl(c.id) else SubDecl(c.id)
  }

  function ExpandProgram(children: seq<VTopLevel>, sp: Space, temp: string): VResult<seq<TopLevel>>
    decreases |children|
  {
    if children == [] then VResult.Ok([])
    else if !children[0].VCode? then
      var rest :- ExpandProgram(children[1..], sp, temp);
      VResult.Ok([Declaration(children[0])] + rest)
    else
      var first :- ExpandStmt(children[0].s, sp, temp);
      var rest :- ExpandProgram(children[1..], first.1, temp);
      VResult.Ok([Code(first.0)] + rest)
  }

  // ----- the source program -----

  /** The statements of segment k. */
  function VBodyOf(children: seq<VTopLevel>, cur: Key, k: Key): seq<VStmt>
    decreases |children|
  {
    if children == [] then []
    else if children[0].VCode? then (if cur == k then [children[0].s] else []) + VBodyOf(children[1..], cur, k)
    else VBodyOf(children[1..], KeyOf(Declaration(children[0])), k)
  }

  function VBody(children: seq<VTopLevel>, k: Key): seq<VStmt> { VBodyOf(children, EventKey(EVENT_INIT), k) }

  function VDeclaredSubs(children: seq<VTopLevel>): set<nat> { set c | c in children && c.VSubDecl? :: c.id }

  function VSubBodies(children: seq<VTopLevel>): map<nat, VStmt> {
    map id | id in VDeclaredSubs(children) :: VBlock(VBody(children, SubKey(id)))
  }

  /** The run of an event. */
  function VEventRun(children: seq<VTopLevel>, id: nat, st: State, fuel: nat): Outcome {
    VExec(VBlock(VBody(children, EventKey(id))), VSubBodies(children), st, fuel)
  }

  predicate ProgramAccepted(children: seq<VTopLevel>, sp: Space) {
    forall c | c in children && c.VCode? :: Accepted(c.s, sp)
  }

  // ----- segment by segment -----

  lemma {:induction false} BodyExpands(
      children: seq<VTopLevel>, sp: Space, x: Space, temp: string, cur: Key, k: Key)
    requires Later(sp, x) && ExpandProgram(children, x, temp).Ok? && ProgramAccepted(children, sp)
    ensures AllAccepted(VBodyOf(children, cur, k), sp)
    ensures ExpandsAll(VBodyOf(children, cur, k), BodyOf(ExpandProgram(children, x, temp).value, cur, k), sp, temp)
    decreases |children|
  {
    hide ExpandStmt, Sound, Accepted, Expands;
    if children != [] {
      assert forall c | c in children[1..] :: c in children;
      var c := children[0];
      if !c.VCode? {
        var rest := ExpandProgram(children[1..], x, temp).value;
        assert ([Declaration(c)] + rest)[1..] == rest;
        BodyExpands(children[1..], sp, x, temp, KeyOf(Declaration(c)), k);
      } else {
        assert c in children;
        var first := ExpandStmt(c.s, x, temp).value;
        var rest := ExpandProgram(children[1..], first.1, temp).value;
        assert ([Code(first.0)] + rest)[1..] == rest;
        ExpandLater(c.s, x, temp);
        BodyExpands(children[1..], sp, first.1, temp, cur, k);
        OneExpands(c.s, sp, x, temp);
      }
    }
  }

  lemma OneExpands(s: VStmt, sp: Space, x: Space, temp: string)
    requires Later(sp, x) && ExpandStmt(s, x, temp).Ok?
    ensures Expands(s, ExpandStmt(s, x, temp).value.0, sp, temp)
  {
  }

  lemma {:induction false} SameSubs(children: seq<VTopLevel>, x: Space, temp: string)
    requires ExpandProgram(children, x, temp).Ok?
    ensures forall id :: SubDecl(id) in ExpandProgram(children, x, temp).value <==> VSubDecl(id) in children
    decreases |children|
  {
    hide ExpandStmt;
    if children != [] {
      var next := if children[0].VCode? then ExpandStmt(children[0].s, x, temp).value.1 else x;
      SameSubs(children[1..], next, temp);
      assert forall c :: c in children <==> c == children[0] || c in children[1..];
    }
  }

  lemma ProgramExpands(children: seq<VTopLevel>, sp: Space, temp: string)
    requires Sound(sp) && ExpandProgram(children, sp, temp).Ok? && ProgramAccepted(children, sp)
    ensures SubsExpand(VSubBodies(children), SubBodies(ExpandProgram(children, sp, temp).value), sp, temp)
  {
    hide ExpandProgram, VBodyOf, BodyOf, Sound, ExpandsAll, AllAccepted;
    var scalar := ExpandProgram(children, sp, temp).value;
    SameSubs(children, sp, temp);
    forall id
      ensures id in VDeclaredSubs(children) <==> id in DeclaredSubs(scalar)
    {
      assert VSubDecl(id) in children <==> SubDecl(id) in scalar;
      assert id in VDeclaredSubs(children) <==> VSubDecl(id) in children;
      assert id in DeclaredSubs(scalar) <==> SubDecl(id) in scalar;
    }
    forall id | id in VDeclaredSubs(children)
      ensures SubExpands(VSubBodies(children)[id], SubBodies(scalar)[id], sp, temp)
    {
      BodyExpands(children, sp, sp, temp, EventKey(EVENT_INIT), SubKey(id));
    }
  }

  // ----- main results -----

  /** The scalar program runs every event like the vector program. */
  lemma EventExpands(children: seq<VTopLevel>, sp: Space, temp: string, id: nat, st: State, fuel: nat)
    requires Sound(sp) && sp.total <= |st.mem| && temp !in sp.vars && ProgramAccepted(children, sp)
    requires ExpandProgram(children, sp, temp).Ok?
    ensures var scalar := ExpandProgram(children, sp, temp).value;
            SameRun(Exec(EventBody(scalar, id), SubBodies(scalar), st, fuel), VEventRun(children, id, st, fuel), sp)
  {
    hide ExpandProgram, VBodyOf, BodyOf, Sound, ExpandsAll, AllAccepted, SubsExpand, SubBodies, VSubBodies, SameRun;
    ProgramExpands(children, sp, temp);
    BodyExpands(children, sp, sp, temp, EventKey(EVENT_INIT), EventKey(id));
    var scalar := ExpandProgram(children, sp, temp).value;
    AllRefine(VBody(children, EventKey(id)), Body(scalar, EventKey(id)), sp, temp,
              VSubBodies(children), SubBodies(scalar), st, st, fuel);
  }

  /** Expansion, optimization, code generation and linking. If an event of the vector program ends,
      with its scalar form inside the optimizer's domain, then the compiled program, started at the
      entry of that event in the vector table, halts. It has then emitted the same events and left
      the same memory in all words but those kept for temporaries. */
  lemma VectorEventRuns(
      source: seq<VTopLevel>, sp: Space, temp: string, ids: set<nat>, tableSize: nat, depth: map<nat, nat>,
      stackSize: nat, limit: nat, a: nat, st: State, fuel: nat)
    requires Sound(sp) && sp.total <= |st.mem| && temp !in sp.vars && ProgramAccepted(source, sp)
    requires ExpandProgram(source, sp, temp).Ok?
    requires var scalar := ExpandProgram(source, sp, temp).value;
             && Typed(scalar) && OptProgram(scalar).Ok? && SelfContained(scalar, ids)
             && var opt := OptProgram(scalar).value;
             && Compiled(opt, tableSize, depth, stackSize) && limit >= stackSize + Slack(opt)
             && AllClose(opt, ids) && a in EventTable(opt, tableSize)
             && var id := EventTable(opt, tableSize)[a];
             && CallsOnly(Body(scalar, EventKey(id)), ids)
             && RunInDomain(EventBody(scalar, id), Only(SubBodies(scalar), ids), st, fuel)
             && VEventRun(source, id, st, fuel).Ends()
    ensures var opt := OptProgram(ExpandProgram(source, sp, temp).value).value;
            var o := VEventRun(source, EventTable(opt, tableSize)[a], st, fuel);
            exists end :: Alike(end, o.st, sp) &&
              Reaches(MachineOf(opt, tableSize, limit), Running(Machine(a, [], st)), Halted(end))
  {
    hide ExpandProgram, OptProgram, Reaches, RunInDomain, EventTable, Slack, SubBodies, Exec, Typed, SelfContained,
         AllClose, CallsOnly, Only, MachineOf, Compilable, VEventRun, Sound, Alike, BodyOf, ProgramAccepted;
    var scalar := ExpandProgram(source, sp, temp).value;
    var id := EventTable(OptProgram(scalar).value, tableSize)[a];
    EventExpands(source, sp, temp, id, st, fuel);
    SourceEventRuns(scalar, ids, tableSize, depth, stackSize, limit, a, st, fuel);
    var end := Exec(EventBody(scalar, id), SubBodies(scalar), st, fuel).st;
    assert Alike(end, VEventRun(source, id, st, fuel).st, sp);
  }
}
