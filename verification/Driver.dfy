/** The back end as the compiler drives it: emit, fix up, check the stack, link. */
module Driver {
  import opened Words
  import opened Tree
  import opened Semantics
  import opened Shapes
  import opened Bytecode
  import opened CodeGen
  import opened Machine
  import opened Relocation
  import opened StackCheck
  import opened PreLink
  import opened Linker
  import opened StmtCode
  import opened Compiler
  import opened ControlFlow

  datatype BackEnd = Program(bytecode: seq<word>, depth: map<nat, nat>) | StackOverflow | ScriptTooBig

  /** Every call in a final segment goes to a final segment. */
  lemma CallsHaveSegments(children: seq<TopLevel>, tableSize: nat)
    requires Compilable(children, tableSize)
    ensures var segs := SegmentsOf(children);
            CallsResolve(EventList(segs), SubList(segs)) && CallsResolve(SubList(segs), SubList(segs))
  {
    hide EventList, SubList, SegmentsOf, EmitAll, FixCode, Body, CalleesAll, StackDepthAll, CallsOf, Closing, Whole;
    var segs := SegmentsOf(children);
    SegmentOf(children, EventKey(0));
    ListsNamed(segs);
    forall s | s in EventList(segs)
      ensures CallsOf(s.code) <= Ids(SubList(segs))
    {
      SegmentOf(children, EventKey(s.id));
      BodyReady(children, tableSize, EventKey(s.id));
      EventCode(Body(children, EventKey(s.id)), []);
      DeclaredHaveSegments(children);
    }
    forall s | s in SubList(segs)
      ensures CallsOf(s.code) <= Ids(SubList(segs))
    {
      SegmentOf(children, SubKey(s.id));
      BodyReady(children, tableSize, SubKey(s.id));
      SubFixed(Body(children, SubKey(s.id)), []);
      DeclaredHaveSegments(children);
    }
  }

  lemma DeclaredHaveSegments(children: seq<TopLevel>)
    requires UniqueDecls(children)
    ensures DeclaredSubs(children) <= Ids(SubList(SegmentsOf(children)))
  {
    hide EventList, SubList, SegmentsOf, EmitAll, FixCode, Body, StackDepthAll;
    var segs := SegmentsOf(children);
    forall id | id in DeclaredSubs(children)
      ensures id in Ids(SubList(segs))
    {
      DeclaredSub(children, id);
      SegmentOf(children, SubKey(id));
      ListsNamed(segs);
      assert segs[SubKey(id)] in SubList(segs);
    }
  }

  /** The back end succeeds exactly when no call chain overflows the stack and the program fits. An
      addressable program then satisfies all that the correctness of its events rests upon. */
  method GenerateCode(children: seq<TopLevel>, tableSize: nat, stackSize: nat, bytecodeSize: nat) returns (r: BackEnd)
    requires Compilable(children, tableSize)
    ensures var events, subs := EventList(SegmentsOf(children)), SubList(SegmentsOf(children));
            && (r == StackOverflow <==> Overflows(events, subs, stackSize))
            && (r == ScriptTooBig <==> !Overflows(events, subs, stackSize) && |Unresolved(events, subs)| > bytecodeSize)
            && (r.Program? && Addressable(events, subs, tableSize) ==>
                  && Compiled(children, tableSize, r.depth, stackSize)
                  && forall limit :: MachineOf(children, tableSize, limit) == VM(r.bytecode, limit))
  {
    hide EventList, SubList, EmitProgram, Fixed, Overflows, Settled, Unresolved, Linked, SubTable,
         Compilable, Addressable;
    var pre := new PreLinkBytecode();
    pre.Emit(children);
    pre.Fixup();
    var events, subs := EventList(pre.segments), SubList(pre.segments);
    CallsHaveSegments(children, tableSize);
    SubIdsFit(children, tableSize);
    var ok, depth := VerifyStackCalls(events, subs, stackSize);
    if !ok {
      return StackOverflow;
    }
    var fits, bytecode, table := Link(events, subs, tableSize, bytecodeSize);
    LinkedSize(events, subs, tableSize);
    if !fits {
      return ScriptTooBig;
    }
    r := Program(bytecode, depth);
  }

  /** A program of at most 4096 words with the event ids the compiler gives out is addressable. */
  lemma SmallIsAddressable(children: seq<TopLevel>, tableSize: nat)
    requires Compilable(children, tableSize) && forall c | c in children && c.EventDecl? :: EventId(c.id)
    requires |Unresolved(EventList(SegmentsOf(children)), SubList(SegmentsOf(children)))| <= 4096
    ensures Addressable(EventList(SegmentsOf(children)), SubList(SegmentsOf(children)), tableSize)
  {
    hide EventList, SubList, SegmentsOf, Compilable, Distinct, Whole, CallsOf, SubTable, Unresolved, TableInert;
    var segs := SegmentsOf(children);
    var events, subs := EventList(segs), SubList(segs);
    SegmentsLinkable(children, tableSize);
    CallsHaveSegments(children, tableSize);
    SubBaseBound(events, subs);
    EventIdsGiven(children, tableSize);
    SmallTableInert(events);
    forall s: Segment, id | s in events + subs && id in CallsOf(s.code)
      ensures id < tableSize && SubTable(events, subs, tableSize)[id] < 4096
    {
      assert id in Ids(subs);
      var i :| 0 <= i < |subs| && subs[i].id == id;
      SubTableAt(events, subs, tableSize, i);
      StartBound(subs, SubBase(events), i);
      UnresolvedSize(events, subs);
      NonEmptySubs(children, tableSize);
    }
  }

  lemma UnresolvedSize(events: seq<Segment>, subs: seq<Segment>)
    ensures |Unresolved(events, subs)| == SubBase(events) + |Flat(subs)|
  {
  }

  lemma {:induction false} StartBound(segments: seq<Segment>, base: nat, i: nat)
    requires i < |segments|
    ensures Start(segments, base, i) + |segments[i].code| <= base + |Flat(segments)|
    decreases |segments|
  {
    if i > 0 {
      StartBound(segments[1..], base + |segments[0].code|, i - 1);
    }
  }

  lemma EventIdsGiven(children: seq<TopLevel>, tableSize: nat)
    requires Compilable(children, tableSize) && forall c | c in children && c.EventDecl? :: EventId(c.id)
    ensures forall e | e in EventList(SegmentsOf(children)) :: EventId(e.id)
  {
    hide EventList, SubList, SegmentsOf, EmitAll, FixCode, Body, StackDepthAll, Keys;
    var segs := SegmentsOf(children);
    SegmentOf(children, EventKey(0));
    ListsNamed(segs);
    forall e | e in EventList(segs)
      ensures EventId(e.id)
    {
      SegmentOf(children, EventKey(e.id));
      DeclaredKey(children, EventKey(e.id));
    }
  }

  lemma NonEmptySubs(children: seq<TopLevel>, tableSize: nat)
    requires Compilable(children, tableSize)
    ensures forall s | s in SubList(SegmentsOf(children)) :: s.code != []
  {
    hide EventList, SubList, SegmentsOf, EmitAll, Body, StackDepthAll, CalleesAll, CallsOf, Whole, Rewrite;
    var segs := SegmentsOf(children);
    SegmentOf(children, EventKey(0));
    ListsNamed(segs);
    forall s | s in SubList(segs)
      ensures s.code != []
    {
      var body := Body(children, SubKey(s.id));
      SegmentOf(children, SubKey(s.id));
      BodyReady(children, tableSize, SubKey(s.id));
      SubFixed(body, []);
      ClosedCode(body);
    }
  }

  lemma ClosedCode(body: seq<Stmt>)
    ensures SubCode(body) + Closing(body) != []
  {
  }

  lemma SubIdsFit(children: seq<TopLevel>, tableSize: nat)
    requires Compilable(children, tableSize)
    ensures forall s | s in SubList(SegmentsOf(children)) :: s.id < tableSize
  {
    hide EventList, SubList, SegmentsOf, Compilable, Distinct, Whole;
    SegmentsLinkable(children, tableSize);
  }

  // ----- control stays in the segments -----

  /** Every event segment of a program is closed, and so is every subroutine that got a closing word. */
  lemma SegmentsClosed(children: seq<TopLevel>, tableSize: nat, k: Key)
    requires Compilable(children, tableSize) && k in SegmentsOf(children)
    requires k.SubKey? ==> Closing(Body(children, k)) != []
    ensures Closed(SegmentsOf(children)[k].code)
  {
    hide SegmentsOf, EmitAll, Body, StackDepthAll, CalleesAll, CallsOf, Whole, Rewrite, Closed, Pack, Emittable, Fits,
        NoWhen;
    var body := Body(children, k);
    SegmentOf(children, k);
    BodyReady(children, tableSize, k);
    BlockReady(body);
    if k.SubKey? {
      SubFixed(body, []);
      ClosedSegment(body, Placement(true, None));
    } else {
      ClosedSegment(body, Raw);
    }
  }

  lemma BlockReady(body: seq<Stmt>)
    requires ReadyStmt(Block(body))
    ensures forall t | t in body :: Fits(t) && Emittable(t)
  {
  }

  // ----- the assumptions can be met -----

  /** `a = 1`, the program of one assignment. */
  const OneAssignment: seq<TopLevel> := [Code(Assign(Store(0), Imm(1)))]

  lemma OneAssignmentBody(k: Key)
    ensures Body(OneAssignment, k) == if k == EventKey(EVENT_INIT) then [Assign(Store(0), Imm(1))] else []
    ensures Keys(OneAssignment) == {EventKey(EVENT_INIT)} && DeclaredSubs(OneAssignment) == {}
    ensures Compilable(OneAssignment, 0)
  {
    assert OneAssignment[1..] == [] && Callees(OneAssignment[0].s) == {};
    assert BodyOf([], EventKey(EVENT_INIT), k) == [];
  }

  lemma OneAssignmentCode()
    ensures var body := [Assign(Store(0), Imm(1))];
            && |EmitAll(body, Raw)| == 2 && StackDepthAll(body) <= 1 && CalleesAll(body) == {}
            && |FixCode(false, EmitAll(body, Raw))| == 3
  {
    hide Pack;
    var s := Assign(Store(0), Imm(1));
    assert [s][1..] == [] && EmitAll([], Raw) == [] && StackDepthAll([]) == 0 && CalleesAll([]) == {};
    assert |EmitStmt(s, Raw)| == 2 && StackDepth(s) <= 1 && Callees(s) == {};
    assert EmitAll([s], Raw) == EmitStmt(s, Raw) + [];
  }

  /** So every program theorem speaks about some program. */
  lemma SomeProgramCompiles()
    ensures Compiled(OneAssignment, 0, map[], 1)
  {
    hide EventList, SubList, SegmentsOf, EmitAll, Body, CalleesAll, StackDepthAll, CallsOf, Whole, FixCode, Pack,
        Compilable, Keys;
    var segs, k := SegmentsOf(OneAssignment), EventKey(EVENT_INIT);
    OneAssignmentBody(k);
    OneAssignmentCode();
    var events, subs := EventList(segs), SubList(segs);
    assert UniqueDecls(OneAssignment);
    SegmentOf(OneAssignment, k);
    ListsNamed(segs);
    BodyReady(OneAssignment, 0, k);
    EventCode(Body(OneAssignment, k), []);
    forall e | e in events
      ensures e == segs[k]
    {
      SegmentOf(OneAssignment, EventKey(e.id));
    }
    forall s
      ensures s !in subs
    {
      SegmentOf(OneAssignment, SubKey(s.id));
    }
    FirstIn(subs);
    assert segs[k] in events;
    OnlySegment(events, segs[k]);
    assert Flat(events) == segs[k].code + Flat([]) && Flat([]) == [];
    SmallTableInert(events);
  }

  lemma FirstIn(list: seq<Segment>)
    ensures list != [] ==> list[0] in list
  {
  }

  lemma OnlySegment(list: seq<Segment>, s: Segment)
    requires Distinct(list) && s in list && forall e | e in list :: e == s
    ensures list == [s]
  {
    assert forall i | 0 <= i < |list| :: list[i] in list;
    assert |list| > 1 ==> list[0].id != list[1].id;
    assert |list| == 1 && list[0] == s;
  }
}
