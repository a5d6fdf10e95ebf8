/** The back end as a whole: from the optimized program to the running machine. */
module Compiler {
  import opened Words
  import opened Tree
  import opened Semantics
  import opened Shapes
  import opened Bytecode
  import opened CodeGen
  import opened Machine
  import opened ExprCode
  import opened StmtCode
  import opened Divergence
  import opened Relocation
  import opened StackCheck
  import opened PreLink
  import opened Linker

  // ----- segments in the order of their ids -----

  lemma {:induction false} LeastExists(ids: set<nat>)
    requires ids != {}
    ensures exists m :: m in ids && forall x | x in ids :: m <= x
    decreases |ids|
  {
    var y :| y in ids;
    var rest := ids - {y};
    if rest == {} {
      assert ids == {y};
    } else {
      LeastExists(rest);
      var m :| m in rest && forall x | x in rest :: m <= x;
      var least := if m <= y then m else y;
      assert forall x | x in ids :: x == y || x in rest;
      assert least in ids && forall x | x in ids :: least <= x;
    }
  }

  function Least(ids: set<nat>): (m: nat)
    requires ids != {}
    ensures m in ids && forall x | x in ids :: m <= x
  {
    LeastExists(ids);
    var m :| m in ids && forall x | x in ids :: m <= x;
    m
  }

  /** The elements in ascending order. */
  function Ascending(ids: set<nat>): (s: seq<nat>)
    ensures forall x :: x in s <==> x in ids
    ensures forall i, j | 0 <= i < j < |s| :: s[i] < s[j]
  {
    if ids == {} then [] else [Least(ids)] + Ascending(ids - {Least(ids)})
  }

  function EventIds(segments: Segments): set<nat> { set k | k in segments && k.EventKey? :: k.id }

  function SubIds(segments: Segments): set<nat> { set k | k in segments && k.SubKey? :: k.id }

  function SegmentList(segments: Segments, sub: bool, ids: seq<nat>): (list: seq<Segment>)
    requires forall id | id in ids :: MakeKey(sub, id) in segments
    ensures |list| == |ids| && forall i | 0 <= i < |ids| :: list[i] == segments[MakeKey(sub, ids[i])]
  {
    if ids == [] then [] else [segments[MakeKey(sub, ids[0])]] + SegmentList(segments, sub, ids[1..])
  }

  function MakeKey(sub: bool, id: nat): Key { if sub then SubKey(id) else EventKey(id) }

  function EventList(segments: Segments): seq<Segment> { SegmentList(segments, false, Ascending(EventIds(segments))) }

  function SubList(segments: Segments): seq<Segment> { SegmentList(segments, true, Ascending(SubIds(segments))) }

  /** Segments stored under their own ids. */
  predicate Named(segments: Segments) { forall k | k in segments :: segments[k].id == k.id }

  lemma ListsNamed(segments: Segments)
    requires Named(segments)
    ensures forall s :: s in EventList(segments) <==> EventKey(s.id) in segments && segments[EventKey(s.id)] == s
    ensures forall s :: s in SubList(segments) <==> SubKey(s.id) in segments && segments[SubKey(s.id)] == s
    ensures Distinct(EventList(segments)) && Distinct(SubList(segments))
  {
    ListNamed(segments, false, Ascending(EventIds(segments)));
    ListNamed(segments, true, Ascending(SubIds(segments)));
  }

  lemma ListNamed(segments: Segments, sub: bool, ids: seq<nat>)
    requires Named(segments)
    requires forall id :: id in ids <==> MakeKey(sub, id) in segments
    requires forall i, j | 0 <= i < j < |ids| :: ids[i] < ids[j]
    ensures var list := SegmentList(segments, sub, ids);
            && (forall s :: s in list <==> MakeKey(sub, s.id) in segments && segments[MakeKey(sub, s.id)] == s)
            && Distinct(list)
  {
    var list := SegmentList(segments, sub, ids);
    forall s: Segment | MakeKey(sub, s.id) in segments && segments[MakeKey(sub, s.id)] == s
      ensures s in list
    {
      var i :| 0 <= i < |ids| && ids[i] == s.id;
      assert list[i] == s;
    }
    forall i | 0 <= i < |list|
      ensures list[i].id == ids[i]
    {
      assert ids[i] in ids;
      assert list[i] == segments[MakeKey(sub, ids[i])];
    }
  }

  // ----- programs ready for code generation -----

  function DeclaredSubs(children: seq<TopLevel>): set<nat> { set c | c in children && c.SubDecl? :: c.id }

  predicate ReadyStmt(s: Stmt) { Emittable(s) && Fits(s) }

  /** What optimization and the parser guarantee, and that operands fit their fields. */
  predicate Compilable(children: seq<TopLevel>, tableSize: nat)
  {
    && UniqueDecls(children) && tableSize <= 4096
    && (forall c | c in children && c.Code? :: ReadyStmt(c.s) && Callees(c.s) <= DeclaredSubs(children))
    && (forall c | c in children && c.EventDecl? :: c.id < 65536)
    && (forall c | c in children && c.SubDecl? :: c.id < tableSize)
  }

  function SegmentsOf(children: seq<TopLevel>): Segments { Fixed(EmitProgram(children)) }

  lemma {:induction false} BodyMembers(children: seq<TopLevel>, cur: Key, k: Key)
    ensures forall t | t in BodyOf(children, cur, k) :: Code(t) in children
  {
    if children != [] {
      BodyMembers(children[1..], if children[0].Code? then cur else KeyOf(children[0]), k);
      assert forall c | c in children[1..] :: c in children;
    }
  }

  lemma {:induction false} BodyCallees(stmts: seq<Stmt>, ids: set<nat>)
    requires forall t | t in stmts :: Callees(t) <= ids
    ensures CalleesAll(stmts) <= ids
  {
    hide Callees;
    if stmts != [] {
      BodyCallees(stmts[1..], ids);
    }
  }

  /** The body of segment k is a statement ready for code generation. */
  lemma BodyReady(children: seq<TopLevel>, tableSize: nat, k: Key)
    requires Compilable(children, tableSize)
    ensures ReadyStmt(Block(Body(children, k)))
    ensures CalleesAll(Body(children, k)) <= DeclaredSubs(children)
  {
    hide Callees, BodyOf;
    BodyMembers(children, EventKey(EVENT_INIT), k);
    var body := Body(children, k);
    forall t | t in body
      ensures ReadyStmt(t) && Callees(t) <= DeclaredSubs(children)
    {
      assert Code(t) in children;
    }
    BodyCallees(body, DeclaredSubs(children));
  }

  /** The final segment for key k. */
  lemma SegmentOf(children: seq<TopLevel>, k: Key)
    requires UniqueDecls(children)
    ensures Named(SegmentsOf(children))
    ensures k in SegmentsOf(children) <==>
              k in Keys(children) && !(k.EventKey? && EmitAll(Body(children, k), Raw) == [])
    ensures k in SegmentsOf(children) ==>
              SegmentsOf(children)[k] ==
              Segment(k.id, FixCode(k.SubKey?, EmitAll(Body(children, k), Raw)), StackDepthAll(Body(children, k)))
  {
    hide FixCode, EmitAll, StackDepthAll, BodyOf, EmitProgram;
    EmitProgramSegments(children);
    var p := EmitProgram(children);
    forall j | j in p
      ensures p[j].id == j.id
    {
      assert Holds(p, j, Body(children, j));
    }
    if k in Keys(children) {
      assert Holds(p, k, Body(children, k));
    }
  }

  // ----- the code of the final segments -----

  lemma EventCode(body: seq<Stmt>, table: seq<nat>)
    requires ReadyStmt(Block(body))
    ensures var code := FixCode(false, EmitAll(body, Raw));
            && code != [] && Whole(code) && CallsOf(code) == CalleesAll(body)
            && Rewrite(code, Resolve(table)) == EmitAll(body, Placement(false, Some(table))) + [Pack(STOP, 0)]
  {
    hide Whole, CallsOf, Rewrite, EmitAll, CalleesAll, Pack;
    var r := Resolve(table);
    StmtRelocates(Block(body), Raw, r);
    ReturnRelocates(Raw, r);
    RelocatesConcat(EmitAll(body, Raw), [Pack(STOP, 0)], CalleesAll(body), {}, r,
                    EmitAll(body, Placement(false, Some(table))), [Pack(STOP, 0)]);
    assert CalleesAll(body) + {} == CalleesAll(body);
  }

  /** The code of a subroutine before it is closed. */
  function SubCode(body: seq<Stmt>): seq<word> { EmitAll(body, Placement(true, None)) }

  /** The word that closes a subroutine, unless its code ends in a return already. */
  function Closing(body: seq<Stmt>): seq<word> { if TypeOfLast(SubCode(body)) == SUB_RET then [] else [SUB_RET * 4096] }

  lemma SubFixed(body: seq<Stmt>, table: seq<nat>)
    requires ReadyStmt(Block(body))
    ensures var code := FixCode(true, EmitAll(body, Raw));
            && code == SubCode(body) + Closing(body) && Whole(code) && CallsOf(code) == CalleesAll(body)
            && Rewrite(code, Resolve(table)) == EmitAll(body, Placement(true, Some(table))) + Closing(body)
  {
    hide Whole, CallsOf, Rewrite, EmitAll, CalleesAll, TypeOfLast;
    var r, p := Resolve(table), Placement(true, None);
    StmtRelocates(Block(body), Raw, StopToRet);
    StmtRelocates(Block(body), p, r);
    assert SubCode(body) + [] == SubCode(body);
    if TypeOfLast(SubCode(body)) == SUB_RET {
      var placed := EmitAll(body, Placement(true, Some(table)));
      assert placed + [] == placed;
    } else {
      ReturnRelocates(p, r);
      RelocatesConcat(SubCode(body), [SUB_RET * 4096], CalleesAll(body), {}, r,
                      EmitAll(body, Placement(true, Some(table))), [SUB_RET * 4096]);
      assert CalleesAll(body) + {} == CalleesAll(body);
    }
  }

  // ----- the loaded image -----

  function SubBodies(children: seq<TopLevel>): map<nat, Stmt> {
    map id | id in DeclaredSubs(children) :: Block(Body(children, SubKey(id)))
  }

  /** The code of the subroutine has its closing word if control may reach the end. */
  predicate Closes(body: seq<Stmt>) { MayFall(Block(body)) ==> Closing(body) != [] }

  /** Only these subroutines. */
  function Only(subs: map<nat, Stmt>, ids: set<nat>): map<nat, Stmt> { map id | id in subs && id in ids :: subs[id] }

  /** Declared subroutines without `when` that call none but each other. */
  predicate SelfContained(children: seq<TopLevel>, ids: set<nat>)
  {
    ids <= DeclaredSubs(children) && forall id | id in ids :: CallsOnly(Body(children, SubKey(id)), ids)
  }

  /** A body without `when` that calls these subroutines at most. */
  predicate CallsOnly(body: seq<Stmt>, ids: set<nat>) { NoWhen(Block(body)) && CalleesAll(body) <= ids }

  /** None of them may fall off its end. */
  predicate AllClose(children: seq<TopLevel>, ids: set<nat>) {
    forall id | id in ids :: Closes(Body(children, SubKey(id)))
  }

  /** A statement runs the same whatever subroutines it does not call. */
  lemma {:induction false} ExecOnly(s: Stmt, subs: map<nat, Stmt>, ids: set<nat>, st: State, fuel: nat)
    requires Callees(s) <= ids <= subs.Keys && forall id | id in ids :: Callees(subs[id]) <= ids
    ensures Exec(s, Only(subs, ids), st, fuel) == Exec(s, subs, st, fuel)
    decreases fuel, s, 1
  {
    hide Eval, ExecAssign;
    match s
    case Block(stmts) => ExecAllOnly(stmts, subs, ids, st, fuel);
    case IfWhen(_, _, thn, els) =>
      ExecOnly(thn, subs, ids, st, fuel);
      if els.Some? {
        ExecOnly(els.value, subs, ids, st, fuel);
      }
    case FoldedIf(_, _, _, _, thn, els) =>
      ExecOnly(thn, subs, ids, st, fuel);
      if els.Some? {
        ExecOnly(els.value, subs, ids, st, fuel);
      }
    case While(_, body) => LoopOnly(s, body, subs, ids, st, fuel);
    case FoldedWhile(_, _, _, body) => LoopOnly(s, body, subs, ids, st, fuel);
    case Emit(_, _, _, pre) => ExecAllOnly(pre, subs, ids, st, fuel);
    case CallSub(id) =>
      assert id in Callees(s);
      if fuel > 0 {
        ExecOnly(subs[id], subs, ids, st, fuel - 1);
      }
    case _ =>
  }

  lemma {:induction false} LoopOnly(
      s: Stmt, body: Stmt, subs: map<nat, Stmt>, ids: set<nat>, st: State, fuel: nat)
    requires (s.While? || s.FoldedWhile?) && body == s.body
    requires Callees(s) <= ids <= subs.Keys && forall id | id in ids :: Callees(subs[id]) <= ids
    ensures Exec(s, Only(subs, ids), st, fuel) == Exec(s, subs, st, fuel)
    decreases fuel, s, 0
  {
    hide Eval, Only;
    if fuel > 0 {
      ExecOnly(body, subs, ids, st, fuel - 1);
      var o := Exec(body, subs, st, fuel - 1);
      if o.Done? {
        ExecOnly(s, subs, ids, o.st, fuel - 1);
      }
    }
  }

  lemma {:induction false} ExecAllOnly(stmts: seq<Stmt>, subs: map<nat, Stmt>, ids: set<nat>, st: State, fuel: nat)
    requires CalleesAll(stmts) <= ids <= subs.Keys && forall id | id in ids :: Callees(subs[id]) <= ids
    ensures ExecAll(stmts, Only(subs, ids), st, fuel) == ExecAll(stmts, subs, st, fuel)
    decreases fuel, stmts
  {
    hide Only;
    if stmts != [] {
      ExecOnly(stmts[0], subs, ids, st, fuel);
      var o := Exec(stmts[0], subs, st, fuel);
      if o.Done? {
        ExecAllOnly(stmts[1..], subs, ids, o.st, fuel);
      }
    }
  }

  /** The run of a body that only calls these subroutines. */
  lemma BodyOnly(children: seq<TopLevel>, ids: set<nat>, body: seq<Stmt>, st: State, fuel: nat)
    requires SelfContained(children, ids) && CallsOnly(body, ids)
    ensures Exec(Block(body), Only(SubBodies(children), ids), st, fuel) ==
            Exec(Block(body), SubBodies(children), st, fuel)
  {
    hide Exec, Body, CalleesAll, NoWhen;
    forall id | id in ids
      ensures Callees(SubBodies(children)[id]) <= ids
    {
      BlockParts(Body(children, SubKey(id)), Raw);
    }
    BlockParts(body, Raw);
    ExecOnly(Block(body), SubBodies(children), ids, st, fuel);
  }

  predicate WritesArrays(children: seq<TopLevel>) { exists c | c in children && c.Code? :: HasArrayWrite(c.s) }

  /** One slot more than checked, where arrays are written. */
  function Slack(children: seq<TopLevel>): nat { if WritesArrays(children) then 1 else 0 }

  lemma BodyPeak(children: seq<TopLevel>, k: Key)
    ensures PeakAll(Body(children, k)) <= StackDepthAll(Body(children, k)) + Slack(children)
  {
    hide PeakAll, StackDepthAll, HasArrayWrite, BodyOf;
    BodyMembers(children, EventKey(EVENT_INIT), k);
    PeakAllBound(Body(children, k));
    forall t | t in Body(children, k) && HasArrayWrite(t)
      ensures WritesArrays(children)
    {
      assert Code(t) in children;
    }
  }

  /** Everything the theorems assume about a compilation that succeeded. */
  predicate Compiled(children: seq<TopLevel>, tableSize: nat, depth: map<nat, nat>, stackSize: nat)
  {
    && Compilable(children, tableSize)
    && var events, subs := EventList(SegmentsOf(children)), SubList(SegmentsOf(children));
    && Settled(events, subs, depth, stackSize)
    && Addressable(events, subs, tableSize)
  }

  /** The program has sixteen-bit addresses, its vector table is not mistaken for code, and the
      subroutines that are called stand at addresses a call has room for. */
  predicate Addressable(events: seq<Segment>, subs: seq<Segment>, tableSize: nat)
  {
    && TableInert(events) && |Unresolved(events, subs)| < 65536
    && (forall s | s in subs :: s.id < tableSize)
    && forall s, id | s in events + subs && id in CallsOf(s.code) ::
         id < tableSize && SubTable(events, subs, tableSize)[id] < 4096
  }

  lemma SegmentsLinkable(children: seq<TopLevel>, tableSize: nat)
    requires Compilable(children, tableSize)
    ensures Linkable(EventList(SegmentsOf(children)), SubList(SegmentsOf(children)), tableSize)
  {
    hide Whole, EventList, SubList, SegmentsOf, EmitAll, FixCode, Body, Distinct, CalleesAll, StackDepthAll;
    var segs := SegmentsOf(children);
    var events, subs := EventList(segs), SubList(segs);
    SegmentOf(children, EventKey(0));
    ListsNamed(segs);
    forall e | e in events
      ensures e.id < 65536 && e.code != [] && Whole(e.code)
    {
      var k := EventKey(e.id);
      SegmentOf(children, k);
      BodyReady(children, tableSize, k);
      EventCode(Body(children, k), []);
      DeclaredKey(children, k);
    }
    forall s | s in subs
      ensures s.id < tableSize && Whole(s.code)
    {
      var k := SubKey(s.id);
      SegmentOf(children, k);
      BodyReady(children, tableSize, k);
      SubFixed(Body(children, k), []);
      DeclaredKey(children, k);
    }
  }

  lemma DeclaredKey(children: seq<TopLevel>, k: Key)
    requires k in Keys(children)
    ensures k == EventKey(EVENT_INIT) || (k.EventKey? && EventDecl(k.id) in children)
            || (k.SubKey? && SubDecl(k.id) in children && k.id in DeclaredSubs(children))
  {
  }

  lemma DeclaredSub(children: seq<TopLevel>, id: nat)
    requires id in DeclaredSubs(children)
    ensures SubDecl(id) in children && SubKey(id) in Keys(children)
  {
    assert KeyOf(SubDecl(id)) == SubKey(id);
  }

  /** The program in a machine, seen with some of its subroutines. */
  function ImageOf(children: seq<TopLevel>, ids: set<nat>, tableSize: nat, depth: map<nat, nat>, limit: nat): Image
    requires Compilable(children, tableSize)
  {
    SegmentsLinkable(children, tableSize);
    var events, subs := EventList(SegmentsOf(children)), SubList(SegmentsOf(children));
    Image(VM(Linked(events, subs, tableSize), limit), Only(SubBodies(children), ids),
          SubTable(events, subs, tableSize), depth)
  }

  /** The machine with the linked program. */
  function MachineOf(children: seq<TopLevel>, tableSize: nat, limit: nat): VM
    requires Compilable(children, tableSize)
  {
    ImageOf(children, {}, tableSize, map[], limit).vm
  }

  /** A subroutine as the linker placed it. */
  lemma SubPlaced(
      children: seq<TopLevel>, ids: set<nat>, tableSize: nat, depth: map<nat, nat>, stackSize: nat, limit: nat, id: nat)
    requires Compiled(children, tableSize, depth, stackSize) && id in DeclaredSubs(children)
    ensures var img := ImageOf(children, ids, tableSize, depth, limit);
            var body := Body(children, SubKey(id));
            id < |img.table| && At(img.vm.prog, img.table[id], EmitAll(body, img.Place(true)) + Closing(body))
  {
    hide Whole, EventList, SubList, SegmentsOf, EmitAll, FixCode, Body, Distinct, CalleesAll, StackDepthAll,
         Linked, Unresolved, At, Rewrite, SubTable, Closing, Settled;
    var segs, k := SegmentsOf(children), SubKey(id);
    var events, subs := EventList(segs), SubList(segs);
    var body := Body(children, k);
    SegmentsLinkable(children, tableSize);
    DeclaredSub(children, id);
    SegmentOf(children, k);
    ListsNamed(segs);
    var i :| 0 <= i < |subs| && subs[i] == segs[k];
    LinkedSub(events, subs, tableSize, i);
    BodyReady(children, tableSize, k);
    SubFixed(body, SubTable(events, subs, tableSize));
  }

  lemma SubBaseBound(events: seq<Segment>, subs: seq<Segment>)
    ensures SubBase(events) <= |Unresolved(events, subs)|
  {
  }

  lemma LinkedSize(events: seq<Segment>, subs: seq<Segment>, tableSize: nat)
    requires forall s | s in subs :: s.id < tableSize
    ensures |Linked(events, subs, tableSize)| == |Unresolved(events, subs)|
  {
  }

  /** Calls of the subroutine can be resolved. */
  predicate LowAddress(children: seq<TopLevel>, tableSize: nat, id: nat)
    requires Compilable(children, tableSize)
  {
    SegmentsLinkable(children, tableSize);
    id < tableSize && SubTable(EventList(SegmentsOf(children)), SubList(SegmentsOf(children)), tableSize)[id] < 4096
  }

  /** What the checks left holds for the tree. */
  lemma SubDepth(children: seq<TopLevel>, tableSize: nat, depth: map<nat, nat>, stackSize: nat, id: nat)
    requires Compiled(children, tableSize, depth, stackSize) && id in DeclaredSubs(children)
    ensures var body := Body(children, SubKey(id));
            && id in depth && depth[id] + StackDepthAll(body) <= stackSize
            && (forall c | c in CalleesAll(body) ::
                  c in DeclaredSubs(children) && c in depth && depth[id] < depth[c] &&
                      LowAddress(children, tableSize, c))
  {
    hide Whole, EventList, SubList, SegmentsOf, EmitAll, FixCode, Body, Distinct, CalleesAll, StackDepthAll,
         Unresolved, CallsOf, Closing;
    var segs, k := SegmentsOf(children), SubKey(id);
    DeclaredSub(children, id);
    SegmentOf(children, k);
    ListsNamed(segs);
    assert segs[k] in SubList(segs);
    BodyReady(children, tableSize, k);
    SubFixed(Body(children, k), []);
    assert CoversSub(segs[k], depth);
  }

  lemma SubIsLoaded(
      children: seq<TopLevel>, ids: set<nat>, tableSize: nat, depth: map<nat, nat>, stackSize: nat, limit: nat, id: nat)
    requires Compiled(children, tableSize, depth, stackSize) && limit >= stackSize + Slack(children)
    requires SelfContained(children, ids) && AllClose(children, ids) && id in ids
    ensures var img := ImageOf(children, ids, tableSize, depth, limit); id in img.subs && img.SubLoaded(id)
  {
    hide EventList, SubList, SegmentsOf, EmitAll, Body, CalleesAll, StackDepthAll, PeakAll, At, Linked, SubTable,
         Settled, Slack, MayFall, Emittable, Fits, NoWhen, TypeOfLast, Unresolved;
    var img := ImageOf(children, ids, tableSize, depth, limit);
    var k := SubKey(id);
    var body := Body(children, k);
    var code := EmitAll(body, img.Place(true));
    assert img.subs[id] == Block(body);
    SubPlaced(children, ids, tableSize, depth, stackSize, limit, id);
    SubDepth(children, tableSize, depth, stackSize, id);
    BodyReady(children, tableSize, k);
    BodyPeak(children, k);
    AtSplit(img.vm.prog, img.table[id], code, Closing(body));
    if MayFall(Block(body)) {
      assert Closing(body) == [SUB_RET * 4096];
    } else if Closing(body) == [] {
      ReturnNotEmpty(body, img.Place(true));
    }
    BlockParts(body, img.Place(true));
  }

  lemma BlockParts(body: seq<Stmt>, p: Placement)
    ensures EmitStmt(Block(body), p) == EmitAll(body, p)
    ensures Callees(Block(body)) == CalleesAll(body) && Peak(Block(body)) == PeakAll(body)
  {
  }

  /** A statement without code lets control through. */
  lemma {:induction false} ReturnNotEmpty(stmts: seq<Stmt>, p: Placement)
    requires !MayFall(Block(stmts))
    ensures EmitAll(stmts, p) != []
  {
    if EmitAll(stmts, p) == [] {
      EmptyFalls(Block(stmts), p);
    }
  }

  lemma {:induction false} EmptyFalls(s: Stmt, p: Placement)
    requires EmitStmt(s, p) == []
    ensures MayFall(s)
  {
    match s
    case Block(stmts) => EmptyAllFall(stmts, p);
    case _ =>
  }

  lemma {:induction false} EmptyAllFall(stmts: seq<Stmt>, p: Placement)
    requires EmitAll(stmts, p) == []
    ensures forall t | t in stmts :: MayFall(t)
  {
    if stmts != [] {
      assert |EmitStmt(stmts[0], p) + EmitAll(stmts[1..], p)| == |EmitStmt(stmts[0], p)| + |EmitAll(stmts[1..], p)|;
      EmptyFalls(stmts[0], p);
      EmptyAllFall(stmts[1..], p);
    }
  }

  lemma ImageLoaded(
      children: seq<TopLevel>, ids: set<nat>, tableSize: nat, depth: map<nat, nat>, stackSize: nat, limit: nat)
    requires Compiled(children, tableSize, depth, stackSize) && limit >= stackSize + Slack(children)
    requires SelfContained(children, ids) && AllClose(children, ids)
    ensures ImageOf(children, ids, tableSize, depth, limit).Loaded()
  {
    var img := ImageOf(children, ids, tableSize, depth, limit);
    var events, subs := EventList(SegmentsOf(children)), SubList(SegmentsOf(children));
    SegmentsLinkable(children, tableSize);
    LinkedSize(events, subs, tableSize);
    hide Compilable, EventList, SubList, SegmentsOf, Linked, SubTable, Settled, Slack, Unresolved, Body, DeclaredSubs,
         SelfContained, AllClose;
    forall id | id in img.subs
      ensures img.SubLoaded(id)
    {
      SubIsLoaded(children, ids, tableSize, depth, stackSize, limit, id);
    }
  }

  // ----- the theorem -----

  function EventBody(children: seq<TopLevel>, id: nat): Stmt { Block(Body(children, EventKey(id))) }

  /** How a machine that runs an event ends. */
  function Final(o: Outcome): Config
    requires !o.OutOfFuel?
  {
    if o.Fault? then Faulted else Halted(o.st)
  }

  function EventTable(children: seq<TopLevel>, tableSize: nat): map<nat, nat>
    requires Compilable(children, tableSize)
  {
    SegmentsLinkable(children, tableSize);
    var events, subs := EventList(SegmentsOf(children)), SubList(SegmentsOf(children));
    LinkedSize(events, subs, tableSize);
    AddressMap(Linked(events, subs, tableSize), |events|)
  }

  /** The event as the linker placed it: its code, then STOP, at the address in the table. */
  lemma EventPlaced(
      children: seq<TopLevel>, ids: set<nat>, tableSize: nat, depth: map<nat, nat>, stackSize: nat, limit: nat, a: nat)
    requires Compiled(children, tableSize, depth, stackSize) && a in EventTable(children, tableSize)
    ensures var img := ImageOf(children, ids, tableSize, depth, limit);
            var k := EventKey(EventTable(children, tableSize)[a]);
            var body := Body(children, k);
            && k in SegmentsOf(children)
            && At(img.vm.prog, a, EmitAll(body, img.Place(false)) + [Pack(STOP, 0)])
  {
    hide Whole, EventList, SubList, SegmentsOf, EmitAll, FixCode, Body, Distinct, CalleesAll, StackDepthAll,
         Linked, Unresolved, At, Rewrite, SubTable, Closing, Settled, Pack, AddressMap, Start;
    var segs := SegmentsOf(children);
    var events, subs := EventList(segs), SubList(segs);
    SegmentsLinkable(children, tableSize);
    SubBaseBound(events, subs);
    EventTableReadsBack(events, subs, tableSize);
    var i :| 0 <= i < |events| && a == Start(events, HeaderSize(events), i);
    var k := EventKey(events[i].id);
    SegmentOf(children, k);
    ListsNamed(segs);
    assert events[i] in events;
    LinkedEvent(events, subs, tableSize, i);
    BodyReady(children, tableSize, k);
    EventCode(Body(children, k), SubTable(events, subs, tableSize));
  }

  lemma EventDepth(children: seq<TopLevel>, tableSize: nat, depth: map<nat, nat>, stackSize: nat, id: nat)
    requires Compiled(children, tableSize, depth, stackSize) && EventKey(id) in SegmentsOf(children)
    ensures var body := Body(children, EventKey(id));
            && StackDepthAll(body) <= stackSize
            && (forall c | c in CalleesAll(body) ::
                  c in DeclaredSubs(children) && c in depth && 0 < depth[c] && LowAddress(children, tableSize, c))
  {
    hide Whole, EventList, SubList, SegmentsOf, EmitAll, FixCode, Body, Distinct, CalleesAll, StackDepthAll,
         Unresolved, CallsOf, Closing;
    var segs, k := SegmentsOf(children), EventKey(id);
    SegmentOf(children, k);
    ListsNamed(segs);
    assert segs[k] in EventList(segs);
    BodyReady(children, tableSize, k);
    EventCode(Body(children, k), []);
    assert CoversEvent(segs[k], depth);
  }

  /** What a run of the event at address a needs: the compilation succeeded, the stack has the size it
      was checked for, plus one slot if the program writes arrays, and the event calls none but
      these subroutines, which have no `when` and may not fall off their end. */
  predicate Startable(
      children: seq<TopLevel>, ids: set<nat>, tableSize: nat, depth: map<nat, nat>, stackSize: nat, limit: nat, a: nat)
  {
    && Compiled(children, tableSize, depth, stackSize) && limit >= stackSize + Slack(children)
    && SelfContained(children, ids) && AllClose(children, ids)
    && a in EventTable(children, tableSize)
    && CallsOnly(Body(children, EventKey(EventTable(children, tableSize)[a])), ids)
  }

  lemma EventReady(
      children: seq<TopLevel>, ids: set<nat>, tableSize: nat, depth: map<nat, nat>, stackSize: nat, limit: nat,
      a: nat, st: State)
    requires Startable(children, ids, tableSize, depth, stackSize, limit, a)
    ensures var img := ImageOf(children, ids, tableSize, depth, limit);
            var body := Body(children, EventKey(EventTable(children, tableSize)[a]));
            && img.Loaded() && img.Ready(Block(body), Machine(a, [], st), false)
            && EmitStmt(Block(body), img.Place(false)) == EmitAll(body, img.Place(false))
            && At(img.vm.prog, a + |EmitAll(body, img.Place(false))|, [Pack(STOP, 0)])
            && img.vm == MachineOf(children, tableSize, limit)
  {
    hide EventList, SubList, SegmentsOf, EmitAll, Body, StackDepthAll, PeakAll, At, Linked, SubTable,
         Settled, Slack, MayFall, Emittable, Fits, NoWhen, TypeOfLast, Unresolved, Pack, EventTable, AllClose,
         Compilable;
    var img := ImageOf(children, ids, tableSize, depth, limit);
    var id := EventTable(children, tableSize)[a];
    var body := Body(children, EventKey(id));
    var code := EmitAll(body, img.Place(false));
    ImageLoaded(children, ids, tableSize, depth, stackSize, limit);
    EventPlaced(children, ids, tableSize, depth, stackSize, limit, a);
    EventDepth(children, tableSize, depth, stackSize, id);
    BodyReady(children, tableSize, EventKey(id));
    BodyPeak(children, EventKey(id));
    AtSplit(img.vm.prog, a, code, [Pack(STOP, 0)]);
    BlockParts(body, img.Place(false));
  }

  /** For every event in the vector table, every memory and every run that ends: started at the
      address in the table with an empty stack, the machine halts with exactly the memory and the
      emitted events of the tree evaluator, or faults exactly when the evaluator does. */
  lemma CompiledEventRuns(
      children: seq<TopLevel>, ids: set<nat>, tableSize: nat, depth: map<nat, nat>, stackSize: nat, limit: nat,
      a: nat, st: State, fuel: nat)
    requires Startable(children, ids, tableSize, depth, stackSize, limit, a)
    requires !Exec(EventBody(children, EventTable(children, tableSize)[a]), SubBodies(children), st, fuel).OutOfFuel?
    ensures var o := Exec(EventBody(children, EventTable(children, tableSize)[a]), SubBodies(children), st, fuel);
            Reaches(MachineOf(children, tableSize, limit), Running(Machine(a, [], st)), Final(o))
  {
    hide EmitAll, Body, At, Reaches, Step, Exec, Pack, EventTable, Compilable, Settled, Addressable, AllClose,
         SelfContained, CallsOnly, Emittable, Fits, NoWhen, Callees, Peak, Slack, SubBodies, MachineOf, Only;
    var img := ImageOf(children, ids, tableSize, depth, limit);
    var body := Body(children, EventKey(EventTable(children, tableSize)[a]));
    EventReady(children, ids, tableSize, depth, stackSize, limit, a, st);
    BodyOnly(children, ids, body, st, fuel);
    var m := Machine(a, [], st);
    StmtRuns(img, Block(body), m, false, fuel);
    var o := Exec(Block(body), img.subs, st, fuel);
    if o.Done? {
      var n := After(o, m, |EmitAll(body, img.Place(false))|, false);
      StopRuns(img.vm, n.m);
      ReachesThenStep(img.vm, Running(m), n, Halted(o.st));
    }
  }

  /** The machine stops, in whatever way, if and only if the evaluator's run ends. */
  lemma CompiledEventEnds(
      children: seq<TopLevel>, ids: set<nat>, tableSize: nat, depth: map<nat, nat>, stackSize: nat, limit: nat,
      a: nat, st: State)
    requires Startable(children, ids, tableSize, depth, stackSize, limit, a)
    ensures (exists end: Config ::
               !end.Running? && Reaches(MachineOf(children, tableSize, limit), Running(Machine(a, [], st)), end))
            <==> Terminates(EventBody(children, EventTable(children, tableSize)[a]), SubBodies(children), st)
  {
    hide Body, At, Reaches, Exec, EventTable, Compilable, Settled, Addressable, AllClose, SelfContained, CallsOnly,
         SubBodies, MachineOf, Only;
    var img := ImageOf(children, ids, tableSize, depth, limit);
    var body := Body(children, EventKey(EventTable(children, tableSize)[a]));
    var vm, m := MachineOf(children, tableSize, limit), Machine(a, [], st);
    if fuel: nat :| !Exec(Block(body), SubBodies(children), st, fuel).OutOfFuel? {
      CompiledEventRuns(children, ids, tableSize, depth, stackSize, limit, a, st, fuel);
      assert !Final(Exec(Block(body), SubBodies(children), st, fuel)).Running?;
    } else {
      EventReady(children, ids, tableSize, depth, stackSize, limit, a, st);
      forall fuel: nat
        ensures Exec(Block(body), img.subs, st, fuel).OutOfFuel?
      {
        BodyOnly(children, ids, body, st, fuel);
      }
      forall end: Config | Reaches(vm, Running(m), end)
        ensures end.Running?
      {
        StmtDiverges(img, Block(body), m, false, end);
      }
    }
  }
}
