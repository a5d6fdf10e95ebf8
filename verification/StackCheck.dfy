/** The check that no chain of subroutine calls can overflow the stack. */
module StackCheck {
  import opened Words
  import opened Bytecode
  import opened Relocation

  /** The bytecode of one event or subroutine before linking. */
  datatype Segment = Segment(id: nat, code: seq<word>, maxStackDepth: nat)

  predicate Distinct(segments: seq<Segment>) {
    forall i, j | 0 <= i < j < |segments| :: segments[i].id != segments[j].id
  }

  function Ids(segments: seq<Segment>): set<nat> { set s | s in segments :: s.id }

  /** Every call has a subroutine to go to. */
  predicate CallsResolve(segments: seq<Segment>, subs: seq<Segment>) {
    forall s | s in segments :: CallsOf(s.code) <= Ids(subs)
  }

  // ----- what the check decides -----

  /** Each subroutine of the chain calls the next one. */
  predicate Chain(subs: seq<Segment>, chain: seq<Segment>)
  {
    && chain != []
    && (forall s | s in chain :: s in subs)
    && forall i | 0 <= i < |chain| - 1 :: chain[i + 1].id in CallsOf(chain[i].code)
  }

  /** Return addresses on the stack when the last subroutine of the chain runs. A chain that
      does not start in an event counts its first subroutine at depth zero. */
  function ChainDepth(chain: seq<Segment>, fromEvent: bool): nat
    requires chain != []
  {
    |chain| - 1 + if fromEvent then 1 else 0
  }

  predicate CalledByEvent(events: seq<Segment>, s: Segment) {
    exists e | e in events :: s.id in CallsOf(e.code)
  }

  /** The subroutine s can run with d return addresses on the stack. */
  ghost predicate RunsAt(events: seq<Segment>, subs: seq<Segment>, s: Segment, d: nat)
  {
    exists chain, fromEvent: bool ::
      && Chain(subs, chain) && chain[|chain| - 1] == s
      && (fromEvent ==> CalledByEvent(events, chain[0]))
      && d == ChainDepth(chain, fromEvent)
  }

  /** Some event, or some subroutine at the end of some chain of calls, needs more than the stack. */
  ghost predicate Overflows(events: seq<Segment>, subs: seq<Segment>, stackSize: nat)
  {
    || (exists e | e in events :: e.maxStackDepth > stackSize)
    || (exists s, d: nat | s in subs && RunsAt(events, subs, s, d) :: d + s.maxStackDepth > stackSize)
  }

  lemma RunsAtZero(events: seq<Segment>, subs: seq<Segment>, s: Segment)
    requires s in subs
    ensures RunsAt(events, subs, s, 0)
  {
    var chain := [s];
    assert Chain(subs, chain) && ChainDepth(chain, false) == 0;
  }

  lemma RunsAtOne(events: seq<Segment>, subs: seq<Segment>, e: Segment, s: Segment)
    requires e in events && s in subs && s.id in CallsOf(e.code)
    ensures RunsAt(events, subs, s, 1)
  {
    var chain := [s];
    assert Chain(subs, chain) && CalledByEvent(events, chain[0]) && ChainDepth(chain, true) == 1;
  }

  lemma RunsAtNext(events: seq<Segment>, subs: seq<Segment>, s: Segment, d: nat, t: Segment)
    requires RunsAt(events, subs, s, d) && t in subs && t.id in CallsOf(s.code)
    ensures RunsAt(events, subs, t, d + 1)
  {
    var chain, fromEvent: bool :|
      && Chain(subs, chain) && chain[|chain| - 1] == s
      && (fromEvent ==> CalledByEvent(events, chain[0]))
      && d == ChainDepth(chain, fromEvent);
    var longer := chain + [t];
    assert Chain(subs, longer) && longer[0] == chain[0];
    assert ChainDepth(longer, fromEvent) == d + 1;
  }

  // ----- depths kept during the check -----

  /** Every recorded depth is the length of some chain. */
  ghost predicate Attained(events: seq<Segment>, subs: seq<Segment>, depth: map<nat, nat>)
  {
    && depth.Keys == Ids(subs)
    && forall s | s in subs :: RunsAt(events, subs, s, depth[s.id])
  }

  /** The recorded depths cover the calls of an event and of a subroutine. */
  predicate CoversEvent(e: Segment, depth: map<nat, nat>) {
    forall id | id in CallsOf(e.code) :: id in depth && depth[id] >= 1
  }

  predicate CoversSub(s: Segment, depth: map<nat, nat>) {
    s.id in depth && forall id | id in CallsOf(s.code) :: id in depth && depth[id] > depth[s.id]
  }

  predicate Settled(events: seq<Segment>, subs: seq<Segment>, depth: map<nat, nat>, stackSize: nat)
  {
    && (forall e | e in events :: e.maxStackDepth <= stackSize && CoversEvent(e, depth))
    && (forall s | s in subs :: CoversSub(s, depth) && depth[s.id] + s.maxStackDepth <= stackSize)
  }

  /** Settled depths bound every chain. */
  lemma {:induction false} SettledBoundsChain(
      events: seq<Segment>, subs: seq<Segment>, depth: map<nat, nat>, stackSize: nat, chain: seq<Segment>,
          fromEvent: bool)
    requires Settled(events, subs, depth, stackSize) && Chain(subs, chain)
    requires fromEvent ==> CalledByEvent(events, chain[0])
    ensures ChainDepth(chain, fromEvent) <= depth[chain[|chain| - 1].id]
    decreases |chain|
  {
    if |chain| == 1 {
      if fromEvent {
        var e :| e in events && chain[0].id in CallsOf(e.code);
        assert CoversEvent(e, depth);
      }
    } else {
      var shorter := chain[..|chain| - 1];
      var s := shorter[|shorter| - 1];
      SettledBoundsChain(events, subs, depth, stackSize, shorter, fromEvent);
      assert s == chain[|chain| - 2] && CoversSub(s, depth);
      assert chain[|chain| - 2 + 1].id in CallsOf(chain[|chain| - 2].code);
    }
  }

  lemma SettledIsSafe(events: seq<Segment>, subs: seq<Segment>, depth: map<nat, nat>, stackSize: nat)
    requires Settled(events, subs, depth, stackSize)
    ensures !Overflows(events, subs, stackSize)
  {
    forall s, d: nat | s in subs && RunsAt(events, subs, s, d)
      ensures d + s.maxStackDepth <= stackSize
    {
      var chain, fromEvent: bool :|
        && Chain(subs, chain) && chain[|chain| - 1] == s
        && (fromEvent ==> CalledByEvent(events, chain[0]))
        && d == ChainDepth(chain, fromEvent);
      SettledBoundsChain(events, subs, depth, stackSize, chain, fromEvent);
    }
  }

  // ----- the walks over one segment -----

  /** The depths with those of the called subroutines raised to at least d. */
  function Raised(depth: map<nat, nat>, calls: set<nat>, d: nat): map<nat, nat>
  {
    map id | id in depth :: if id in calls && depth[id] < d then d else depth[id]
  }

  function Tail(code: seq<word>, pc: nat): seq<word> { if pc <= |code| then code[pc..] else [] }

  lemma CallsStep(code: seq<word>, pc: nat)
    requires pc < |code|
    ensures CallsOf(Tail(code, pc)) == CallAt(code[pc]) + CallsOf(Tail(code, pc + WordSize(code[pc])))
  {
    hide WordSize, CallAt;
    var rest, n := code[pc..], WordSize(code[pc]);
    if n <= |rest| {
      assert rest[n..] == code[pc + n..];
    } else {
      assert rest[|rest|..] == [];
    }
  }

  lemma RaisedBy(depth: map<nat, nat>, raised: map<nat, nat>, seen: set<nat>, id: nat, d: nat)
    requires raised == Raised(depth, seen, d) && id in depth
    ensures Raised(depth, seen + {id}, d) == if d > raised[id] then raised[id := d] else raised
    ensures d > raised[id] ==> raised[id := d] != depth
  {
    assert depth[id] <= raised[id];
    if d > raised[id] {
      assert raised[id := d][id] == d;
    }
  }

  /** Raise the depth of every subroutine the code calls, and tell whether one was raised. */
  method RaiseCalls(code: seq<word>, depth: map<nat, nat>, d: nat) returns (raised: map<nat, nat>, activity: bool)
    requires CallsOf(code) <= depth.Keys
    ensures raised == Raised(depth, CallsOf(code), d) && (activity <==> raised != depth)
  {
    hide WordSize, CallsOf;
    raised, activity := depth, false;
    var pc := 0;
    ghost var seen := {};
    assert Tail(code, 0) == code && raised == Raised(depth, seen, d);
    while pc < |code|
      invariant CallsOf(code) == seen + CallsOf(Tail(code, pc))
      invariant raised == Raised(depth, seen, d) && (activity <==> raised != depth)
    {
      CallsStep(code, pc);
      if Opcode(code[pc]) == SUB_CALL {
        var id := Operand(code[pc]);
        assert id in CallAt(code[pc]) && id in CallsOf(code);
        RaisedBy(depth, raised, seen, id, d);
        if d > raised[id] {
          activity := true;
          raised := raised[id := d];
        }
      }
      seen := seen + CallAt(code[pc]);
      pc := pc + WordSize(code[pc]);
    }
    assert Tail(code, pc) == [];
    NoCalls();
  }

  lemma NoCalls()
    ensures CallsOf([]) == {}
  {
  }

  // ----- the whole check -----

  /** Slots still free below the depths, which every raise uses up. */
  function Room(subs: seq<Segment>, depth: map<nat, nat>, stackSize: nat): nat
    requires Ids(subs) <= depth.Keys
  {
    if subs == [] then 0 else
    assert subs[0].id in Ids(subs) && Ids(subs[1..]) <= Ids(subs);
    (if depth[subs[0].id] <= stackSize + 1 then stackSize + 1 - depth[subs[0].id] else 0) +
    Room(subs[1..], depth, stackSize)
  }

  lemma {:induction false} RoomShrinks(subs: seq<Segment>, depth: map<nat, nat>, raised: map<nat, nat>, stackSize: nat)
    requires Ids(subs) <= depth.Keys == raised.Keys
    requires forall id | id in depth :: depth[id] <= raised[id] <= stackSize + 1
    ensures Room(subs, raised, stackSize) <= Room(subs, depth, stackSize)
    ensures (exists s | s in subs :: depth[s.id] < raised[s.id]) ==>
              Room(subs, raised, stackSize) < Room(subs, depth, stackSize)
  {
    if subs != [] {
      assert subs[0].id in Ids(subs) && Ids(subs[1..]) <= Ids(subs);
      RoomShrinks(subs[1..], depth, raised, stackSize);
    }
  }

  /** Raising by a call from a subroutine keeps every depth attained. */
  lemma RaiseAttained(
      events: seq<Segment>, subs: seq<Segment>, depth: map<nat, nat>, calls: set<nat>, d: nat)
    requires Attained(events, subs, depth)
    requires forall t | t in subs && t.id in calls :: RunsAt(events, subs, t, d)
    ensures Attained(events, subs, Raised(depth, calls, d))
  {
    hide RunsAt;
    var raised := Raised(depth, calls, d);
    assert raised.Keys == depth.Keys;
    forall s | s in subs
      ensures RunsAt(events, subs, s, raised[s.id])
    {
      assert s.id in Ids(subs);
    }
  }

  predicate Grown(depth: map<nat, nat>, raised: map<nat, nat>, stackSize: nat) {
    depth.Keys == raised.Keys && forall id | id in depth :: depth[id] <= raised[id] <= stackSize + 1
  }

  /** What is known of the depths all along. */
  ghost predicate Progress(events: seq<Segment>, subs: seq<Segment>, depth: map<nat, nat>, stackSize: nat, n: nat)
    requires n <= |events|
  {
    && Attained(events, subs, depth)
    && Grown(depth, depth, stackSize)
    && forall i | 0 <= i < n :: events[i].maxStackDepth <= stackSize && CoversEvent(events[i], depth)
  }

  lemma RaiseProgress(
      events: seq<Segment>, subs: seq<Segment>, depth: map<nat, nat>, stackSize: nat, n: nat, calls: set<nat>, d: nat)
    requires n <= |events| && Progress(events, subs, depth, stackSize, n) && d <= stackSize + 1
    requires forall t | t in subs && t.id in calls :: RunsAt(events, subs, t, d)
    ensures Progress(events, subs, Raised(depth, calls, d), stackSize, n)
    ensures Grown(depth, Raised(depth, calls, d), stackSize)
  {
    hide Attained, RunsAt, CallsOf;
    RaiseAttained(events, subs, depth, calls, d);
  }

  lemma EventCallsRun(events: seq<Segment>, subs: seq<Segment>, e: Segment)
    requires e in events
    ensures forall t | t in subs && t.id in CallsOf(e.code) :: RunsAt(events, subs, t, 1)
  {
    hide RunsAt, CallsOf;
    forall t | t in subs && t.id in CallsOf(e.code)
      ensures RunsAt(events, subs, t, 1)
    {
      RunsAtOne(events, subs, e, t);
    }
  }

  lemma SubCallsRun(events: seq<Segment>, subs: seq<Segment>, s: Segment, d: nat)
    requires RunsAt(events, subs, s, d)
    ensures forall t | t in subs && t.id in CallsOf(s.code) :: RunsAt(events, subs, t, d + 1)
  {
    hide RunsAt, CallsOf;
    forall t | t in subs && t.id in CallsOf(s.code)
      ensures RunsAt(events, subs, t, d + 1)
    {
      RunsAtNext(events, subs, s, d, t);
    }
  }

  /** The events: each is checked alone, and what it calls runs at depth one. */
  method CheckEvents(events: seq<Segment>, subs: seq<Segment>, stackSize: nat) returns (ok: bool, depth: map<nat, nat>)
    requires CallsResolve(events, subs)
    ensures ok ==> Progress(events, subs, depth, stackSize, |events|)
    ensures !ok ==> Overflows(events, subs, stackSize)
  {
    depth := map id | id in Ids(subs) :: 0;
    forall s | s in subs
      ensures RunsAt(events, subs, s, 0) && s.id in Ids(subs)
    {
      RunsAtZero(events, subs, s);
    }
    hide RunsAt, CallsOf;
    for i := 0 to |events|
      invariant Progress(events, subs, depth, stackSize, i)
    {
      if events[i].maxStackDepth > stackSize {
        return false, depth;
      }
      ghost var before := depth;
      var activity;
      depth, activity := RaiseCalls(events[i].code, depth, 1);
      EventCallsRun(events, subs, events[i]);
      RaiseProgress(events, subs, before, stackSize, i, CallsOf(events[i].code), 1);
    }
    ok := true;
  }

  /** One pass over the subroutines. */
  method CheckSubroutines(events: seq<Segment>, subs: seq<Segment>, stackSize: nat, depth: map<nat, nat>)
    returns (ok: bool, raised: map<nat, nat>, activity: bool)
    requires CallsResolve(subs, subs) && Progress(events, subs, depth, stackSize, |events|)
    ensures ok ==> Progress(events, subs, raised, stackSize, |events|) && depth.Keys == raised.Keys
    ensures ok && activity ==> Room(subs, raised, stackSize) < Room(subs, depth, stackSize)
    ensures ok && !activity ==> raised == depth && Settled(events, subs, depth, stackSize)
    ensures !ok ==> Overflows(events, subs, stackSize)
  {
    hide RunsAt, CallsOf, Room;
    raised, activity := depth, false;
    for k := 0 to |subs|
      invariant Progress(events, subs, raised, stackSize, |events|) && depth.Keys == raised.Keys
      invariant activity ==> Room(subs, raised, stackSize) < Room(subs, depth, stackSize)
      invariant !activity ==> raised == depth
      invariant !activity ==>
        forall j | 0 <= j < k :: CoversSub(subs[j], depth) && depth[subs[j].id] + subs[j].maxStackDepth <= stackSize
    {
      var s := subs[k];
      assert s.id in Ids(subs) && RunsAt(events, subs, s, raised[s.id]);
      var myDepth := raised[s.id];
      if myDepth + s.maxStackDepth > stackSize {
        return false, raised, activity;
      }
      ghost var before := raised;
      var raisedOne;
      raised, raisedOne := RaiseCalls(s.code, raised, myDepth + 1);
      SubCallsRun(events, subs, s, myDepth);
      RaiseProgress(events, subs, before, stackSize, |events|, CallsOf(s.code), myDepth + 1);
      if raisedOne {
        activity := true;
        RaisedSome(subs, before, raised, stackSize);
      } else if !activity {
        NotRaised(before, CallsOf(s.code), myDepth + 1);
      }
    }
    ok := true;
  }

  lemma RaisedSome(subs: seq<Segment>, depth: map<nat, nat>, raised: map<nat, nat>, stackSize: nat)
    requires depth.Keys == Ids(subs) && Grown(depth, raised, stackSize) && raised != depth
    ensures Room(subs, raised, stackSize) < Room(subs, depth, stackSize)
  {
    hide Room;
    var id :| id in depth && depth[id] != raised[id];
    var s :| s in subs && s.id == id;
    RoomShrinks(subs, depth, raised, stackSize);
  }

  lemma NotRaised(depth: map<nat, nat>, calls: set<nat>, d: nat)
    requires Raised(depth, calls, d) == depth && calls <= depth.Keys
    ensures forall id | id in calls :: depth[id] >= d
  {
    forall id | id in calls
      ensures depth[id] >= d
    {
      assert Raised(depth, calls, d)[id] == depth[id];
    }
  }

  /** The check terminates, recursive subroutines or not, and accepts exactly the programs in which
      no event and no chain of calls needs more than the stack. The depths it leaves are a bound
      for every chain. */
  method VerifyStackCalls(events: seq<Segment>, subs: seq<Segment>, stackSize: nat)
    returns (ok: bool, depth: map<nat, nat>)
    requires CallsResolve(events, subs) && CallsResolve(subs, subs)
    ensures ok <==> !Overflows(events, subs, stackSize)
    ensures ok ==> Settled(events, subs, depth, stackSize)
  {
    hide Overflows, Settled, Room;
    ok, depth := CheckEvents(events, subs, stackSize);
    if !ok {
      return;
    }
    var wasActivity := true;
    while wasActivity
      invariant Progress(events, subs, depth, stackSize, |events|)
      invariant !wasActivity ==> Settled(events, subs, depth, stackSize)
      decreases Room(subs, depth, stackSize), wasActivity
    {
      ok, depth, wasActivity := CheckSubroutines(events, subs, stackSize, depth);
      if !ok {
        return;
      }
    }
    ok := true;
    SettledIsSafe(events, subs, depth, stackSize);
  }

  /** A subroutine that calls itself is rejected whatever the stack. */
  lemma {:induction false} RecursionOverflows(events: seq<Segment>, subs: seq<Segment>, s: Segment, stackSize: nat)
    requires s in subs && s.id in CallsOf(s.code)
    ensures Overflows(events, subs, stackSize)
  {
    RunsAtAny(events, subs, s, stackSize + 1);
  }

  lemma {:induction false} RunsAtAny(events: seq<Segment>, subs: seq<Segment>, s: Segment, d: nat)
    requires s in subs && s.id in CallsOf(s.code)
    ensures RunsAt(events, subs, s, d)
    decreases d
  {
    if d == 0 {
      RunsAtZero(events, subs, s);
    } else {
      RunsAtAny(events, subs, s, d - 1);
      RunsAtNext(events, subs, s, d - 1, s);
    }
  }
}
