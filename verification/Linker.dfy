/** Linking: the event vector table, the layout of the segments and the resolution of calls. */
module Linker {
  import opened Words
  import opened Bytecode
  import opened ExprCode
  import opened Relocation
  import opened StackCheck

  // ----- layout -----

  function Flat(segments: seq<Segment>): seq<word>
  {
    if segments == [] then [] else segments[0].code + Flat(segments[1..])
  }

  /** The address of segment i when the first one stands at base. */
  function Start(segments: seq<Segment>, base: nat, i: nat): nat
    requires i <= |segments|
  {
    if i == 0 then base else Start(segments[1..], base + |segments[0].code|, i - 1)
  }

  /** One pair of words per event: its id and its address. */
  function Entries(events: seq<Segment>, addr: nat): (c: seq<word>)
    ensures |c| == 2 * |events|
  {
    if events == [] then []
    else [events[0].id % 65536, addr % 65536] + Entries(events[1..], addr + |events[0].code|)
  }

  function HeaderSize(events: seq<Segment>): nat { 2 * |events| + 1 }

  function Header(events: seq<Segment>): (c: seq<word>)
    ensures |c| == HeaderSize(events)
  {
    [HeaderSize(events) % 65536] + Entries(events, HeaderSize(events))
  }

  /** The subroutine table with the addresses of the subroutines filled in. */
  function Addresses(subs: seq<Segment>, addr: nat, table: seq<nat>): (t: seq<nat>)
    requires forall s | s in subs :: s.id < |table|
    ensures |t| == |table|
  {
    if subs == [] then table
    else Addresses(subs[1..], addr + |subs[0].code|, table[subs[0].id := addr])
  }

  function SubBase(events: seq<Segment>): nat { HeaderSize(events) + |Flat(events)| }

  function SubTable(events: seq<Segment>, subs: seq<Segment>, tableSize: nat): (t: seq<nat>)
    requires forall s | s in subs :: s.id < tableSize
    ensures |t| == tableSize
  {
    Addresses(subs, SubBase(events), seq(tableSize, _ => 0))
  }

  function Unresolved(events: seq<Segment>, subs: seq<Segment>): seq<word> {
    Header(events) + Flat(events) + Flat(subs)
  }

  /** The linked program. */
  function Linked(events: seq<Segment>, subs: seq<Segment>, tableSize: nat): seq<word>
    requires forall s | s in subs :: s.id < tableSize
  {
    Rewrite(Unresolved(events, subs), Resolve(SubTable(events, subs, tableSize)))
  }

  /** Append the segments in order, note the addresses of the subroutines, then walk over the
      whole program and resolve the calls. */
  method Link(events: seq<Segment>, subs: seq<Segment>, tableSize: nat, bytecodeSize: nat)
    returns (ok: bool, bytecode: seq<word>, table: seq<nat>)
    requires forall s | s in subs :: s.id < tableSize
    ensures table == SubTable(events, subs, tableSize)
    ensures bytecode == Linked(events, subs, tableSize)
    ensures ok <==> |bytecode| <= bytecodeSize
  {
    var addr: nat := 2 * |events| + 1;
    bytecode := [addr % 65536];
    var todo := events;
    while todo != []
      invariant Header(events) == bytecode + Entries(todo, addr)
    {
      Associative(bytecode, [todo[0].id % 65536, addr % 65536], Entries(todo[1..], addr + |todo[0].code|));
      bytecode := bytecode + [todo[0].id % 65536, addr % 65536];
      addr := addr + |todo[0].code|;
      todo := todo[1..];
    }
    assert bytecode + [] == bytecode;
    todo := events;
    while todo != []
      invariant Header(events) + Flat(events) == bytecode + Flat(todo)
    {
      Associative(bytecode, todo[0].code, Flat(todo[1..]));
      bytecode := bytecode + todo[0].code;
      todo := todo[1..];
    }
    assert bytecode + [] == bytecode;
    table := seq(tableSize, _ => 0);
    todo := subs;
    while todo != []
      invariant Unresolved(events, subs) == bytecode + Flat(todo)
      invariant |table| == tableSize && forall s | s in todo :: s.id < |table|
      invariant Addresses(todo, |bytecode|, table) == SubTable(events, subs, tableSize)
    {
      Associative(bytecode, todo[0].code, Flat(todo[1..]));
      table := table[todo[0].id := |bytecode|];
      bytecode := bytecode + todo[0].code;
      todo := todo[1..];
    }
    assert bytecode + [] == bytecode;
    bytecode := RewriteInPlace(bytecode, Resolve(table));
    ok := |bytecode| <= bytecodeSize;
  }

  // ----- where the segments are -----

  lemma {:induction false} FlatWhole(segments: seq<Segment>, r: Rewriting)
    requires forall s | s in segments :: Whole(s.code)
    ensures Whole(Flat(segments)) && Rewrite(Flat(segments), r) == Flat(Rewritten(segments, r))
  {
    hide Whole, Rewrite;
    if segments == [] {
      EmptyCode(r);
    } else {
      assert segments[0] in segments;
      FlatWhole(segments[1..], r);
      WholeConcat(segments[0].code, Flat(segments[1..]));
      RewriteConcat(segments[0].code, Flat(segments[1..]), r);
    }
  }

  lemma EmptyCode(r: Rewriting)
    ensures Whole([]) && Rewrite([], r) == []
  {
  }

  function Rewritten(segments: seq<Segment>, r: Rewriting): (t: seq<Segment>)
    ensures |t| == |segments|
    ensures forall i | 0 <= i < |segments| :: t[i] == segments[i].(code := Rewrite(segments[i].code, r))
  {
    if segments == [] then []
    else [segments[0].(code := Rewrite(segments[0].code, r))] + Rewritten(segments[1..], r)
  }

  lemma {:induction false} FlatAt(segments: seq<Segment>, prog: seq<word>, base: nat, i: nat)
    requires At(prog, base, Flat(segments)) && i < |segments|
    ensures At(prog, Start(segments, base, i), segments[i].code)
    decreases |segments|
  {
    hide At;
    AtSplit(prog, base, segments[0].code, Flat(segments[1..]));
    if i > 0 {
      FlatAt(segments[1..], prog, base + |segments[0].code|, i - 1);
    }
  }

  lemma {:induction false} StartRewritten(segments: seq<Segment>, r: Rewriting, base: nat, i: nat)
    requires i <= |segments|
    ensures Start(Rewritten(segments, r), base, i) == Start(segments, base, i)
    decreases i
  {
    hide Rewrite;
    if i > 0 {
      StartRewritten(segments[1..], r, base + |segments[0].code|, i - 1);
      assert Rewritten(segments, r)[1..] == Rewritten(segments[1..], r);
    }
  }

  lemma {:induction false} AddressesKeep(subs: seq<Segment>, addr: nat, table: seq<nat>, id: nat)
    requires (forall s | s in subs :: s.id < |table|) && id < |table| && forall s | s in subs :: s.id != id
    ensures Addresses(subs, addr, table)[id] == table[id]
    decreases |subs|
  {
    if subs != [] {
      AddressesKeep(subs[1..], addr + |subs[0].code|, table[subs[0].id := addr], id);
    }
  }

  lemma {:induction false} AddressesAt(subs: seq<Segment>, addr: nat, table: seq<nat>, i: nat)
    requires (forall s | s in subs :: s.id < |table|) && Distinct(subs) && i < |subs|
    ensures Addresses(subs, addr, table)[subs[i].id] == Start(subs, addr, i)
    decreases |subs|
  {
    var next := table[subs[0].id := addr];
    if i == 0 {
      forall s | s in subs[1..]
        ensures s.id != subs[0].id
      {
        var j :| 0 <= j < |subs[1..]| && subs[1..][j] == s;
        assert subs[0].id != subs[j + 1].id;
      }
      AddressesKeep(subs[1..], addr + |subs[0].code|, next, subs[0].id);
    } else {
      assert Distinct(subs[1..]) by {
        forall a, b | 0 <= a < b < |subs[1..]|
          ensures subs[1..][a].id != subs[1..][b].id
        {
          assert subs[a + 1].id != subs[b + 1].id;
        }
      }
      AddressesAt(subs[1..], addr + |subs[0].code|, next, i - 1);
    }
  }

  // ----- the vector table is not mistaken for code -----

  /** The walk that resolves calls finds whole instructions in the vector table, none of them a
      call. The table consists of the ids and the addresses of the events. */
  predicate TableInert(events: seq<Segment>) { Whole(Header(events)) && CallsOf(Header(events)) == {} }

  lemma {:induction false} InertPrefix(h: seq<word>, c: seq<word>, table: seq<nat>)
    requires Whole(h) && CallsOf(h) == {}
    ensures Rewrite(h + c, Resolve(table)) == h + Rewrite(c, Resolve(table))
    decreases |h|
  {
    RewriteConcat(h, c, Resolve(table));
    NoCallsKept(h, table);
  }

  lemma {:induction false} NoCallsKept(h: seq<word>, table: seq<nat>)
    requires Whole(h) && CallsOf(h) == {}
    ensures Rewrite(h, Resolve(table)) == h
    decreases |h|
  {
    hide WordSize;
    if h != [] {
      var n := WordSize(h[0]);
      assert RewriteWord(h[0], Resolve(table)) == h[0];
      assert CallsOf(h) == CallAt(h[0]) + CallsOf(h[n..]);
      NoCallsKept(h[n..], table);
      assert Instruction(h[0], h, n) + h[n..] == h;
    }
  }

  /** When the walk runs over the end of a prefix, the word after it is not looked at. */
  lemma {:induction false} OverrunSkips(h: seq<word>, w: word, table: seq<nat>)
    requires !Whole(h)
    ensures Rewrite(h + [w], Resolve(table))[|h|] == w
    decreases |h|
  {
    var code, r := h + [w], Resolve(table);
    RewriteKeepsSize(code[0], r);
    hide WordSize, RewriteWord;
    var n := WordSize(h[0]);
    if n <= |h| {
      OverrunSkips(h[n..], w, table);
      assert code[n..] == h[n..] + [w];
      assert Rewrite(code, r) == Instruction(RewriteWord(code[0], r), code, n) + Rewrite(code[n..], r);
    } else {
      assert code[|code|..] == [];
    }
  }

  /** A call in whole code is changed by some table. */
  lemma {:induction false} CallIsResolved(h: seq<word>, id: nat)
    requires Whole(h) && id in CallsOf(h)
    ensures id < 4096 && Rewrite(h, Resolve(seq(4096, i => if i == 0 then 1 else 0))) != h
    decreases |h|
  {
    var table := seq(4096, i => if i == 0 then 1 else 0);
    var r, n := Resolve(table), WordSize(h[0]);
    RewriteKeepsSize(h[0], r);
    if id in CallAt(h[0]) {
      ResolvedCallExact(table[Operand(h[0])]);
      assert RewriteWord(h[0], r) != h[0];
      assert Rewrite(h, r)[0] == RewriteWord(h[0], r);
    } else {
      CallIsResolved(h[n..], id);
      assert Rewrite(h, r)[n..] == Rewrite(h[n..], r);
    }
  }

  /** Whatever whole code follows and whatever the addresses, the words of the prefix are left alone
      and the code after it is resolved on its own. */
  ghost predicate LeftAlone(h: seq<word>) { forall c, table | Whole(c) :: ResolvesBehind(h, c, table) }

  predicate ResolvesBehind(h: seq<word>, c: seq<word>, table: seq<nat>) {
    Rewrite(h + c, Resolve(table)) == h + Rewrite(c, Resolve(table))
  }

  /** A prefix is left alone if and only if it reads as whole instructions without a call. */
  lemma PrefixExact(h: seq<word>)
    ensures LeftAlone(h) <==> Whole(h) && CallsOf(h) == {}
  {
    hide Rewrite, Whole, CallsOf, WordSize, RewriteWord;
    if Whole(h) && CallsOf(h) == {} {
      forall c, table | Whole(c)
        ensures ResolvesBehind(h, c, table)
      {
        InertPrefix(h, c, table);
      }
    } else if !Whole(h) {
      var call: word := SUB_CALL * 4096;
      OverrunSkips(h, call, [1]);
      OneCall();
      assert (h + Rewrite([call], Resolve([1])))[|h|] == Rewrite([call], Resolve([1]))[0];
      assert !ResolvesBehind(h, [call], [1]);
    } else {
      var id :| id in CallsOf(h);
      var table := seq(4096, i => if i == 0 then 1 else 0);
      CallIsResolved(h, id);
      EmptyCode(Resolve(table));
      assert h + [] == h;
      assert !ResolvesBehind(h, [], table);
    }
  }

  lemma OneCall()
    ensures Whole([SUB_CALL * 4096]) && Rewrite([SUB_CALL * 4096], Resolve([1]))[0] != SUB_CALL * 4096
  {
    RewriteOne([SUB_CALL * 4096], Resolve([1]));
    ResolvedCallExact(1);
  }

  /** The table of a program is left alone, and all code after it resolved on its own, if and only
      if the table is inert. */
  lemma TableExact(events: seq<Segment>)
    ensures LeftAlone(Header(events)) <==> TableInert(events)
  {
    hide LeftAlone, Header;
    PrefixExact(Header(events));
  }

  /** An id of the initial event, of a local event or of a global event. */
  predicate EventId(id: nat) { id < 4096 || 0xF000 <= id <= 0xFFFF }

  /** Words that read as instructions of one word which no resolution touches. */
  predicate TableWords(c: seq<word>) { forall i | 0 <= i < |c| :: Opcode(c[i]) in {STOP, SMALL_IMMEDIATE, 15} }

  lemma {:induction false} TableWordsInert(c: seq<word>)
    requires TableWords(c)
    ensures Whole(c) && CallsOf(c) == {}
    decreases |c|
  {
    if c != [] {
      assert Opcode(c[0]) in {STOP, SMALL_IMMEDIATE, 15};
      assert WordSize(c[0]) == 1 && CallAt(c[0]) == {};
      assert forall i | 0 <= i < |c[1..]| :: c[1..][i] == c[i + 1];
      TableWordsInert(c[1..]);
    }
  }

  lemma {:induction false} EntriesTable(events: seq<Segment>, addr: nat)
    requires (forall e | e in events :: EventId(e.id) && e.code != []) && addr + |Flat(events)| <= 8192
    ensures TableWords(Entries(events, addr))
    decreases |events|
  {
    if events != [] {
      assert events[0] in events;
      EntriesTable(events[1..], addr + |events[0].code|);
    }
  }

  /** With the ids the compiler gives out, a table is inert as long as the events end by 8192. */
  lemma SmallTableInert(events: seq<Segment>)
    requires (forall e | e in events :: EventId(e.id) && e.code != []) && SubBase(events) <= 8192
    ensures TableInert(events)
  {
    EntriesTable(events, HeaderSize(events));
    FlatNonEmpty(events);
    assert TableWords(Header(events));
    TableWordsInert(Header(events));
  }

  lemma {:induction false} FlatNonEmpty(events: seq<Segment>)
    requires forall e | e in events :: e.code != []
    ensures |events| <= |Flat(events)|
  {
    if events != [] {
      assert events[0] in events;
      FlatNonEmpty(events[1..]);
    }
  }

  // ----- correctness -----

  /** Segments as code generation and completion leave them. */
  predicate Linkable(events: seq<Segment>, subs: seq<Segment>, tableSize: nat) {
    && (forall e | e in events :: e.id < 65536 && e.code != [] && Whole(e.code))
    && (forall s | s in subs :: s.id < tableSize && Whole(s.code))
    && Distinct(events) && Distinct(subs)
  }

  /** Behind an inert table, every segment stands at its address with exactly its calls resolved and
      every other word, operands and vector table included, untouched. */
  lemma LinkedLayout(events: seq<Segment>, subs: seq<Segment>, tableSize: nat)
    requires Linkable(events, subs, tableSize) && TableInert(events)
    ensures var r := Resolve(SubTable(events, subs, tableSize));
            Linked(events, subs, tableSize) == Header(events) + Flat(Rewritten(events, r)) + Flat(Rewritten(subs, r))
  {
    hide Rewrite, Whole, Flat, Header, SubTable;
    var r := Resolve(SubTable(events, subs, tableSize));
    FlatWhole(events, r);
    FlatWhole(subs, r);
    Associative(Header(events), Flat(events), Flat(subs));
    InertPrefix(Header(events), Flat(events) + Flat(subs), r.table);
    RewriteConcat(Flat(events), Flat(subs), r);
  }

  lemma LinkedEvent(events: seq<Segment>, subs: seq<Segment>, tableSize: nat, i: nat)
    requires Linkable(events, subs, tableSize) && TableInert(events) && i < |events|
    ensures At(Linked(events, subs, tableSize), Start(events, HeaderSize(events), i),
               Rewrite(events[i].code, Resolve(SubTable(events, subs, tableSize))))
  {
    hide Rewrite, Header, SubTable, Linked, Unresolved, Flat, Whole, At, Start;
    var r := Resolve(SubTable(events, subs, tableSize));
    var prog := Linked(events, subs, tableSize);
    LinkedLayout(events, subs, tableSize);
    var h, e, s := Header(events), Flat(Rewritten(events, r)), Flat(Rewritten(subs, r));
    PartsAt(prog, h, e, s);
    FlatAt(Rewritten(events, r), prog, |h|, i);
    StartRewritten(events, r, |h|, i);
  }

  lemma PartsAt(prog: seq<word>, h: seq<word>, e: seq<word>, s: seq<word>)
    requires prog == h + e + s
    ensures At(prog, |h|, e) && At(prog, |h| + |e|, s)
  {
  }

  lemma SubTableAt(events: seq<Segment>, subs: seq<Segment>, tableSize: nat, i: nat)
    requires (forall s | s in subs :: s.id < tableSize) && Distinct(subs) && i < |subs|
    ensures SubTable(events, subs, tableSize)[subs[i].id] == Start(subs, SubBase(events), i)
  {
    hide Addresses, Start;
    AddressesAt(subs, SubBase(events), seq(tableSize, _ => 0), i);
  }

  /** Each subroutine stands at the address its calls are resolved to. */
  lemma LinkedSub(events: seq<Segment>, subs: seq<Segment>, tableSize: nat, i: nat)
    requires Linkable(events, subs, tableSize) && TableInert(events) && i < |subs|
    ensures var table := SubTable(events, subs, tableSize);
            At(Linked(events, subs, tableSize), table[subs[i].id], Rewrite(subs[i].code, Resolve(table)))
  {
    hide Rewrite, Header, SubTable, Linked, Unresolved, Flat, Whole, At, Start;
    var table := SubTable(events, subs, tableSize);
    SubTableAt(events, subs, tableSize, i);
    var r := Resolve(table);
    var prog := Linked(events, subs, tableSize);
    LinkedLayout(events, subs, tableSize);
    var h, e, s := Header(events), Flat(Rewritten(events, r)), Flat(Rewritten(subs, r));
    PartsAt(prog, h, e, s);
    RewrittenLength(events, r);
    FlatAt(Rewritten(subs, r), prog, SubBase(events), i);
    StartRewritten(subs, r, SubBase(events), i);
  }

  lemma {:induction false} RewrittenLength(segments: seq<Segment>, r: Rewriting)
    ensures |Flat(Rewritten(segments, r))| == |Flat(segments)|
  {
    hide Rewrite;
    if segments != [] {
      RewrittenLength(segments[1..], r);
      assert Rewritten(segments, r)[1..] == Rewritten(segments[1..], r);
    }
  }

  // ----- the vector table read back -----

  /** The first n entries of the vector table as a map from addresses to ids. */
  function AddressMap(bytecode: seq<word>, n: nat): map<nat, nat>
    requires 2 * n < |bytecode|
  {
    if n == 0 then map[] else AddressMap(bytecode, n - 1)[bytecode[2 * n] := bytecode[2 * n - 1]]
  }

  method GetEventAddressesToIds(bytecode: seq<word>) returns (m: map<nat, nat>)
    requires bytecode != [] && bytecode[0] % 2 == 1 && bytecode[0] <= |bytecode|
    ensures m == AddressMap(bytecode, bytecode[0] / 2)
  {
    m := map[];
    var size := bytecode[0];
    var pc := 1;
    while pc < size
      invariant 1 <= pc <= size && pc % 2 == 1 && m == AddressMap(bytecode, pc / 2)
    {
      m := m[bytecode[pc + 1] := bytecode[pc]];
      pc := pc + 2;
    }
  }

  lemma {:induction false} EntryAt(events: seq<Segment>, addr: nat, i: nat)
    requires i < |events|
    ensures Entries(events, addr)[2 * i] == events[i].id % 65536
    ensures Entries(events, addr)[2 * i + 1] == Start(events, addr, i) % 65536
    decreases |events|
  {
    if i > 0 {
      EntryAt(events[1..], addr + |events[0].code|, i - 1);
    }
  }

  lemma {:induction false} StartsGrow(events: seq<Segment>, base: nat, i: nat, j: nat)
    requires i < j <= |events| && forall e | e in events :: e.code != []
    ensures base <= Start(events, base, i) < Start(events, base, j) <= base + |Flat(events)|
    decreases |events|
  {
    assert events[0] in events;
    var next := base + |events[0].code|;
    if i > 0 {
      StartsGrow(events[1..], next, i - 1, j - 1);
    } else if j > 1 {
      StartsGrow(events[1..], next, 0, j - 1);
    }
  }

  /** Read back from a linked program whose events have sixteen-bit addresses, an inert table gives
      for the start of each event segment, and for no other address, the id of that event. */
  lemma EventTableReadsBack(events: seq<Segment>, subs: seq<Segment>, tableSize: nat)
    requires Linkable(events, subs, tableSize) && TableInert(events) && SubBase(events) <= 65536
    ensures var prog := Linked(events, subs, tableSize);
            var m := AddressMap(prog, |events|);
            && prog[0] == HeaderSize(events) == 2 * |events| + 1 <= |prog|
            && (forall i | 0 <= i < |events| ::
                  prog[2 * i + 1] == events[i].id && prog[2 * i + 2] == Start(events, HeaderSize(events), i))
            && (forall i | 0 <= i < |events| ::
                  Start(events, HeaderSize(events), i) in m && m[Start(events, HeaderSize(events), i)] == events[i].id)
            && (forall a | a in m :: exists i | 0 <= i < |events| :: a == Start(events, HeaderSize(events), i))
  {
    hide Linked, Unresolved, Header, Whole, CallsOf, Start, Flat;
    var prog := Linked(events, subs, tableSize);
    var h := Header(events);
    TableKept(events, subs, tableSize);
    forall i | 0 <= i < |events|
      ensures prog[2 * i + 1] == events[i].id && prog[2 * i + 2] == Start(events, HeaderSize(events), i)
    {
      EntryWords(events, i);
      assert prog[2 * i + 1] == h[2 * i + 1] && prog[2 * i + 2] == h[2 * i + 2];
    }
    HeaderWord(events);
    assert prog[0] == h[0];
    AddressMapOf(events, prog, HeaderSize(events), |events|);
  }

  lemma TableKept(events: seq<Segment>, subs: seq<Segment>, tableSize: nat)
    requires Linkable(events, subs, tableSize) && TableInert(events)
    ensures |Linked(events, subs, tableSize)| >= |Header(events)|
    ensures Linked(events, subs, tableSize)[..|Header(events)|] == Header(events)
  {
    hide Linked, Unresolved, Header, Whole, CallsOf, Start, Flat, SubTable, Rewritten, Rewrite;
    LinkedLayout(events, subs, tableSize);
  }

  lemma HeaderWord(events: seq<Segment>)
    requires SubBase(events) <= 65536 && forall e | e in events :: e.code != []
    ensures Header(events)[0] == HeaderSize(events)
  {
    FlatNonEmpty(events);
  }

  lemma EntryWords(events: seq<Segment>, i: nat)
    requires (forall e | e in events :: e.id < 65536 && e.code != []) && SubBase(events) <= 65536 && i < |events|
    ensures Header(events)[2 * i + 1] == events[i].id
    ensures Header(events)[2 * i + 2] == Start(events, HeaderSize(events), i)
  {
    EntryAt(events, HeaderSize(events), i);
    StartsGrow(events, HeaderSize(events), i, |events|);
    assert events[i] in events;
  }

  lemma {:induction false} AddressMapOf(events: seq<Segment>, prog: seq<word>, base: nat, n: nat)
    requires n <= |events| && 2 * n < |prog| && forall e | e in events :: e.code != []
    requires forall i | 0 <= i < n :: prog[2 * i + 1] == events[i].id && prog[2 * i + 2] == Start(events, base, i)
    ensures var m := AddressMap(prog, n);
            && (forall i | 0 <= i < n :: Start(events, base, i) in m && m[Start(events, base, i)] == events[i].id)
            && (forall a | a in m :: exists i | 0 <= i < n :: a == Start(events, base, i))
    decreases n
  {
    if n > 0 {
      AddressMapOf(events, prog, base, n - 1);
      assert prog[2 * (n - 1) + 1] == events[n - 1].id;
      forall i | 0 <= i < n - 1
        ensures Start(events, base, i) != Start(events, base, n - 1)
      {
        StartsGrow(events, base, i, n - 1);
      }
    }
  }

  // ----- a table that is not inert -----

  /** With an event of 8187 words the address of the next event reads as an instruction of two
      words: the walk skips the call at the start of the first event, which stays unresolved. */
  lemma OversizedProgramCounterexample()
    ensures var events := [Segment(0, [SUB_CALL * 4096] + seq(8186, _ => 0), 0), Segment(1, [0], 0)];
            var subs := [Segment(0, [SUB_RET * 4096], 0)];
            SubTable(events, subs, 1)[0] == 8193 && Linked(events, subs, 1)[5] == SUB_CALL * 4096
  {
    var first, second := Segment(0, [SUB_CALL * 4096] + seq(8186, _ => 0), 0), Segment(1, [0], 0);
    var events, subs := [first, second], [Segment(0, [SUB_RET * 4096], 0)];
    TwoEvents(first, second);
    SubTableAt(events, subs, 1, 0);
    var code := Unresolved(events, subs);
    assert code[0] == 5 && code[1] == 0 && code[2] == 5 && code[3] == 1 && code[4] == 8192;
    SkippedWord(code, Resolve(SubTable(events, subs, 1)));
  }

  lemma TwoEvents(a: Segment, b: Segment)
    requires a.id < 65536 && b.id < 65536 && 5 + |a.code| < 65536
    ensures Flat([a, b]) == a.code + b.code
    ensures Header([a, b]) == [5, a.id, 5, b.id, 5 + |a.code|]
  {
    var events := [a, b];
    assert events[1..] == [b] && [b][1..] == [];
    assert Flat([b]) == b.code + Flat([]) == b.code;
    assert Entries([b], 5 + |a.code|) == [b.id, 5 + |a.code|] + [];
    assert Entries(events, 5) == [a.id, 5] + [b.id, 5 + |a.code|];
  }

  /** Four table words, then one that reads as an instruction of two words. */
  lemma SkippedWord(code: seq<word>, r: Rewriting)
    requires |code| > 5 && r.Resolve? && code[0] < 4096 && code[1] < 4096 && code[2] < 4096 && code[3] < 4096
    requires Opcode(code[4]) == LARGE_IMMEDIATE
    ensures Rewrite(code, r)[5] == code[5]
  {
    assert code[1..][1..] == code[2..] && code[2..][1..] == code[3..] && code[3..][1..] == code[4..];
    SkipWord(code, r);
    SkipWord(code[1..], r);
    SkipWord(code[2..], r);
    SkipWord(code[3..], r);
    PairKept(code[4..], r);
    hide Rewrite;
    assert Rewrite(code, r)[5] == Rewrite(code[1..], r)[4] == Rewrite(code[2..], r)[3] == Rewrite(code[3..], r)[2]
        == Rewrite(code[4..], r)[1];
  }

  lemma PairKept(code: seq<word>, r: Rewriting)
    requires |code| >= 2 && r.Resolve? && Opcode(code[0]) == LARGE_IMMEDIATE
    ensures Rewrite(code, r)[1] == code[1]
  {
    assert RewriteWord(code[0], r) == code[0] && WordSize(code[0]) == 2;
  }

  lemma SkipWord(code: seq<word>, r: Rewriting)
    requires code != [] && Opcode(code[0]) == STOP && r.Resolve?
    ensures Rewrite(code, r)[1..] == Rewrite(code[1..], r)
  {
  }
}
