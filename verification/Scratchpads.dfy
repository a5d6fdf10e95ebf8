/** The scratchpads of a group and the nodes they belong to. */
module Scratchpads {
  import opened Words

  /** 0 is the nil identifier. Aseba identifiers are sixteen-bit numbers. */
  type NodeId = nat

  datatype Pad = Pad(node: NodeId, preferred: NodeId, asebaId: nat, name: string, text: string)

  datatype NodeInfo = NodeInfo(id: NodeId, nativeId: nat, name: string)

  const Fresh: Pad := Pad(0, 0, 65535, "", "")

  // ----- what an assignment computes -----

  function Ids(nodes: seq<NodeInfo>): set<NodeId> { set n | n in nodes :: n.id }

  function Used(pads: seq<Pad>): set<NodeId> { set p | p in pads && p.node != 0 :: p.node }

  /** Pads of nodes that are gone lose them. */
  function Drop(pads: seq<Pad>, nodes: seq<NodeInfo>): (r: seq<Pad>)
    ensures |r| == |pads|
    ensures forall i | 0 <= i < |pads| :: r[i] == if pads[i].node in Ids(nodes) then pads[i] else pads[i].(node := 0)
  {
    seq(|pads|, i requires 0 <= i < |pads| => if pads[i].node in Ids(nodes) then pads[i] else pads[i].(node := 0))
  }

  /** The connected nodes without a pad. */
  function Free(pads: seq<Pad>, nodes: seq<NodeInfo>): (r: seq<NodeInfo>)
    ensures forall n :: n in r <==> n in nodes && n.id !in Used(pads)
  {
    if nodes == [] then []
    else if nodes[0].id in Used(pads) then Free(pads, nodes[1..])
    else [nodes[0]] + Free(pads, nodes[1..])
  }

  datatype Criterion = ByNodeId | ByAsebaId | ByName

  predicate Matches(rule: Criterion, n: NodeInfo, p: Pad)
  {
    match rule
    case ByNodeId => p.node == n.id
    case ByAsebaId => p.asebaId == n.nativeId
    case ByName => p.name == n.name
  }

  /** The first pad without a node that suits n. */
  function FirstMatch(pads: seq<Pad>, rule: Criterion, n: NodeInfo): (k: nat)
    ensures k <= |pads| && (k < |pads| ==> pads[k].node == 0 && Matches(rule, n, pads[k]))
    ensures forall i | 0 <= i < k :: !(pads[i].node == 0 && Matches(rule, n, pads[i]))
  {
    if pads == [] || (pads[0].node == 0 && Matches(rule, n, pads[0])) then 0 else 1 + FirstMatch(pads[1..], rule, n)
  }

  function Give(pads: seq<Pad>, k: nat, id: NodeId): (r: seq<Pad>)
    requires k < |pads|
    ensures |r| == |pads|
  {
    pads[k := pads[k].(node := id)]
  }

  /** One pass: each free node goes to the first pad that suits it. */
  function Pass(pads: seq<Pad>, rule: Criterion, free: seq<NodeInfo>): (r: seq<Pad>)
    ensures |r| == |pads|
    decreases |free|
  {
    if free == [] then pads else
    var k := FirstMatch(pads, rule, free[0]);
    Pass(if k < |pads| then Give(pads, k, free[0].id) else pads, rule, free[1..])
  }

  /** Pads from i on that are left get the first free node, as long as there is one. */
  function Fill(pads: seq<Pad>, i: nat, nodes: seq<NodeInfo>): (r: seq<Pad>)
    requires i <= |pads|
    ensures |r| == |pads|
    decreases |pads| - i
  {
    if i == |pads| then pads
    else if pads[i].node != 0 then Fill(pads, i + 1, nodes)
    else
      var free := Free(pads, nodes);
      if free == [] then pads else Fill(Give(pads, i, free[0].id), i + 1, nodes)
  }

  function Matched(pads: seq<Pad>, rule: Criterion, nodes: seq<NodeInfo>): (r: seq<Pad>)
    ensures |r| == |pads|
  {
    Pass(pads, rule, Free(pads, nodes))
  }

  function Assign(pads: seq<Pad>, nodes: seq<NodeInfo>): (r: seq<Pad>)
    ensures |r| == |pads|
  {
    var p0 := Matched(Drop(pads, nodes), ByNodeId, nodes);
    var p1 := Matched(p0, ByAsebaId, nodes);
    var p2 := Matched(p1, ByName, nodes);
    Fill(p2, 0, nodes)
  }

  // ----- finding pads -----

  datatype Entry = Entry(preferred: Option<NodeId>, name: string, asebaId: Option<nat>, text: string)

  predicate Suits(p: Pad, e: Entry) {
    || (e.preferred.Some? && (p.node == e.preferred.value || p.preferred == e.preferred.value))
    || (e.asebaId.Some? && p.asebaId == e.asebaId.value)
    || p.name == e.name
  }

  function FirstSuiting(pads: seq<Pad>, e: Entry): (k: nat)
    ensures k <= |pads| && (k < |pads| ==> Suits(pads[k], e)) && forall i | 0 <= i < k :: !Suits(pads[i], e)
  {
    if pads == [] || Suits(pads[0], e) then 0 else 1 + FirstSuiting(pads[1..], e)
  }

  function FirstOf(pads: seq<Pad>, id: NodeId): (k: nat)
    ensures k <= |pads| && (k < |pads| ==> pads[k].node == id) && forall i | 0 <= i < k :: pads[i].node != id
  {
    if pads == [] || pads[0].node == id then 0 else 1 + FirstOf(pads[1..], id)
  }

  function CreatedFor(e: Entry): Pad {
    Fresh.(preferred := if e.preferred.Some? then e.preferred.value else 0, name := e.name,
           asebaId := if e.asebaId.Some? then e.asebaId.value else 65535)
  }

  function Load(pads: seq<Pad>, entries: seq<Entry>): seq<Pad>
    decreases |entries|
  {
    if entries == [] then pads else
    var k := FirstSuiting(pads, entries[0]);
    var grown := if k < |pads| then pads else pads + [CreatedFor(entries[0])];
    Load(grown[k := grown[k].(text := entries[0].text)], entries[1..])
  }

  function SetText(pads: seq<Pad>, id: NodeId, text: string): seq<Pad>
  {
    var k := FirstOf(pads, id);
    var grown := if k < |pads| then pads else pads + [Fresh.(node := id)];
    grown[k := grown[k].(text := text)]
  }

  // ----- the group -----

  class Group {
    var scratchpads: seq<Pad>

    constructor ()
      ensures scratchpads == []
    {
      scratchpads := [];
    }

    method SetNodeScratchpad(id: NodeId, text: string)
      modifies this
      ensures scratchpads == SetText(old(scratchpads), id, text)
    {
      var k := 0;
      while k < |scratchpads| && scratchpads[k].node != id
        invariant 0 <= k <= |scratchpads| && scratchpads == old(scratchpads)
        invariant forall i | 0 <= i < k :: scratchpads[i].node != id
      {
        k := k + 1;
      }
      assert k == FirstOf(scratchpads, id);
      if k == |scratchpads| {
        scratchpads := scratchpads + [Fresh.(node := id)];
      }
      scratchpads := scratchpads[k := scratchpads[k].(text := text)];
    }

    method LoadAesl(entries: seq<Entry>, nodes: seq<NodeInfo>) returns (signalled: set<nat>)
      requires 0 !in Ids(nodes)
      modifies this
      ensures scratchpads == Assign(Load([], entries), nodes)
      ensures signalled == if AllAssigned(scratchpads) then Affected(Load([], entries), nodes) else {}
    {
      scratchpads := [];
      var i := 0;
      assert entries[0..] == entries;
      while i < |entries|
        invariant 0 <= i <= |entries|
        invariant Load([], entries) == Load(scratchpads, entries[i..])
      {
        assert entries[i..][0] == entries[i] && entries[i..][1..] == entries[i + 1..];
        var k := FindOrCreateScratchPad(entries[i]);
        scratchpads := scratchpads[k := scratchpads[k].(text := entries[i].text)];
        i := i + 1;
      }
      signalled := AssignScratchpads(nodes);
    }

    method FindOrCreateScratchPad(e: Entry) returns (k: nat)
      modifies this
      ensures k == FirstSuiting(old(scratchpads), e)
      ensures scratchpads == if k < |old(scratchpads)| then old(scratchpads) else old(scratchpads) + [CreatedFor(e)]
    {
      k := 0;
      while k < |scratchpads| && !Suits(scratchpads[k], e)
        invariant 0 <= k <= |scratchpads| && scratchpads == old(scratchpads)
        invariant forall i | 0 <= i < k :: !Suits(scratchpads[i], e)
      {
        k := k + 1;
      }
      assert k == FirstSuiting(scratchpads, e);
      if k == |scratchpads| {
        var g := Fresh;
        if e.preferred.Some? {
          g := g.(preferred := e.preferred.value);
        }
        g := g.(name := e.name);
        if e.asebaId.Some? {
          g := g.(asebaId := e.asebaId.value);
        }
        scratchpads := scratchpads + [g];
      }
    }

    /** One pass over the nodes that are free at its start. */
    method AssignBy(rule: Criterion, nodes: seq<NodeInfo>)
      modifies this
      ensures scratchpads == Matched(old(scratchpads), rule, nodes)
    {
      var free := Free(scratchpads, nodes);
      var i := 0;
      assert free[0..] == free;
      while i < |free|
        invariant 0 <= i <= |free|
        invariant Pass(old(scratchpads), rule, free) == Pass(scratchpads, rule, free[i..])
      {
        assert free[i..][0] == free[i] && free[i..][1..] == free[i + 1..];
        var k := FirstMatch(scratchpads, rule, free[i]);
        if k < |scratchpads| {
          scratchpads := Give(scratchpads, k, free[i].id);
        }
        i := i + 1;
      }
    }

    /** The pads of nodes that are gone, which lose them, and those that have none. */
    method DropDisconnected(nodes: seq<NodeInfo>) returns (modified: set<nat>)
      modifies this
      ensures scratchpads == Drop(old(scratchpads), nodes)
      ensures modified == Affected(old(scratchpads), nodes)
    {
      ghost var was := scratchpads;
      var i := 0;
      modified := {};
      while i < |scratchpads|
        invariant 0 <= i <= |scratchpads| == |was|
        invariant forall j | 0 <= j < |was| ::
          scratchpads[j] == if j < i && was[j].node !in Ids(nodes) then was[j].(node := 0) else was[j]
        invariant modified == set j: nat | j < i && was[j].node !in Ids(nodes)
      {
        if scratchpads[i].node !in Ids(nodes) {
          scratchpads := scratchpads[i := scratchpads[i].(node := 0)];
          modified := modified + {i};
        }
        i := i + 1;
      }
    }

    /** Any free node for the pads that are left. False if there are not enough. */
    method AssignRemaining(nodes: seq<NodeInfo>) returns (enough: bool)
      requires 0 !in Ids(nodes)
      modifies this
      ensures scratchpads == Fill(old(scratchpads), 0, nodes)
      ensures enough <==> AllAssigned(scratchpads)
    {
      ghost var was := scratchpads;
      var i := 0;
      while i < |scratchpads|
        invariant 0 <= i <= |scratchpads|
        invariant Fill(was, 0, nodes) == Fill(scratchpads, i, nodes)
        invariant forall j | 0 <= j < i :: scratchpads[j].node != 0
      {
        if scratchpads[i].node == 0 {
          var free := Free(scratchpads, nodes);
          if free == [] {
            return false;
          }
          assert free[0] in free && free[0].id in Ids(nodes);
          scratchpads := Give(scratchpads, i, free[0].id);
        }
        i := i + 1;
      }
      enough := true;
    }

    /** Signals the pads that lost or got a node, but none of them when nodes are short. */
    method AssignScratchpads(nodes: seq<NodeInfo>) returns (signalled: set<nat>)
      requires 0 !in Ids(nodes)
      modifies this
      ensures scratchpads == Assign(old(scratchpads), nodes)
      ensures signalled == if AllAssigned(scratchpads) then Affected(old(scratchpads), nodes) else {}
    {
      signalled := DropDisconnected(nodes);
      AssignBy(ByNodeId, nodes);
      AssignBy(ByAsebaId, nodes);
      AssignBy(ByName, nodes);
      var enough := AssignRemaining(nodes);
      if !enough {
        signalled := {};
      }
    }
  }

  predicate AllAssigned(pads: seq<Pad>) { forall i | 0 <= i < |pads| :: pads[i].node != 0 }

  /** The pads whose node is not connected. */
  function Affected(pads: seq<Pad>, nodes: seq<NodeInfo>): set<nat> {
    set j: nat | j < |pads| && pads[j].node !in Ids(nodes)
  }

  // ----- no two pads share a node -----

  predicate NoShare(pads: seq<Pad>) {
    forall i, j | 0 <= i < j < |pads| && pads[i].node != 0 :: pads[i].node != pads[j].node
  }

  /** Connected nodes have distinct identifiers, none of them nil. */
  predicate Connected(nodes: seq<NodeInfo>) {
    && (forall i | 0 <= i < |nodes| :: nodes[i].id != 0)
    && forall i, j | 0 <= i < j < |nodes| :: nodes[i].id != nodes[j].id
  }

  /** Every pad that has a node has a connected one. */
  predicate Attached(pads: seq<Pad>, nodes: seq<NodeInfo>) { Used(pads) <= Ids(nodes) }

  /** Pads keep everything but their node, and a node once given stays. */
  predicate Extends(a: seq<Pad>, b: seq<Pad>)
  {
    && |a| == |b|
    && forall i | 0 <= i < |a| :: b[i] == a[i].(node := b[i].node) && (a[i].node != 0 ==> b[i].node == a[i].node)
  }

  lemma GiveKeeps(pads: seq<Pad>, k: nat, id: NodeId)
    requires k < |pads| && pads[k].node == 0 && id != 0 && id !in Used(pads) && NoShare(pads)
    ensures NoShare(Give(pads, k, id)) && Extends(pads, Give(pads, k, id))
    ensures Used(Give(pads, k, id)) == Used(pads) + {id}
  {
    var r := Give(pads, k, id);
    forall i | 0 <= i < |pads| && pads[i].node != 0
      ensures pads[i].node in Used(pads)
    {
      assert pads[i] in pads;
    }
    forall x
      ensures x in Used(r) <==> x in Used(pads) || x == id
    {
      GiveUsed(pads, k, id, x);
    }
  }

  lemma GiveUsed(pads: seq<Pad>, k: nat, id: NodeId, x: NodeId)
    requires k < |pads| && pads[k].node == 0 && id != 0
    ensures x in Used(Give(pads, k, id)) <==> x in Used(pads) || x == id
  {
    var r := Give(pads, k, id);
    assert r[k] in r;
    if x in Used(pads) {
      var i :| 0 <= i < |pads| && pads[i].node == x && x != 0;
      assert r[i] in r;
    }
    if x in Used(r) {
      var i :| 0 <= i < |r| && r[i].node == x && x != 0;
      assert i != k ==> pads[i] in pads;
    }
  }

  /** Distinct connected nodes that no pad has. */
  predicate Available(free: seq<NodeInfo>, pads: seq<Pad>) {
    Connected(free) && Ids(free) !! Used(pads)
  }

  /** What a pass guarantees: pads get nodes of the list only, and only pads that suit them. */
  ghost predicate Passed(a: seq<Pad>, b: seq<Pad>, rule: Criterion, free: seq<NodeInfo>)
  {
    && Extends(a, b) && NoShare(b) && Used(a) <= Used(b) <= Used(a) + Ids(free)
    && forall i | 0 <= i < |a| && a[i].node != b[i].node ::
         exists n | n in free :: n.id == b[i].node && Matches(rule, n, a[i])
  }

  lemma {:induction false} PassKeeps(pads: seq<Pad>, rule: Criterion, free: seq<NodeInfo>)
    requires NoShare(pads) && Available(free, pads)
    ensures Passed(pads, Pass(pads, rule, free), rule, free)
    decreases |free|
  {
    hide NoShare, Used;
    if free != [] {
      var n, rest := free[0], free[1..];
      assert n in free && n.id in Ids(free);
      assert Ids(rest) <= Ids(free);
      HeadApart(free);
      var k := FirstMatch(pads, rule, n);
      if k < |pads| {
        var next := Give(pads, k, n.id);
        GiveKeeps(pads, k, n.id);
        PassKeeps(next, rule, rest);
        PassedAfter(pads, next, Pass(next, rule, rest), rule, free, k);
      } else {
        PassKeeps(pads, rule, rest);
      }
    }
  }

  lemma HeadApart(free: seq<NodeInfo>)
    requires Connected(free) && free != []
    ensures Connected(free[1..]) && free[0].id != 0 && free[0].id !in Ids(free[1..])
  {
  }

  lemma PassedAfter(a: seq<Pad>, b: seq<Pad>, c: seq<Pad>, rule: Criterion, free: seq<NodeInfo>, k: nat)
    requires free != [] && k < |a| && a[k].node == 0 && free[0].id != 0 && Matches(rule, free[0], a[k])
    requires b == Give(a, k, free[0].id) && Used(b) == Used(a) + {free[0].id} && Passed(b, c, rule, free[1..])
    ensures Passed(a, c, rule, free)
  {
    hide NoShare, Used;
    assert free[0] in free && Ids(free[1..]) <= Ids(free) && free[0].id in Ids(free);
    forall i | 0 <= i < |a| && a[i].node != c[i].node
      ensures exists n | n in free :: n.id == c[i].node && Matches(rule, n, a[i])
    {
      if i != k {
        var n :| n in free[1..] && n.id == c[i].node && Matches(rule, n, b[i]);
        assert n in free;
      }
    }
  }

  lemma {:induction false} FreeAvailable(pads: seq<Pad>, nodes: seq<NodeInfo>)
    requires Connected(nodes)
    ensures Available(Free(pads, nodes), pads) && Ids(Free(pads, nodes)) == Ids(nodes) - Used(pads)
    decreases |nodes|
  {
    hide Used, Ids, Connected;
    if nodes == [] {
      NoIds();
    } else {
      HeadApart(nodes);
      FreeAvailable(pads, nodes[1..]);
      IdsOf(nodes);
      var rest := Free(pads, nodes[1..]);
      if nodes[0].id !in Used(pads) {
        var free := [nodes[0]] + rest;
        assert free[1..] == rest;
        IdsOf(free);
        ConsConnected(nodes[0], rest);
      }
    }
  }

  lemma NoIds()
    ensures Ids([]) == {} && Connected([])
  {
  }

  lemma ConsConnected(n: NodeInfo, rest: seq<NodeInfo>)
    requires n.id != 0 && n.id !in Ids(rest) && Connected(rest)
    ensures Connected([n] + rest)
  {
    forall i | 0 <= i < |rest|
      ensures rest[i].id != n.id
    {
      assert rest[i] in rest;
    }
  }

  lemma IdsOf(nodes: seq<NodeInfo>)
    requires nodes != []
    ensures Ids(nodes) == {nodes[0].id} + Ids(nodes[1..])
  {
    assert nodes == [nodes[0]] + nodes[1..];
  }

  /** A whole pass over the nodes that are free at its start. */
  lemma MatchedKeeps(pads: seq<Pad>, rule: Criterion, nodes: seq<NodeInfo>)
    requires NoShare(pads) && Connected(nodes) && Attached(pads, nodes)
    ensures Passed(pads, Matched(pads, rule, nodes), rule, Free(pads, nodes)) &&
            Attached(Matched(pads, rule, nodes), nodes)
  {
    hide NoShare, Used;
    FreeAvailable(pads, nodes);
    PassKeeps(pads, rule, Free(pads, nodes));
  }

  /** The first pass, by the identifier of the node, never changes anything. */
  lemma {:induction false} FirstPassIsIdle(pads: seq<Pad>, free: seq<NodeInfo>)
    requires forall i | 0 <= i < |free| :: free[i].id != 0
    ensures Pass(pads, ByNodeId, free) == pads
    decreases |free|
  {
    if free != [] {
      FirstPassIsIdle(pads, free[1..]);
    }
  }

  /** After a pass no pad is left that suits a node left. */
  lemma {:induction false} PassIsMaximal(pads: seq<Pad>, rule: Criterion, free: seq<NodeInfo>, n: NodeInfo, i: nat)
    requires NoShare(pads) && Available(free, pads) && n in free && i < |pads| && rule != ByNodeId
    requires var r := Pass(pads, rule, free); r[i].node == 0 && n.id !in Used(r)
    ensures !Matches(rule, n, pads[i])
    decreases |free|
  {
    hide NoShare, Used;
    var m, rest := free[0], free[1..];
    assert m in free && m.id in Ids(free) && Ids(rest) <= Ids(free);
    HeadApart(free);
    PassKeeps(pads, rule, free);
    var k := FirstMatch(pads, rule, m);
    if k < |pads| {
      var next := Give(pads, k, m.id);
      GiveKeeps(pads, k, m.id);
      PassKeeps(next, rule, rest);
      if n != m {
        PassIsMaximal(next, rule, rest, n, i);
      }
    } else if n != m {
      PassIsMaximal(pads, rule, rest, n, i);
    }
  }

  // ----- how many pads get a node -----

  function Assigned(pads: seq<Pad>): nat {
    if pads == [] then 0 else (if pads[0].node != 0 then 1 else 0) + Assigned(pads[1..])
  }

  lemma {:induction false} AssignedIsUsed(pads: seq<Pad>)
    requires NoShare(pads)
    ensures |Used(pads)| == Assigned(pads) <= |pads|
    ensures Assigned(pads) == |pads| <==> AllAssigned(pads)
  {
    hide NoShare, Used;
    if pads == [] {
      NoneUsed();
    } else {
      HeadPadApart(pads);
      AssignedIsUsed(pads[1..]);
      UsedOf(pads);
      assert AllAssigned(pads) <==> pads[0].node != 0 && AllAssigned(pads[1..]);
    }
  }

  lemma NoneUsed()
    ensures Used([]) == {}
  {
  }

  lemma HeadPadApart(pads: seq<Pad>)
    requires NoShare(pads) && pads != []
    ensures NoShare(pads[1..]) && (pads[0].node != 0 ==> pads[0].node !in Used(pads[1..]))
  {
    var rest := pads[1..];
    assert forall i | 0 <= i < |rest| :: rest[i] == pads[i + 1];
  }

  lemma UsedOf(pads: seq<Pad>)
    requires pads != []
    ensures Used(pads) == (if pads[0].node != 0 then {pads[0].node} else {}) + Used(pads[1..])
  {
    assert pads == [pads[0]] + pads[1..];
  }

  lemma {:induction false} IdsCount(nodes: seq<NodeInfo>)
    requires Connected(nodes)
    ensures |Ids(nodes)| == |nodes|
  {
    hide Ids, Connected;
    if nodes == [] {
      NoIds();
    } else {
      HeadApart(nodes);
      IdsOf(nodes);
      IdsCount(nodes[1..]);
    }
  }

  lemma {:induction false} FillKeeps(pads: seq<Pad>, i: nat, nodes: seq<NodeInfo>)
    requires i <= |pads| && NoShare(pads) && Connected(nodes) && Attached(pads, nodes)
    requires forall j | 0 <= j < i :: pads[j].node != 0
    ensures var r := Fill(pads, i, nodes);
            NoShare(r) && Attached(r, nodes) && Extends(pads, r) && (AllAssigned(r) || Free(r, nodes) == [])
    decreases |pads| - i
  {
    hide NoShare, Used, Connected, Ids;
    if i < |pads| {
      if pads[i].node != 0 {
        FillKeeps(pads, i + 1, nodes);
      } else {
        var free := Free(pads, nodes);
        FreeAvailable(pads, nodes);
        if free != [] {
          IdsOf(free);
          HeadApart(free);
          GiveKeeps(pads, i, free[0].id);
          FillKeeps(Give(pads, i, free[0].id), i + 1, nodes);
        }
      }
    }
  }

  lemma DropKeeps(pads: seq<Pad>, nodes: seq<NodeInfo>)
    requires NoShare(pads)
    ensures NoShare(Drop(pads, nodes)) && Attached(Drop(pads, nodes), nodes)
  {
  }

  function Least(a: nat, b: nat): nat { if a <= b then a else b }

  /** A pad stays with a node that is still connected, and never changes otherwise. */
  predicate KeepsNodes(a: seq<Pad>, b: seq<Pad>, nodes: seq<NodeInfo>)
  {
    && |a| == |b|
    && forall i | 0 <= i < |a| ::
         b[i] == a[i].(node := b[i].node) && (a[i].node in Ids(nodes) && a[i].node != 0 ==> b[i].node == a[i].node)
  }

  /** Main result for one assignment: no node is shared, only connected nodes are given, as many
      pads as possible have one, and pads do not move without need. */
  lemma AssignIsSound(pads: seq<Pad>, nodes: seq<NodeInfo>)
    requires NoShare(pads) && Connected(nodes)
    ensures var r := Assign(pads, nodes);
            && NoShare(r) && Attached(r, nodes) && KeepsNodes(pads, r, nodes)
            && Assigned(r) == Least(|pads|, |nodes|) && (AllAssigned(r) <==> |pads| <= |nodes|)
  {
    hide NoShare, Used, Connected, Fill, Pass, Assigned, AllAssigned, Ids;
    DropKeeps(pads, nodes);
    var d := Drop(pads, nodes);
    MatchedKeeps(d, ByNodeId, nodes);
    var p0 := Matched(d, ByNodeId, nodes);
    MatchedKeeps(p0, ByAsebaId, nodes);
    var p1 := Matched(p0, ByAsebaId, nodes);
    MatchedKeeps(p1, ByName, nodes);
    var p2 := Matched(p1, ByName, nodes);
    FillKeeps(p2, 0, nodes);
    var r := Fill(p2, 0, nodes);
    CountsAgree(r, nodes);
  }

  lemma CountsAgree(r: seq<Pad>, nodes: seq<NodeInfo>)
    requires NoShare(r) && Connected(nodes) && Attached(r, nodes) && (AllAssigned(r) || Free(r, nodes) == [])
    ensures Assigned(r) == Least(|r|, |nodes|) && (AllAssigned(r) <==> |r| <= |nodes|)
  {
    hide NoShare, Used, Connected, Assigned, AllAssigned, Ids;
    AssignedIsUsed(r);
    IdsCount(nodes);
    SubsetSize(Used(r), Ids(nodes));
    if Free(r, nodes) == [] {
      FreeAvailable(r, nodes);
      NoIds();
      forall x | x in Ids(nodes)
        ensures x in Used(r)
      {
        assert x !in Ids(nodes) - Used(r);
      }
      assert Used(r) == Ids(nodes);
    }
  }

  lemma {:induction false} SubsetSize(a: set<NodeId>, b: set<NodeId>)
    requires a <= b
    ensures |a| <= |b|
  {
    assert b == a + (b - a);
  }

  // ----- every run -----

  datatype Op =
    | Edit(id: NodeId, text: string)
    | Reload(entries: seq<Entry>, nodes: seq<NodeInfo>)
    | Reassign(nodes: seq<NodeInfo>)

  predicate Allowed(op: Op) { if op.Edit? then op.id != 0 else Connected(op.nodes) }

  function Do(pads: seq<Pad>, op: Op): seq<Pad>
  {
    match op
    case Edit(id, text) => SetText(pads, id, text)
    case Reload(entries, nodes) => Assign(Load([], entries), nodes)
    case Reassign(nodes) => Assign(pads, nodes)
  }

  function Run(pads: seq<Pad>, ops: seq<Op>): seq<Pad>
    decreases |ops|
  {
    if ops == [] then pads else Run(Do(pads, ops[0]), ops[1..])
  }

  lemma SetTextKeeps(pads: seq<Pad>, id: NodeId, text: string)
    requires NoShare(pads) && id != 0
    ensures NoShare(SetText(pads, id, text))
    ensures var r := SetText(pads, id, text);
            && |r| == (if exists i | 0 <= i < |pads| :: pads[i].node == id then |pads| else |pads| + 1)
            && (forall i | 0 <= i < |r| && r[i].node == id :: r[i].text == text)
            && (exists i | 0 <= i < |r| :: r[i].node == id)
            && (|r| > |pads| ==> r[|pads|] == Pad(id, 0, 65535, "", text))
            && forall i | 0 <= i < |pads| :: r[i] == pads[i].(text := if pads[i].node == id then text else pads[i].text)
  {
    var k := FirstOf(pads, id);
    var r := SetText(pads, id, text);
    assert r[k].node == id && r[k].text == text;
  }

  /** Loading gives no nodes. */
  lemma {:induction false} LoadUnassigned(pads: seq<Pad>, entries: seq<Entry>)
    requires forall i | 0 <= i < |pads| :: pads[i].node == 0
    ensures NoShare(Load(pads, entries))
    decreases |entries|
  {
    if entries != [] {
      var k := FirstSuiting(pads, entries[0]);
      var grown := if k < |pads| then pads else pads + [CreatedFor(entries[0])];
      LoadUnassigned(grown[k := grown[k].(text := entries[0].text)], entries[1..]);
    }
  }

  lemma DoKeeps(pads: seq<Pad>, op: Op)
    requires NoShare(pads) && Allowed(op)
    ensures NoShare(Do(pads, op))
  {
    hide NoShare;
    match op
    case Edit(id, text) => SetTextKeeps(pads, id, text);
    case Reload(entries, nodes) =>
      LoadUnassigned([], entries);
      AssignIsSound(Load([], entries), nodes);
    case Reassign(nodes) => AssignIsSound(pads, nodes);
  }

  /** Over every run of edits, loads and reassignments no two pads share a node. After an
      operation that assigns, exactly as many pads as possible have a node, all of them connected. */
  lemma {:induction false} RunIsSound(pads: seq<Pad>, ops: seq<Op>)
    requires NoShare(pads) && forall i | 0 <= i < |ops| :: Allowed(ops[i])
    ensures NoShare(Run(pads, ops))
    ensures ops != [] && !ops[|ops| - 1].Edit? ==>
            var r, nodes := Run(pads, ops), ops[|ops| - 1].nodes;
            Attached(r, nodes) && Assigned(r) == Least(|r|, |nodes|)
    decreases |ops|
  {
    hide NoShare, Assigned, Attached, Do;
    if ops != [] {
      var op, rest := ops[0], ops[1..];
      DoKeeps(pads, op);
      RunIsSound(Do(pads, op), rest);
      if rest == [] && !op.Edit? {
        DoAssigns(pads, op);
        assert Run(Do(pads, op), []) == Do(pads, op);
      }
    }
  }

  lemma DoAssigns(pads: seq<Pad>, op: Op)
    requires NoShare(pads) && Allowed(op) && !op.Edit?
    ensures var r := Do(pads, op); Attached(r, op.nodes) && Assigned(r) == Least(|r|, |op.nodes|)
  {
    hide NoShare, Assigned, Attached, Assign;
    if op.Reload? {
      LoadUnassigned([], op.entries);
      AssignIsSound(Load([], op.entries), op.nodes);
    } else {
      AssignIsSound(pads, op.nodes);
    }
  }
}
