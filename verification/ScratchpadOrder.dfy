/** Which scratchpad gets which node, and which entries of a file get a scratchpad of their own. */
module ScratchpadOrder {
  import opened Words
  import opened Scratchpads

  // ----- one pass -----

  /** The nodes of the list that suit a pad, in order. */
  function Suitable(free: seq<NodeInfo>, rule: Criterion, p: Pad): seq<NodeInfo>
  {
    if free == [] then [] else (if Matches(rule, free[0], p) then [free[0]] else []) + Suitable(free[1..], rule, p)
  }

  /** The same nodes suit both pads. */
  predicate Rivals(rule: Criterion, p: Pad, q: Pad)
  {
    match rule
    case ByNodeId => false
    case ByAsebaId => p.asebaId == q.asebaId
    case ByName => p.name == q.name
  }

  /** How many pads before the n-th wait for the same nodes as p. */
  function Ahead(pads: seq<Pad>, rule: Criterion, p: Pad, n: nat): nat
    requires n <= |pads|
  {
    if n == 0 then 0
    else Ahead(pads, rule, p, n - 1) + if pads[n - 1].node == 0 && Rivals(rule, pads[n - 1], p) then 1 else 0
  }

  lemma {:induction false} AheadAfter(pads: seq<Pad>, rule: Criterion, p: Pad, n: nat, k: nat, id: NodeId)
    requires n <= |pads| && k < |pads| && id != 0 && pads[k].node == 0
    ensures Ahead(pads, rule, p, n) ==
            Ahead(Give(pads, k, id), rule, p, n) + if k < n && Rivals(rule, pads[k], p) then 1 else 0
    decreases n
  {
    if n > 0 {
      AheadAfter(pads, rule, p, n - 1, k, id);
    }
  }

  lemma {:induction false} NoneAhead(pads: seq<Pad>, rule: Criterion, p: Pad, n: nat)
    requires n <= |pads| && forall j | 0 <= j < n :: !(pads[j].node == 0 && Rivals(rule, pads[j], p))
    ensures Ahead(pads, rule, p, n) == 0
    decreases n
  {
    if n > 0 {
      NoneAhead(pads, rule, p, n - 1);
    }
  }

  /** What a pass does to a pad. */
  predicate Given(pads: seq<Pad>, rule: Criterion, free: seq<NodeInfo>, i: nat, now: Pad)
    requires i < |pads|
  {
    var s, k := Suitable(free, rule, pads[i]), Ahead(pads, rule, pads[i], i);
    now == if pads[i].node == 0 && k < |s| then pads[i].(node := s[k].id) else pads[i]
  }

  /** A pass by Aseba identifier or name gives the nodes that suit a pad, in their order, to the pads
      that wait for them, in theirs. All other pads stay as they are. */
  lemma {:induction false} PassExact(pads: seq<Pad>, rule: Criterion, free: seq<NodeInfo>, i: nat)
    requires rule != ByNodeId && (forall n | n in free :: n.id != 0) && i < |pads|
    ensures Given(pads, rule, free, i, Pass(pads, rule, free)[i])
    decreases |free|
  {
    if free != [] {
      hide Given, Matches;
      var m, rest := free[0], free[1..];
      var k := FirstMatch(pads, rule, m);
      var next := if k < |pads| then Give(pads, k, m.id) else pads;
      PassExact(next, rule, rest, i);
      GivenStep(pads, rule, free, i, Pass(next, rule, rest)[i]);
    }
  }

  /** The first node goes to the first pad that waits for it. */
  lemma GivenStep(pads: seq<Pad>, rule: Criterion, free: seq<NodeInfo>, i: nat, now: Pad)
    requires rule != ByNodeId && free != [] && free[0].id != 0 && i < |pads|
    requires var k := FirstMatch(pads, rule, free[0]);
             Given(if k < |pads| then Give(pads, k, free[0].id) else pads, rule, free[1..], i, now)
    ensures Given(pads, rule, free, i, now)
  {
    hide Matches, Rivals, Suitable, FirstMatch;
    var m, p, k := free[0], pads[i], FirstMatch(pads, rule, free[0]);
    SuitableRest(free, rule, p);
    if k < |pads| {
      SameNodes(rule, m, pads[k], p);
      AheadAfter(pads, rule, p, i, k, m.id);
      if k == i {
        forall j | 0 <= j < i && pads[j].node == 0
          ensures !Rivals(rule, pads[j], p)
        {
          SameNodes(rule, m, pads[j], p);
        }
        NoneAhead(pads, rule, p, i);
      }
    }
  }

  /** Rivals wait for the same nodes, and only they do. */
  lemma SameNodes(rule: Criterion, n: NodeInfo, p: Pad, q: Pad)
    requires rule != ByNodeId
    ensures Rivals(rule, p, q) ==> (Matches(rule, n, p) <==> Matches(rule, n, q))
    ensures Matches(rule, n, p) && Matches(rule, n, q) ==> Rivals(rule, p, q)
  {
  }

  lemma SuitableRest(free: seq<NodeInfo>, rule: Criterion, p: Pad)
    requires free != []
    ensures Suitable(free, rule, p) ==
            if Matches(rule, free[0], p) then [free[0]] + Suitable(free[1..], rule, p)
            else Suitable(free[1..], rule, p)
  {
  }

  // ----- the pads that are left -----

  /** How many of the first n pads have no node. */
  function Empties(pads: seq<Pad>, n: nat): nat
    requires n <= |pads|
  {
    if n == 0 then 0 else Empties(pads, n - 1) + if pads[n - 1].node == 0 then 1 else 0
  }

  lemma {:induction false} EmptiesAfter(pads: seq<Pad>, n: nat, k: nat, id: NodeId)
    requires n <= |pads| && k < |pads| && id != 0 && pads[k].node == 0
    ensures Empties(pads, n) == Empties(Give(pads, k, id), n) + if k < n then 1 else 0
    decreases n
  {
    if n > 0 {
      EmptiesAfter(pads, n - 1, k, id);
    }
  }

  lemma {:induction false} FreeAfter(pads: seq<Pad>, k: nat, nodes: seq<NodeInfo>)
    requires k < |pads| && pads[k].node == 0 && Connected(nodes) && Free(pads, nodes) != []
    ensures Free(Give(pads, k, Free(pads, nodes)[0].id), nodes) == Free(pads, nodes)[1..]
    decreases |nodes|
  {
    var id := Free(pads, nodes)[0].id;
    assert Free(pads, nodes)[0] in Free(pads, nodes);
    GiveUsed(pads, k, id, nodes[0].id);
    if nodes[0].id in Used(pads) {
      FreeAfter(pads, k, nodes[1..]);
    } else {
      OthersFree(pads, k, id, nodes[1..]);
    }
  }

  lemma {:induction false} OthersFree(pads: seq<Pad>, k: nat, id: NodeId, nodes: seq<NodeInfo>)
    requires k < |pads| && pads[k].node == 0 && id != 0 && forall n | n in nodes :: n.id != id
    ensures Free(Give(pads, k, id), nodes) == Free(pads, nodes)
    decreases |nodes|
  {
    if nodes != [] {
      GiveUsed(pads, k, id, nodes[0].id);
      OthersFree(pads, k, id, nodes[1..]);
    }
  }

  /** The pads that are left get the nodes that are left, both in their order. */
  lemma {:induction false} FillExact(pads: seq<Pad>, from: nat, nodes: seq<NodeInfo>, i: nat)
    requires from <= i < |pads| && Connected(nodes)
    ensures var free, k := Free(pads, nodes), Empties(pads, i) - Empties(pads, from);
            Fill(pads, from, nodes)[i] ==
            if pads[i].node == 0 && 0 <= k < |free| then pads[i].(node := free[k].id) else pads[i]
    ensures Empties(pads, i) >= Empties(pads, from)
    decreases |pads| - from
  {
    hide Connected, Used, Free;
    if from < i {
      if pads[from].node != 0 {
        FillExact(pads, from + 1, nodes, i);
      } else {
        EmptiesGrow(pads, from, i);
        var free := Free(pads, nodes);
        if free != [] {
          FreeGiven(pads, nodes);
          var next := Give(pads, from, free[0].id);
          FreeAfter(pads, from, nodes);
          EmptiesAfter(pads, i, from, free[0].id);
          EmptiesAfter(pads, from + 1, from, free[0].id);
          FillExact(next, from + 1, nodes, i);
        }
      }
    } else if pads[i].node == 0 && Free(pads, nodes) != [] {
      FreeGiven(pads, nodes);
      FillStays(Give(pads, i, Free(pads, nodes)[0].id), i + 1, nodes, i);
    } else if pads[i].node != 0 {
      FillStays(pads, i + 1, nodes, i);
    }
  }

  lemma FreeGiven(pads: seq<Pad>, nodes: seq<NodeInfo>)
    requires Connected(nodes) && Free(pads, nodes) != []
    ensures Free(pads, nodes)[0].id != 0
  {
    assert Free(pads, nodes)[0] in Free(pads, nodes);
  }

  lemma {:induction false} EmptiesGrow(pads: seq<Pad>, from: nat, i: nat)
    requires from <= i <= |pads|
    ensures Empties(pads, from) <= Empties(pads, i)
    decreases i
  {
    if from < i {
      EmptiesGrow(pads, from, i - 1);
    }
  }

  lemma {:induction false} FillStays(pads: seq<Pad>, from: nat, nodes: seq<NodeInfo>, i: nat)
    requires i < from <= |pads|
    ensures Fill(pads, from, nodes)[i] == pads[i]
    decreases |pads| - from
  {
    if from < |pads| {
      if pads[from].node != 0 {
        FillStays(pads, from + 1, nodes, i);
      } else {
        var free := Free(pads, nodes);
        if free != [] {
          FillStays(Give(pads, from, free[0].id), from + 1, nodes, i);
        }
      }
    }
  }

  // ----- the right node comes first -----

  /** Pad j has node n because it had it already, or because they suit each other. */
  predicate Has(pads: seq<Pad>, r: seq<Pad>, j: nat, n: NodeInfo, rules: set<Criterion>) {
    && j < |pads| == |r| && r[j].node == n.id
    && (pads[j].node == n.id || exists rule | rule in rules :: Matches(rule, n, pads[j]))
  }

  ghost predicate Taken(pads: seq<Pad>, r: seq<Pad>, n: NodeInfo, rules: set<Criterion>) {
    exists j: nat :: Has(pads, r, j, n, rules)
  }

  /** The pad got a node that suits it. */
  predicate Suited(nodes: seq<NodeInfo>, rules: set<Criterion>, p: Pad) {
    exists m | m in nodes :: m.id == p.node && exists rule | rule in rules :: Matches(rule, m, p)
  }

  /** After a pass, a pad still without a node has no suiting node left over. */
  lemma StageTakes(pads: seq<Pad>, rule: Criterion, nodes: seq<NodeInfo>, n: NodeInfo, i: nat)
    requires NoShare(pads) && Connected(nodes) && Attached(pads, nodes) && rule != ByNodeId
    requires n in nodes && i < |pads| && Matches(rule, n, pads[i]) && Matched(pads, rule, nodes)[i].node == 0
    ensures Taken(pads, Matched(pads, rule, nodes), n, {rule})
  {
    hide NoShare, Used, Connected, Attached;
    var free, r := Free(pads, nodes), Matched(pads, rule, nodes);
    FreeAvailable(pads, nodes);
    MatchedKeeps(pads, rule, nodes);
    if n !in free {
      var j := UserOf(pads, n.id);
      assert r[j].node == n.id;
      assert Has(pads, r, j, n, {rule});
    } else {
      if n.id !in Used(r) {
        PassIsMaximal(pads, rule, free, n, i);
      }
      var j := UserOf(r, n.id);
      if pads[j].node != n.id {
        var m :| m in free && m.id == r[j].node && Matches(rule, m, pads[j]);
        SameNode(nodes, m, n);
      }
      assert Has(pads, r, j, n, {rule});
    }
  }

  lemma UserOf(pads: seq<Pad>, id: NodeId) returns (j: nat)
    requires id in Used(pads)
    ensures j < |pads| && pads[j].node == id && id != 0
  {
    j :| j < |pads| && pads[j].node == id;
  }

  lemma SameNode(nodes: seq<NodeInfo>, m: NodeInfo, n: NodeInfo)
    requires Connected(nodes) && m in nodes && n in nodes && m.id == n.id
    ensures m == n
  {
    var i :| 0 <= i < |nodes| && nodes[i] == m;
    var j :| 0 <= j < |nodes| && nodes[j] == n;
  }

  /** The stages of an assignment. */
  ghost predicate Stages(pads: seq<Pad>, nodes: seq<NodeInfo>, d: seq<Pad>, byId: seq<Pad>, byName: seq<Pad>)
  {
    && d == Drop(pads, nodes) && byId == Matched(d, ByAsebaId, nodes) && byName == Matched(byId, ByName, nodes)
    && Passed(d, byId, ByAsebaId, Free(d, nodes)) && Attached(byId, nodes)
    && Passed(byId, byName, ByName, Free(byId, nodes)) && Attached(byName, nodes)
    && Extends(byName, Assign(pads, nodes)) && NoShare(d) && Attached(d, nodes)
  }

  lemma AssignStages(pads: seq<Pad>, nodes: seq<NodeInfo>)
    requires NoShare(pads) && Connected(nodes)
    ensures var d := Drop(pads, nodes);
            var byId := Matched(d, ByAsebaId, nodes);
            Stages(pads, nodes, d, byId, Matched(byId, ByName, nodes))
  {
    hide NoShare, Used, Fill, Pass, Ids;
    DropKeeps(pads, nodes);
    var d := Drop(pads, nodes);
    FreeAvailable(d, nodes);
    FirstPassIsIdle(d, Free(d, nodes));
    MatchedKeeps(d, ByAsebaId, nodes);
    var byId := Matched(d, ByAsebaId, nodes);
    MatchedKeeps(byId, ByName, nodes);
    FillKeeps(Matched(byId, ByName, nodes), 0, nodes);
  }

  /** A pad that loses its node, or had none, gets a node with its Aseba identifier, unless each such
      node stays with its pad or goes to another pad with this identifier. So a robot of the same name
      never takes the place of the right one. */
  lemma IdComesFirst(pads: seq<Pad>, nodes: seq<NodeInfo>, i: nat, n: NodeInfo)
    requires NoShare(pads) && Connected(nodes) && i < |pads| && pads[i].node !in Ids(nodes)
    requires n in nodes && pads[i].asebaId == n.nativeId
    ensures var r := Assign(pads, nodes);
            Suited(nodes, {ByAsebaId}, r[i]) || Taken(pads, r, n, {ByAsebaId})
  {
    hide NoShare, Used, Connected, Assign, Matched, Taken, Attached;
    AssignStages(pads, nodes);
    var d, r := Drop(pads, nodes), Assign(pads, nodes);
    var byId := Matched(d, ByAsebaId, nodes);
    var byName := Matched(byId, ByName, nodes);
    if byId[i].node != 0 {
      var m :| m in Free(d, nodes) && m.id == byId[i].node && Matches(ByAsebaId, m, d[i]);
      assert r[i].node == m.id && Matches(ByAsebaId, m, r[i]);
    } else {
      StageTakes(d, ByAsebaId, nodes, n, i);
      NodeIsNamed(nodes, n);
      TakenLater(pads, d, byId, r, n, {ByAsebaId}, nodes);
    }
  }

  lemma TakenLater(
      pads: seq<Pad>, d: seq<Pad>, now: seq<Pad>, r: seq<Pad>, n: NodeInfo, rules: set<Criterion>, nodes: seq<NodeInfo>)
    requires d == Drop(pads, nodes) && Extends(now, r) && n in nodes && n.id != 0 && Taken(d, now, n, rules)
    ensures Taken(pads, r, n, rules)
  {
    var j: nat :| Has(d, now, j, n, rules);
    assert Has(pads, r, j, n, rules);
  }

  /** The same for names, among the pads and nodes that are left then. */
  lemma NameComesSecond(pads: seq<Pad>, nodes: seq<NodeInfo>, i: nat, n: NodeInfo)
    requires NoShare(pads) && Connected(nodes) && i < |pads| && pads[i].node !in Ids(nodes)
    requires n in nodes && pads[i].name == n.name
    ensures var r := Assign(pads, nodes);
            Suited(nodes, {ByAsebaId, ByName}, r[i]) || Taken(pads, r, n, {ByAsebaId, ByName})
  {
    hide NoShare, Used, Connected, Assign, Matched, Taken, Attached;
    AssignStages(pads, nodes);
    var d, r := Drop(pads, nodes), Assign(pads, nodes);
    var byId := Matched(d, ByAsebaId, nodes);
    var byName := Matched(byId, ByName, nodes);
    if byId[i].node != 0 {
      var m :| m in Free(d, nodes) && m.id == byId[i].node && Matches(ByAsebaId, m, d[i]);
      assert r[i].node == m.id && Matches(ByAsebaId, m, r[i]);
    } else if byName[i].node != 0 {
      var m :| m in Free(byId, nodes) && m.id == byName[i].node && Matches(ByName, m, byId[i]);
      assert r[i].node == m.id && Matches(ByName, m, r[i]);
    } else {
      StageTakes(byId, ByName, nodes, n, i);
      BothStages(pads, d, byId, byName, r, n, nodes);
    }
  }

  lemma BothStages(
      pads: seq<Pad>, d: seq<Pad>, byId: seq<Pad>, byName: seq<Pad>, r: seq<Pad>, n: NodeInfo, nodes: seq<NodeInfo>)
    requires d == Drop(pads, nodes) && Passed(d, byId, ByAsebaId, Free(d, nodes)) && Extends(byId, byName)
    requires Extends(byName, r) && Connected(nodes) && n in nodes && Taken(byId, byName, n, {ByName})
    ensures Taken(pads, r, n, {ByAsebaId, ByName})
  {
    hide NoShare, Used;
    var j: nat :| Has(byId, byName, j, n, {ByName});
    NodeIsNamed(nodes, n);
    if byId[j].node == n.id && d[j].node != n.id {
      var m :| m in Free(d, nodes) && m.id == byId[j].node && Matches(ByAsebaId, m, d[j]);
      SameNode(nodes, m, n);
      assert Matches(ByAsebaId, n, pads[j]);
    } else if byId[j].node != n.id {
      assert Matches(ByName, n, pads[j]);
    }
    assert Has(pads, r, j, n, {ByAsebaId, ByName});
  }

  lemma NodeIsNamed(nodes: seq<NodeInfo>, n: NodeInfo)
    requires Connected(nodes) && n in nodes
    ensures n.id != 0
  {
  }

  // ----- loading -----

  /** The pad an entry gets when none suits it. */
  function PadOf(e: Entry): Pad { CreatedFor(e).(text := e.text) }

  function PadsOf(entries: seq<Entry>): (r: seq<Pad>)
    ensures |r| == |entries| && forall i | 0 <= i < |r| :: r[i] == PadOf(entries[i])
  {
    if entries == [] then [] else [PadOf(entries[0])] + PadsOf(entries[1..])
  }

  /** The names differ, the second entry does not give the Aseba identifier of the first, 65535 if
      there is none, and the identifiers of their nodes differ, nil if there is none. */
  predicate Apart(e: Entry, f: Entry)
  {
    && e.name != f.name
    && (f.asebaId.Some? ==> f.asebaId.value != if e.asebaId.Some? then e.asebaId.value else 65535)
    && (f.preferred.Some? ==> f.preferred.value != 0)
    && (e.preferred.Some? ==> e.preferred != f.preferred)
  }

  lemma ApartExact(e: Entry, f: Entry)
    ensures Suits(PadOf(e), f) <==> !Apart(e, f)
  {
  }

  /** No entry is taken for an earlier one. */
  predicate Separate(entries: seq<Entry>) { forall i, j | 0 <= i < j < |entries| :: Apart(entries[i], entries[j]) }

  /** None of the pads suits any of the entries. */
  predicate NoneSuits(pads: seq<Pad>, entries: seq<Entry>) {
    forall p, e | p in pads && e in entries :: !Suits(p, e)
  }

  lemma {:induction false} LoadSize(pads: seq<Pad>, entries: seq<Entry>)
    ensures |Load(pads, entries)| <= |pads| + |entries|
    decreases |entries|
  {
    if entries != [] {
      var k := FirstSuiting(pads, entries[0]);
      var grown := if k < |pads| then pads else pads + [CreatedFor(entries[0])];
      LoadSize(grown[k := grown[k].(text := entries[0].text)], entries[1..]);
    }
  }

  lemma {:induction false} LoadFrom(pads: seq<Pad>, entries: seq<Entry>)
    ensures |Load(pads, entries)| == |pads| + |entries| <==> NoneSuits(pads, entries) && Separate(entries)
    ensures NoneSuits(pads, entries) && Separate(entries) ==> Load(pads, entries) == pads + PadsOf(entries)
    decreases |entries|
  {
    hide Suits, CreatedFor, PadOf, NoneSuits, Separate, Load;
    if entries == [] {
      LoadNothing(pads);
    } else {
      var e, rest := entries[0], entries[1..];
      if FirstSuiting(pads, e) < |pads| {
        LoadShared(pads, entries);
      } else {
        LoadNew(pads, entries);
        var next := pads + [PadOf(e)];
        LoadFrom(next, rest);
        SeparateFirst(pads, entries);
        assert next + PadsOf(rest) == pads + ([PadOf(e)] + PadsOf(rest));
      }
    }
  }

  lemma LoadNothing(pads: seq<Pad>)
    ensures Load(pads, []) == pads == pads + PadsOf([]) && NoneSuits(pads, []) && Separate([])
  {
  }

  lemma LoadShared(pads: seq<Pad>, entries: seq<Entry>)
    requires entries != [] && FirstSuiting(pads, entries[0]) < |pads|
    ensures |Load(pads, entries)| < |pads| + |entries| && !NoneSuits(pads, entries)
  {
    hide Suits;
    var e := entries[0];
    var k := FirstSuiting(pads, e);
    assert pads[k] in pads && Suits(pads[k], e) && e in entries;
    LoadSize(pads[k := pads[k].(text := e.text)], entries[1..]);
  }

  lemma LoadNew(pads: seq<Pad>, entries: seq<Entry>)
    requires entries != [] && FirstSuiting(pads, entries[0]) == |pads|
    ensures Load(pads, entries) == Load(pads + [PadOf(entries[0])], entries[1..])
  {
    hide Suits, CreatedFor;
    var e := entries[0];
    var grown := pads + [CreatedFor(e)];
    assert grown[|pads| := grown[|pads|].(text := e.text)] == pads + [PadOf(e)];
  }

  lemma SeparateFirst(pads: seq<Pad>, entries: seq<Entry>)
    requires entries != [] && FirstSuiting(pads, entries[0]) == |pads|
    ensures NoneSuits(pads, entries) && Separate(entries) <==>
            NoneSuits(pads + [PadOf(entries[0])], entries[1..]) && Separate(entries[1..])
  {
    hide Suits, PadOf, Apart;
    forall e, f
      ensures Suits(PadOf(e), f) <==> !Apart(e, f)
    {
      ApartExact(e, f);
    }
    var e, rest, next := entries[0], entries[1..], pads + [PadOf(entries[0])];
    assert forall p :: p in next <==> p in pads || p == PadOf(e);
    assert forall f :: f in entries <==> f == e || f in rest;
    if NoneSuits(next, rest) && Separate(rest) {
      assert PadOf(e) in next;
      forall i, j | 0 <= i < j < |entries|
        ensures Apart(entries[i], entries[j])
      {
        assert entries[j] == rest[j - 1] && rest[j - 1] in rest;
        assert i > 0 ==> entries[i] == rest[i - 1];
      }
    }
    if NoneSuits(pads, entries) && Separate(entries) {
      forall f | f in rest
        ensures !Suits(PadOf(e), f)
      {
        var j :| 0 <= j < |rest| && rest[j] == f;
        assert entries[j + 1] == f;
      }
      forall i, j | 0 <= i < j < |rest|
        ensures Apart(rest[i], rest[j])
      {
        assert entries[i + 1] == rest[i] && entries[j + 1] == rest[j];
      }
    }
  }

  /** Each entry of a file gets a scratchpad of its own, with its text, if and only if no entry is
      taken for an earlier one; otherwise there are fewer scratchpads than entries. */
  lemma LoadKeepsTextsExact(entries: seq<Entry>)
    ensures |Load([], entries)| == |entries| <==> Separate(entries)
    ensures Load([], entries) == PadsOf(entries) <==> Separate(entries)
  {
    hide Separate, Load;
    LoadFrom([], entries);
    assert [] + PadsOf(entries) == PadsOf(entries);
  }
}
