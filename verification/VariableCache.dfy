/** The copy of a node's variables that is kept up to date from pieces of its memory. */
module VariableCache {
  import opened Words

  datatype Var = Var(name: string, start: nat, size: nat, value: seq<int16>)
  {
    function End(): nat { start + size }
  }

  datatype Area = Area(start: nat, size: nat)

  const MAX_WORDS := 256

  // ----- the layout of the variables -----

  /** The variables fill memory from `start` on without gaps. */
  predicate Contiguous(vars: seq<Var>, start: nat)
  {
    vars == [] || (vars[0].start == start && Contiguous(vars[1..], vars[0].End()))
  }

  function Total(vars: seq<Var>): nat { if vars == [] then 0 else vars[0].size + Total(vars[1..]) }

  lemma {:induction false} ContiguousAt(vars: seq<Var>, start: nat, i: nat)
    requires Contiguous(vars, start) && i < |vars|
    ensures start <= vars[i].start && vars[i].End() <= start + Total(vars)
    ensures i + 1 < |vars| ==> vars[i + 1].start == vars[i].End()
    ensures i + 1 == |vars| ==> vars[i].End() == start + Total(vars)
    decreases i
  {
    if i == 0 {
      if |vars| > 1 {
        assert vars[1..][0] == vars[1];
      }
    } else {
      ContiguousAt(vars[1..], vars[0].End(), i - 1);
    }
  }

  lemma {:induction false} ContiguousApart(vars: seq<Var>, start: nat, i: nat, j: nat)
    requires Contiguous(vars, start) && i < j < |vars|
    ensures vars[i].End() <= vars[j].start
    decreases i
  {
    if i == 0 {
      ContiguousAt(vars[1..], vars[0].End(), j - 1);
    } else {
      ContiguousApart(vars[1..], vars[0].End(), i - 1, j - 1);
    }
  }

  /** Every word below the end of memory belongs to a variable. */
  lemma {:induction false} ContiguousCovers(vars: seq<Var>, start: nat, addr: nat)
    requires Contiguous(vars, start) && start <= addr < start + Total(vars)
    ensures exists i | 0 <= i < |vars| :: vars[i].start <= addr < vars[i].End()
    decreases |vars|
  {
    if addr < vars[0].End() {
      assert vars[0].start <= addr < vars[0].End();
    } else {
      ContiguousCovers(vars[1..], vars[0].End(), addr);
      var i :| 0 <= i < |vars[1..]| && vars[1..][i].start <= addr < vars[1..][i].End();
      assert vars[i + 1].start <= addr < vars[i + 1].End();
    }
  }

  // ----- which areas to ask for -----

  /** The pieces still to ask for, with `size` words from `start` on collected already. */
  function Requests(vars: seq<Var>, start: nat, size: nat): seq<Area>
  {
    if vars == [] then (if size > 0 then [Area(start, size)] else [])
    else if size + vars[0].size > MAX_WORDS then [Area(start, size)] + Requests(vars[1..], start + size, vars[0].size)
    else Requests(vars[1..], start, size + vars[0].size)
  }

  /** The pieces as they are sent, with sixteen-bit starts. */
  function Sent(areas: seq<Area>): (r: seq<Area>)
    ensures |r| == |areas| && forall i | 0 <= i < |areas| :: r[i] == Area(areas[i].start % 65536, areas[i].size)
  {
    if areas == [] then [] else [Area(areas[0].start % 65536, areas[0].size)] + Sent(areas[1..])
  }

  /** The loop, with its sixteen-bit positions. */
  method RequestVariables(vars: seq<Var>) returns (areas: seq<Area>)
    requires forall v | v in vars :: v.size < 65536
    ensures areas == Sent(Requests(vars, 0, 0))
  {
    hide Sent, Requests;
    var start, size, i := 0, 0, 0;
    ghost var position := 0;
    areas := [];
    assert vars[0..] == vars;
    assert areas + Sent(Requests(vars, 0, 0)) == Sent(Requests(vars, 0, 0));
    while i < |vars|
      invariant 0 <= i <= |vars| && start == position % 65536 && 0 <= position && 0 <= size < 65536
      invariant Sent(Requests(vars, 0, 0)) == areas + Sent(Requests(vars[i..], position, size))
    {
      RequestsStep(vars, i, position, size);
      assert vars[i] in vars;
      if size + vars[i].size > MAX_WORDS {
        SentFirst(areas, Area(position, size), Requests(vars[i + 1..], position + size, vars[i].size));
        areas := areas + [Area(start, size)];
        WrapStart(position, size);
        position := position + size;
        start, size := (start + size) % 65536, 0;
      }
      size := (size + vars[i].size) % 65536;
      i := i + 1;
    }
    assert vars[i..] == [];
    RequestsEnd(position, size);
    if size > 0 {
      SentFirst(areas, Area(position, size), []);
      areas := areas + [Area(start, size)];
    }
    assert areas + [] == areas;
  }

  lemma WrapStart(position: nat, size: nat)
    ensures (position % 65536 + size) % 65536 == (position + size) % 65536
  {
  }

  lemma RequestsStep(vars: seq<Var>, i: nat, start: nat, size: nat)
    requires i < |vars|
    ensures Requests(vars[i..], start, size) ==
            if size + vars[i].size > MAX_WORDS
            then [Area(start, size)] + Requests(vars[i + 1..], start + size, vars[i].size)
            else Requests(vars[i + 1..], start, size + vars[i].size)
  {
    assert vars[i..][0] == vars[i] && vars[i..][1..] == vars[i + 1..];
  }

  lemma RequestsEnd(start: nat, size: nat)
    ensures Requests([], start, size) == if size > 0 then [Area(start, size)] + [] else []
    ensures Sent([]) == []
  {
    assert [Area(start, size)] + [] == [Area(start, size)];
  }

  lemma SentFirst(done: seq<Area>, a: Area, rest: seq<Area>)
    ensures done + Sent([a] + rest) == (done + [Area(a.start % 65536, a.size)]) + Sent(rest)
  {
    assert ([a] + rest)[1..] == rest;
  }

  /** In a memory of sixteen-bit addresses nothing is cut off. */
  lemma SentWhole(vars: seq<Var>)
    requires Total(vars) < 65536
    ensures Sent(Requests(vars, 0, 0)) == Requests(vars, 0, 0)
  {
    var areas := Requests(vars, 0, 0);
    RequestsTile(vars, 0, 0);
    forall i | 0 <= i < |areas|
      ensures areas[i].start % 65536 == areas[i].start
    {
      TilingWithin(areas, 0, Total(vars), areas[i]);
    }
  }

  /** Pieces one after the other, from `start` to `end`. */
  predicate Tiling(areas: seq<Area>, start: nat, end: nat)
  {
    if areas == [] then start == end
    else areas[0].start == start && Tiling(areas[1..], start + areas[0].size, end)
  }

  /** The pieces tile memory, whatever the sizes. */
  lemma {:induction false} RequestsTile(vars: seq<Var>, start: nat, size: nat)
    ensures Tiling(Requests(vars, start, size), start, start + size + Total(vars))
    decreases |vars|
  {
    if vars != [] {
      if size + vars[0].size > MAX_WORDS {
        var rest := Requests(vars[1..], start + size, vars[0].size);
        RequestsTile(vars[1..], start + size, vars[0].size);
        assert ([Area(start, size)] + rest)[1..] == rest;
      } else {
        RequestsTile(vars[1..], start, size + vars[0].size);
      }
    }
  }

  /** A piece is at most 256 words, for all pieces exactly when this holds for all variables. */
  lemma {:induction false} RequestsFit(vars: seq<Var>, start: nat, size: nat)
    requires size <= MAX_WORDS
    ensures (forall a | a in Requests(vars, start, size) :: a.size <= MAX_WORDS) <==>
            forall v | v in vars :: v.size <= MAX_WORDS
    decreases |vars|
  {
    if vars != [] {
      if vars[0].size > MAX_WORDS {
        var rest := Requests(vars[1..], start + size, vars[0].size);
        OversizedPiece(vars[1..], start + size, vars[0].size);
        var a :| a in rest && a.size > MAX_WORDS;
        assert a in Requests(vars, start, size);
      } else if size + vars[0].size > MAX_WORDS {
        RequestsFit(vars[1..], start + size, vars[0].size);
      } else {
        RequestsFit(vars[1..], start, size + vars[0].size);
      }
    }
  }

  lemma OversizedPiece(vars: seq<Var>, start: nat, size: nat)
    requires size > MAX_WORDS
    ensures exists a | a in Requests(vars, start, size) :: a.size > MAX_WORDS
  {
    assert Area(start, size) in Requests(vars, start, size);
  }

  predicate Inside(v: Var, a: Area) { a.start <= v.start && v.End() <= a.start + a.size }

  predicate Outside(v: Var, a: Area) { v.End() <= a.start || a.start + a.size <= v.start }

  /** Pieces are cut at variable boundaries: a variable is inside a piece or outside of it. */
  lemma {:induction false} RequestsAtBoundaries(vars: seq<Var>, start: nat, size: nat, a: Area, v: Var)
    requires Contiguous(vars, start + size) && a in Requests(vars, start, size) && v in vars
    ensures Inside(v, a) || Outside(v, a)
    ensures a.start >= start
    decreases |vars|
  {
    ContiguousBelow(vars, start + size, v);
    if a == Area(start, size) && size + vars[0].size > MAX_WORDS {
    } else if size + vars[0].size > MAX_WORDS {
      PieceAfter(vars[1..], start + size, vars[0].size, a);
      if v in vars[1..] {
        RequestsAtBoundaries(vars[1..], start + size, vars[0].size, a, v);
      }
    } else {
      PieceAfter(vars[1..], start, size + vars[0].size, a);
      if v in vars[1..] {
        RequestsAtBoundaries(vars[1..], start, size + vars[0].size, a, v);
      }
    }
  }

  /** No piece is cut short without need: the variable the next piece starts with does not fit. */
  lemma {:induction false} RequestsAreFull(vars: seq<Var>, start: nat, size: nat, i: nat)
    requires Contiguous(vars, start + size) && i + 1 < |Requests(vars, start, size)|
    ensures var areas := Requests(vars, start, size);
            exists v | v in vars :: v.start == areas[i + 1].start && areas[i].size + v.size > 256
    decreases |vars|
  {
    if size + vars[0].size > 256 {
      var rest := Requests(vars[1..], start + size, vars[0].size);
      if i == 0 {
        FirstPiece(vars[1..], start + size, vars[0].size);
        assert vars[0] in vars && vars[0].start == rest[0].start;
      } else {
        RequestsAreFull(vars[1..], start + size, vars[0].size, i - 1);
        var v :| v in vars[1..] && v.start == rest[i].start && rest[i - 1].size + v.size > 256;
        assert v in vars;
      }
    } else {
      RequestsAreFull(vars[1..], start, size + vars[0].size, i);
    }
  }

  lemma {:induction false} FirstPiece(vars: seq<Var>, start: nat, size: nat)
    ensures Requests(vars, start, size) != [] ==> Requests(vars, start, size)[0].start == start
    decreases |vars|
  {
    if vars != [] && size + vars[0].size <= 256 {
      FirstPiece(vars[1..], start, size + vars[0].size);
    }
  }

  lemma ContiguousBelow(vars: seq<Var>, start: nat, v: Var)
    requires Contiguous(vars, start) && v in vars
    ensures start <= v.start && v.End() <= start + Total(vars)
  {
    var i :| 0 <= i < |vars| && vars[i] == v;
    ContiguousAt(vars, start, i);
  }

  /** Words already collected are all in the first piece. */
  lemma {:induction false} PieceAfter(vars: seq<Var>, start: nat, size: nat, a: Area)
    requires a in Requests(vars, start, size)
    ensures (a.start == start && a.size >= size) || a.start >= start + size
    decreases |vars|
  {
    if vars != [] {
      if size + vars[0].size > MAX_WORDS {
        if a != Area(start, size) {
          PieceAfter(vars[1..], start + size, vars[0].size, a);
        }
      } else {
        PieceAfter(vars[1..], start, size + vars[0].size, a);
      }
    }
  }

  // ----- applying a piece of memory -----

  function Resized(value: seq<int16>, size: nat): (r: seq<int16>)
    ensures |r| == size && forall i | 0 <= i < size :: r[i] == if i < |value| then value[i] else 0
  {
    if |value| >= size then value[..size] else value + seq(size - |value|, _ => 0 as int16)
  }

  predicate Touched(v: Var, start: nat, data: seq<int16>) {
    v.size > 0 && data != [] && v.start < start + |data| && start < v.End()
  }

  /** The variable with the words of the piece that belong to it. Words of a variable without a
      value that the piece does not cover become 0. */
  function Apply(v: Var, start: nat, data: seq<int16>): (r: Var)
    ensures r.name == v.name && r.start == v.start && r.size == v.size
  {
    if !Touched(v, start, data) then v
    else v.(value := seq(v.size, i requires 0 <= i < v.size =>
                           if start <= v.start + i < start + |data| then data[v.start + i - start]
                           else Resized(v.value, v.size)[i]))
  }

  function ApplyAll(vars: seq<Var>, start: nat, data: seq<int16>): (r: seq<Var>)
    ensures |r| == |vars| && forall i | 0 <= i < |vars| :: r[i] == Apply(vars[i], start, data)
  {
    seq(|vars|, i requires 0 <= i < |vars| => Apply(vars[i], start, data))
  }

  /** The piece touches the variable and gives it another value, or its first one. */
  predicate Changes(v: Var, start: nat, data: seq<int16>) {
    Touched(v, start, data) && (|v.value| != v.size || Apply(v, start, data).value != v.value)
  }

  type Report = map<string, seq<int16>>

  /** The report lists exactly the changed variables with their new values, next to what it held. */
  ghost predicate Reports(vars: seq<Var>, start: nat, data: seq<int16>, before: Report, after: Report)
  {
    && (forall n | n in before :: n in after && after[n] == before[n])
    && (forall n | n in after && n !in before ::
          exists i | 0 <= i < |vars| :: vars[i].name == n && Changes(vars[i], start, data) &&
            after[n] == Apply(vars[i], start, data).value)
    && (forall i | 0 <= i < |vars| && Changes(vars[i], start, data) :: vars[i].name in after)
  }

  predicate Distinct(vars: seq<Var>) { forall i, j | 0 <= i < j < |vars| :: vars[i].name != vars[j].name }

  // ----- one variable at a time -----

  /** The value after copying `count` words of the piece into it. */
  function Copied(v: Var, offset: nat, part: seq<int16>): (r: seq<int16>)
    requires offset + |part| <= v.size
    ensures |r| == v.size
    ensures forall i | 0 <= i < v.size ::
              r[i] == if offset <= i < offset + |part| then part[i - offset] else Resized(v.value, v.size)[i]
  {
    var value := Resized(v.value, v.size);
    value[..offset] + part + value[offset + |part|..]
  }

  lemma CopyApplies(v: Var, start: nat, data: seq<int16>, pos: nat, count: nat)
    requires pos + count <= |data| && count > 0 && v.start <= start + pos && start + pos + count <= v.End()
    requires pos == 0 || start + pos == v.start
    ensures var c := Copied(v, start + pos - v.start, data[pos..pos + count]);
            Changes(v, start, data[..pos + count]) <==> |v.value| != v.size || c != v.value
    ensures Apply(v, start, data[..pos + count]).value == Copied(v, start + pos - v.start, data[pos..pos + count])
  {
    var a, b := Apply(v, start, data[..pos + count]).value, Copied(v, start + pos - v.start, data[pos..pos + count]);
    forall i | 0 <= i < v.size
      ensures a[i] == b[i]
    {
    }
  }

  /** Copying changes nothing exactly when the words are there already. */
  lemma CopySame(v: Var, offset: nat, part: seq<int16>)
    requires offset + |part| <= v.size == |v.value|
    ensures Copied(v, offset, part) == v.value <==> v.value[offset..offset + |part|] == part
  {
    var c, w := Copied(v, offset, part), v.value[offset..offset + |part|];
    assert forall i | 0 <= i < |part| :: w[i] == v.value[offset + i] && c[offset + i] == part[i];
    if w == part {
      forall i | 0 <= i < v.size
        ensures c[i] == v.value[i]
      {
        if offset <= i < offset + |part| {
          assert w[i - offset] == v.value[i];
        }
      }
    }
  }

  /** More data that belongs to other variables changes nothing. */
  lemma ApplySame(v: Var, start: nat, data: seq<int16>, pos: nat, count: nat)
    requires pos + count <= |data|
    requires v.End() <= start + pos || start + pos + count <= v.start
    ensures Apply(v, start, data[..pos + count]) == Apply(v, start, data[..pos])
    ensures Changes(v, start, data[..pos + count]) == Changes(v, start, data[..pos])
  {
    var a, b := Apply(v, start, data[..pos + count]), Apply(v, start, data[..pos]);
    if Touched(v, start, data[..pos + count]) {
      assert a.value == b.value;
    }
  }

  /** The variables of a cache follow each other at sixteen-bit addresses, perhaps with gaps. */
  predicate Laid(vars: seq<Var>) {
    && Distinct(vars)
    && (forall i | 0 <= i < |vars| :: vars[i].End() < 65536)
    && forall i, j | 0 <= i < j < |vars| :: vars[i].End() <= vars[j].start
  }

  lemma ApplyLaid(vars: seq<Var>, start: nat, data: seq<int16>)
    requires Laid(vars)
    ensures Laid(ApplyAll(vars, start, data))
  {
    hide Apply;
  }

  /** Some variable holds the word. */
  predicate Held(vars: seq<Var>, at: nat) { exists i | 0 <= i < |vars| :: vars[i].start <= at < vars[i].End() }

  /** How many of n words from `start` on are used: up to the first one that no variable holds. */
  function Reach(vars: seq<Var>, start: nat, n: nat): (r: nat)
    ensures r <= n
    decreases n
  {
    if n == 0 || !Held(vars, start) then 0 else 1 + Reach(vars, start + 1, n - 1)
  }

  lemma {:induction false} ReachIs(vars: seq<Var>, start: nat, n: nat, pos: nat)
    requires pos <= n && (forall x | start <= x < start + pos :: Held(vars, x))
    requires pos < n ==> !Held(vars, start + pos)
    ensures Reach(vars, start, n) == pos
    decreases pos
  {
    hide Held;
    if pos > 0 {
      assert Held(vars, start);
      ReachIs(vars, start + 1, n - 1, pos - 1);
    }
  }

  /** Without gaps the words that are not used lie past the end of memory, so that nothing is lost. */
  lemma ContiguousReach(vars: seq<Var>, start: nat, data: seq<int16>, report: Report, changed: Report)
    requires Contiguous(vars, 0)
    requires Reports(vars, start, data[..Reach(vars, start, |data|)], report, changed)
    ensures ApplyAll(vars, start, data[..Reach(vars, start, |data|)]) == ApplyAll(vars, start, data)
    ensures Reports(vars, start, data, report, changed)
  {
    hide Reports, Reach, Apply, Changes;
    var r := Reach(vars, start, |data|);
    ReachStops(vars, start, |data|);
    if r < |data| {
      NotFound(vars, start + r);
      RestIsOutside(vars, start, data, r, report, changed);
    } else {
      assert data[..r] == data;
    }
  }

  lemma {:induction false} ReachStops(vars: seq<Var>, start: nat, n: nat)
    ensures Reach(vars, start, n) < n ==> !Held(vars, start + Reach(vars, start, n))
    decreases n
  {
    hide Held;
    if n > 0 && Held(vars, start) {
      ReachStops(vars, start + 1, n - 1);
    }
  }

  lemma NothingApplied(vars: seq<Var>, start: nat, data: seq<int16>, report: Report)
    ensures ApplyAll(vars, start, data[..0]) == vars && Reports(vars, start, data[..0], report, report)
  {
  }

  /** The loop is done with the variables before `it`, and between two variables once it started. */
  predicate Between(vars: seq<Var>, at: nat, started: bool, it: nat) {
    && it <= |vars|
    && (forall j | 0 <= j < it :: vars[j].End() <= at)
    && (started ==> forall j | 0 <= j < |vars| :: vars[j].End() <= at || at <= vars[j].start)
  }

  lemma NoneHolds(vars: seq<Var>, at: nat)
    requires forall j | 0 <= j < |vars| :: !(vars[j].start <= at < vars[j].End())
    ensures !Held(vars, at)
  {
  }

  lemma StillUntouched(vars: seq<Var>, start: nat, data: seq<int16>, pos: nat, it: nat)
    requires pos < |data| && it < |vars| && vars[it].start <= start + pos < vars[it].End()
    requires pos > 0 ==> vars[it].End() <= start + pos || start + pos <= vars[it].start
    ensures Apply(vars[it], start, data[..pos]) == vars[it] && !Changes(vars[it], start, data[..pos])
    ensures pos == 0 || start + pos == vars[it].start
  {
  }

  lemma BetweenStep(vars: seq<Var>, at: nat, it: nat)
    requires Laid(vars) && it < |vars| && vars[it].start <= at < vars[it].End()
    ensures Between(vars, vars[it].End(), true, it) && vars[it].End() < 65536
    ensures forall x | at <= x < vars[it].End() :: Held(vars, x)
  {
  }

  /** Without gaps, a word that no variable holds is past the end of memory. */
  lemma NotFound(vars: seq<Var>, at: nat)
    requires Contiguous(vars, 0) && !Held(vars, at)
    ensures forall j | 0 <= j < |vars| :: vars[j].End() <= at
  {
    if at < Total(vars) {
      ContiguousCovers(vars, 0, at);
    }
    forall j | 0 <= j < |vars|
      ensures vars[j].End() <= at
    {
      ContiguousAt(vars, 0, j);
    }
  }

  lemma RestIsOutside(vars: seq<Var>, start: nat, data: seq<int16>, pos: nat, report: Report, changed: Report)
    requires pos <= |data| && forall j | 0 <= j < |vars| :: vars[j].End() <= start + pos
    requires Reports(vars, start, data[..pos], report, changed)
    ensures ApplyAll(vars, start, data) == ApplyAll(vars, start, data[..pos])
    ensures Reports(vars, start, data, report, changed)
  {
    hide Apply, Changes;
    assert data[..pos + (|data| - pos)] == data;
    forall j | 0 <= j < |vars|
      ensures Apply(vars[j], start, data) == Apply(vars[j], start, data[..pos]) &&
              Changes(vars[j], start, data) == Changes(vars[j], start, data[..pos])
    {
      ApplySame(vars[j], start, data, pos, |data| - pos);
    }
  }

  /** The effect of one iteration on the variables and on the report. */
  lemma IterationApplies(
      vars: seq<Var>, start: nat, data: seq<int16>, pos: nat, count: nat, it: nat, report: Report, before: Report,
          after: Report)
    requires Laid(vars) && it < |vars| && pos + count <= |data| && count > 0
    requires vars[it].start <= start + pos && start + pos + count <= vars[it].End()
    requires Apply(vars[it], start, data[..pos]) == vars[it] && !Changes(vars[it], start, data[..pos])
    requires Reports(vars, start, data[..pos], report, before)
    requires after == if Changes(vars[it], start, data[..pos + count]) && vars[it].name !in before
                      then before[vars[it].name := Apply(vars[it], start, data[..pos + count]).value] else before
    ensures ApplyAll(vars, start, data[..pos + count]) ==
            ApplyAll(vars, start, data[..pos])[it := Apply(vars[it], start, data[..pos + count])]
    ensures Reports(vars, start, data[..pos + count], report, after)
  {
    hide Apply, Changes;
    forall j | 0 <= j < |vars| && j != it
      ensures Apply(vars[j], start, data[..pos + count]) == Apply(vars[j], start, data[..pos])
      ensures Changes(vars[j], start, data[..pos + count]) == Changes(vars[j], start, data[..pos])
    {
      ApplySame(vars[j], start, data, pos, count);
    }
    forall n | n in after && n !in report
      ensures exists i | 0 <= i < |vars| :: vars[i].name == n && Changes(vars[i], start, data[..pos + count])
                                           && after[n] == Apply(vars[i], start, data[..pos + count]).value
    {
      if n in before {
        var i :| 0 <= i < |vars| && vars[i].name == n && Changes(vars[i], start, data[..pos]) &&
            before[n] == Apply(vars[i], start, data[..pos]).value;
        assert i != it;
      } else {
        assert n == vars[it].name;
      }
    }
  }

  // ----- a new description -----

  predicate Ascending(vars: seq<Var>) { forall i, j | 0 <= i < j < |vars| :: vars[i].start < vars[j].start }

  function Names(vars: seq<Var>): set<string> { set v | v in vars :: v.name }

  /** The first variable that does not start before the address. */
  function LowerBound(vars: seq<Var>, start: nat): (k: nat)
    ensures k <= |vars| && (k < |vars| ==> vars[k].start >= start)
    ensures forall i | 0 <= i < k :: vars[i].start < start
    decreases |vars|
  {
    if vars == [] || vars[0].start >= start then 0 else 1 + LowerBound(vars[1..], start)
  }

  /** Some variable starts at the address. */
  predicate Starts(vars: seq<Var>, start: nat) { exists w | w in vars :: w.start == start }

  lemma StartsAt(vars: seq<Var>, k: nat)
    requires k < |vars|
    ensures Starts(vars, vars[k].start)
  {
    assert vars[k] in vars;
  }

  ghost function StartingAt(vars: seq<Var>, start: nat): (w: Var)
    requires Starts(vars, start)
    ensures w in vars && w.start == start
  {
    var w :| w in vars && w.start == start;
    w
  }

  /** By address, from the given variables only, with one at every given address. */
  predicate Rebuilt(entries: seq<Var>, vars: seq<Var>) {
    && Ascending(vars) && (forall v | v in vars :: v in entries)
    && forall v | v in entries :: Starts(vars, v.start)
  }

  /** Of several variables at one address it is the first. */
  predicate ComesFirst(entries: seq<Var>, v: Var) {
    exists i | 0 <= i < |entries| :: entries[i] == v && forall j | 0 <= j < i :: entries[j].start != v.start
  }

  lemma NewAddress(entries: seq<Var>, was: seq<Var>, i: nat, k: nat)
    requires i < |entries| && k <= |was| && Ascending(was)
    requires forall j | 0 <= j < k :: was[j].start < entries[i].start
    requires k < |was| ==> entries[i].start < was[k].start
    requires forall j | 0 <= j < i :: Starts(was, entries[j].start)
    ensures ComesFirst(entries, entries[i])
  {
    forall j | 0 <= j < i
      ensures entries[j].start != entries[i].start
    {
      assert Starts(was, entries[j].start);
      var w := StartingAt(was, entries[j].start);
      var n :| 0 <= n < |was| && was[n] == w;
    }
  }

  lemma NoVariables()
    ensures Ascending([]) && Names([]) == {}
  {
  }

  lemma Inserted(was: seq<Var>, v: Var, k: nat, now: seq<Var>)
    requires k <= |was| && now == was[..k] + [v] + was[k..]
    requires Ascending(was) && (forall i | 0 <= i < k :: was[i].start < v.start)
    requires k < |was| ==> v.start < was[k].start
    ensures Ascending(now) && Names(now) == Names(was) + {v.name}
    ensures Starts(now, v.start) && forall a | Starts(was, a) :: Starts(now, a)
    ensures forall w | w in now :: w in was || w == v
  {
    assert was == was[..k] + was[k..];
    assert forall w :: w in now <==> w in was || w == v;
  }

  /** The variables of a description: one after the other, none with a value yet. */
  function Layout(named: seq<(string, nat)>, start: nat): seq<Var>
  {
    if named == [] then [] else [Var(named[0].0, start, named[0].1, [])] + Layout(named[1..], start + named[0].1)
  }

  lemma {:induction false} LayoutContiguous(named: seq<(string, nat)>, start: nat)
    ensures Contiguous(Layout(named, start), start) && |Layout(named, start)| == |named|
    ensures forall i | 0 <= i < |named| ::
              Layout(named, start)[i].name == named[i].0 && Layout(named, start)[i].size == named[i].1
    decreases |named|
  {
    if named != [] {
      LayoutContiguous(named[1..], start + named[0].1);
    }
  }

  lemma {:induction false} LayoutAscending(named: seq<(string, nat)>)
    requires forall i | 0 <= i < |named| - 1 :: named[i].1 > 0
    ensures Ascending(Layout(named, 0))
  {
    var vars := Layout(named, 0);
    LayoutContiguous(named, 0);
    forall i, j | 0 <= i < j < |vars|
      ensures vars[i].start < vars[j].start
    {
      ContiguousApart(vars, 0, i, j);
    }
  }

  /** Two ascending sequences of the same variables are equal. */
  lemma {:induction false} AscendingUnique(a: seq<Var>, b: seq<Var>)
    requires Ascending(a) && Ascending(b) && forall v :: v in a <==> v in b
    ensures a == b
    decreases |a|
  {
    if b != [] {
      assert b[0] in b;
      assert b[0] in a;
    }
    if a != [] {
      assert a[0] in a && a[0] in b;
      var i :| 0 <= i < |b| && b[i] == a[0];
      var j :| 0 <= j < |a| && a[j] == b[0];
      assert a[0] == b[0];
      forall v
        ensures v in a[1..] <==> v in b[1..]
      {
        TailMember(a, v);
        TailMember(b, v);
      }
      AscendingUnique(a[1..], b[1..]);
    }
  }

  lemma TailMember(a: seq<Var>, v: Var)
    requires a != [] && Ascending(a)
    ensures v in a[1..] <==> v in a && v != a[0]
  {
    if v in a[1..] {
      var i :| 0 <= i < |a[1..]| && a[1..][i] == v;
      assert a[0].start < a[i + 1].start;
    }
  }

  lemma SameStart(vars: seq<Var>, v: Var, w: Var)
    requires Ascending(vars) && v in vars && w in vars && v.start == w.start
    ensures v == w
  {
    var i :| 0 <= i < |vars| && vars[i] == v;
    var j :| 0 <= j < |vars| && vars[j] == w;
  }

  /** Whatever the order in which they come, the variables of a description, none of them empty
      except perhaps the last, end up in the order of the description. */
  lemma {:induction false} ResetGivesLayout(named: seq<(string, nat)>, entries: seq<Var>, vars: seq<Var>)
    requires (forall i | 0 <= i < |named| - 1 :: named[i].1 > 0) && forall v :: v in entries <==> v in Layout(named, 0)
    requires Rebuilt(entries, vars)
    ensures vars == Layout(named, 0)
  {
    hide Layout, Ascending, Starts;
    var layout := Layout(named, 0);
    LayoutAscending(named);
    forall v
      ensures v in vars <==> v in layout
    {
      if v in layout {
        assert Starts(vars, v.start);
        var w := StartingAt(vars, v.start);
        SameStart(layout, v, w);
      }
    }
    AscendingUnique(vars, layout);
  }

  /** All variables of a description are kept if and only if none but the last is empty: an empty
      one and its neighbour share their address, and only one of them stays. */
  lemma {:induction false} ResetKeepsAllExact(named: seq<(string, nat)>, entries: seq<Var>, vars: seq<Var>)
    requires forall i, j | 0 <= i < j < |named| :: named[i].0 != named[j].0
    requires forall v :: v in entries <==> v in Layout(named, 0)
    requires Rebuilt(entries, vars)
    ensures (forall v | v in Layout(named, 0) :: v in vars) <==> forall i | 0 <= i < |named| - 1 :: named[i].1 > 0
  {
    hide Layout, Starts, Ascending, Contiguous;
    if forall i | 0 <= i < |named| - 1 :: named[i].1 > 0 {
      ResetGivesLayout(named, entries, vars);
    } else {
      var i :| 0 <= i < |named| - 1 && named[i].1 == 0;
      var layout := Layout(named, 0);
      LayoutContiguous(named, 0);
      ContiguousAt(layout, 0, i);
      if forall v | v in layout :: v in vars {
        assert layout[i] in layout && layout[i + 1] in layout;
        SameStart(vars, layout[i], layout[i + 1]);
      }
    }
  }

  /** Whatever was dropped, the variables of a description that are kept make a cache. */
  lemma {:induction false} ResetIsLaid(named: seq<(string, nat)>, entries: seq<Var>, vars: seq<Var>)
    requires forall i, j | 0 <= i < j < |named| :: named[i].0 != named[j].0
    requires (forall v :: v in entries <==> v in Layout(named, 0)) && Rebuilt(entries, vars)
    requires Total(Layout(named, 0)) < 65536
    ensures Laid(vars)
  {
    hide Layout, Starts, Contiguous, Total;
    var layout := Layout(named, 0);
    LayoutContiguous(named, 0);
    forall i | 0 <= i < |vars|
      ensures vars[i].End() < 65536
    {
      assert vars[i] in vars && vars[i] in entries;
      var a := PlaceOf(layout, vars[i]);
      ContiguousAt(layout, 0, a);
    }
    forall i, j | 0 <= i < j < |vars|
      ensures vars[i].End() <= vars[j].start && vars[i].name != vars[j].name
    {
      assert vars[i] in vars && vars[j] in vars && vars[i] in entries && vars[j] in entries;
      var a := PlaceOf(layout, vars[i]);
      var b := PlaceOf(layout, vars[j]);
      if b <= a {
        if b < a {
          ContiguousApart(layout, 0, b, a);
        }
      } else {
        ContiguousApart(layout, 0, a, b);
      }
    }
  }

  lemma PlaceOf(vars: seq<Var>, v: Var) returns (i: nat)
    requires v in vars
    ensures i < |vars| && vars[i] == v
  {
    i :| 0 <= i < |vars| && vars[i] == v;
  }

  class Cache {
    var variables: seq<Var>

    ghost predicate Valid()
      reads this
    {
      Laid(variables)
    }

    /** Take over the variables of a new description, in the order of their names, each at its place
        by address. Returns the names that disappear. */
    method ResetKnownVariables(entries: seq<Var>) returns (removed: set<string>)
      modifies this
      ensures Rebuilt(entries, variables) && forall v | v in variables :: ComesFirst(entries, v)
      ensures removed == Names(old(variables)) - Names(variables)
    {
      hide Ascending, Names, Starts, ComesFirst;
      removed := Names(variables);
      ghost var before := removed;
      variables := [];
      NoVariables();
      var i := 0;
      while i < |entries|
        invariant 0 <= i <= |entries| && Ascending(variables)
        invariant forall v | v in variables :: v in entries
        invariant forall j | 0 <= j < i :: Starts(variables, entries[j].start)
        invariant forall v | v in variables :: ComesFirst(entries, v)
        invariant removed == before - Names(variables)
      {
        var v := entries[i];
        var k := LowerBound(variables, v.start);
        if k == |variables| || variables[k].start != v.start {
          ghost var was := variables;
          variables := variables[..k] + [v] + variables[k..];
          removed := removed - {v.name};
          Inserted(was, v, k, variables);
          NewAddress(entries, was, i, k);
        } else {
          StartsAt(variables, k);
        }
        i := i + 1;
      }
    }

    /** The first variable from `it` on that holds the word, or the number of variables. */
    method FindFrom(it: nat, addr: nat) returns (k: nat)
      requires it <= |variables|
      ensures it <= k <= |variables|
      ensures forall j | it <= j < k :: !(variables[j].start <= addr < variables[j].End())
      ensures k < |variables| ==> variables[k].start <= addr < variables[k].End()
    {
      k := it;
      while k < |variables| && !(variables[k].start <= addr < variables[k].End())
        invariant it <= k <= |variables|
        invariant forall j | it <= j < k :: !(variables[j].start <= addr < variables[j].End())
      {
        k := k + 1;
      }
    }

    /** Copy a piece of memory into the variables it covers, up to the first word that belongs to
        none, and report which ones it changed. */
    method SetVariables(start: nat, data: seq<int16>, report: Report) returns (changed: Report)
      requires Valid() && start < 65536
      modifies this
      ensures var used := data[..Reach(old(variables), start, |data|)];
              && Valid() && variables == ApplyAll(old(variables), start, used)
              && Reports(old(variables), start, used, report, changed)
    {
      hide Laid, Apply, Changes, Reports, Copied, Held, Reach;
      ghost var was := variables;
      var at, pos, it := start, 0, 0;
      changed := report;
      NothingApplied(was, start, data, report);
      while pos < |data|
        invariant 0 <= pos <= |data| && it <= |variables|
        invariant variables == ApplyAll(was, start, data[..pos])
        invariant pos < |data| ==> at == start + pos < 65536 && Between(was, at, pos > 0, it)
        invariant Reports(was, start, data[..pos], report, changed)
        invariant forall x | start <= x < start + pos :: Held(was, x)
      {
        it := FindFrom(it, at);
        if it == |variables| {
          NoneHolds(was, at);
          break;
        }
        StillUntouched(was, start, data, pos, it);
        var v := variables[it];
        var offset := at - v.start;
        var count := if v.size - offset <= |data| - pos then v.size - offset else |data| - pos;
        ghost var before := changed;
        var value;
        value, changed := Refresh(v, offset, data[pos..pos + count], changed);
        CopyApplies(v, start, data, pos, count);
        IterationApplies(was, start, data, pos, count, it, report, before, changed);
        variables := variables[it := v.(value := value)];
        BetweenStep(was, at, it);
        pos := pos + count;
        at := (at + count) % 65536;
      }
      ReachIs(was, start, |data|, pos);
      ApplyLaid(was, start, data[..pos]);
    }
  }

  /** Copy words into one variable, and report it if that changes it or it had no value. */
  method Refresh(v: Var, offset: nat, part: seq<int16>, report: Report) returns (value: seq<int16>, changed: Report)
    requires offset + |part| <= v.size
    ensures value == Copied(v, offset, part)
    ensures changed ==
            if (|v.value| != v.size || value != v.value) && v.name !in report then report[v.name := value] else report
  {
    changed := report;
    var force := |v.value| != v.size;
    value := Resized(v.value, v.size);
    if !force {
      CopySame(v, offset, part);
      assert value == v.value;
    }
    if force || value[offset..offset + |part|] != part {
      value := value[..offset] + part + value[offset + |part|..];
      assert value == Copied(v, offset, part);
      if v.name !in changed {
        changed := changed[v.name := value];
      }
    } else {
      assert value == Copied(v, offset, part);
    }
  }

  // ----- the cache and the memory of the node -----

  predicate Synced(v: Var, mem: seq<int16>) {
    v.End() <= |mem| && v.value == mem[v.start..v.End()]
  }

  predicate Within(a: Area, mem: seq<int16>) { a.start + a.size <= |mem| }

  /** The cache after some replies, in the order they arrive. */
  function Replay(vars: seq<Var>, mem: seq<int16>, replies: seq<Area>): (r: seq<Var>)
    requires forall a | a in replies :: Within(a, mem)
    ensures |r| == |vars|
    decreases |replies|
  {
    if replies == [] then vars else
    var a := replies[0];
    assert a in replies && Within(a, mem);
    Replay(ApplyAll(vars, a.start, mem[a.start..a.start + a.size]), mem, replies[1..])
  }

  lemma ReplyInside(v: Var, a: Area, mem: seq<int16>)
    requires Within(a, mem) && v.size > 0 && Inside(v, a)
    ensures Synced(Apply(v, a.start, mem[a.start..a.start + a.size]), mem)
  {
    var r := Apply(v, a.start, mem[a.start..a.start + a.size]);
    assert r.value == mem[v.start..v.End()];
  }

  lemma ReplyOutside(v: Var, a: Area, mem: seq<int16>)
    requires Within(a, mem) && Outside(v, a)
    ensures Apply(v, a.start, mem[a.start..a.start + a.size]) == v
  {
  }

  /** Replies that respect the boundaries of a variable leave it in sync once one covers it. */
  lemma {:induction false} ReplaySyncs(vars: seq<Var>, mem: seq<int16>, replies: seq<Area>, i: nat)
    requires (forall a | a in replies :: Within(a, mem)) && i < |vars| && vars[i].size > 0
    requires forall a | a in replies :: Inside(vars[i], a) || Outside(vars[i], a)
    requires Synced(vars[i], mem) || exists a | a in replies :: Inside(vars[i], a)
    ensures Synced(Replay(vars, mem, replies)[i], mem)
    decreases |replies|
  {
    hide Apply, Synced;
    if replies != [] {
      var a := replies[0];
      assert a in replies;
      var next := ApplyAll(vars, a.start, mem[a.start..a.start + a.size]);
      assert next[i] == Apply(vars[i], a.start, mem[a.start..a.start + a.size]);
      if Inside(vars[i], a) {
        ReplyInside(vars[i], a, mem);
      } else {
        ReplyOutside(vars[i], a, mem);
        if b :| b in replies && Inside(vars[i], b) {
          assert b in replies[1..];
        }
      }
      assert forall b | b in replies[1..] :: b in replies;
      assert next[i].start == vars[i].start && next[i].size == vars[i].size;
      ReplaySyncs(next, mem, replies[1..], i);
    }
  }

  /** In a tiling every word lies in a piece. */
  lemma {:induction false} TilingCovers(areas: seq<Area>, start: nat, end: nat, addr: nat)
    requires Tiling(areas, start, end) && start <= addr < end
    ensures exists a | a in areas :: a.start <= addr < a.start + a.size
    decreases |areas|
  {
    if addr < start + areas[0].size {
      assert areas[0] in areas;
    } else {
      TilingCovers(areas[1..], start + areas[0].size, end, addr);
    }
  }

  lemma {:induction false} TilingWithin(areas: seq<Area>, start: nat, end: nat, a: Area)
    requires Tiling(areas, start, end) && a in areas
    ensures start <= a.start && a.start + a.size <= end
    decreases |areas|
  {
    TilingOrder(areas[1..], start + areas[0].size, end);
    if a != areas[0] {
      TilingWithin(areas[1..], start + areas[0].size, end, a);
    }
  }

  lemma {:induction false} TilingOrder(areas: seq<Area>, start: nat, end: nat)
    requires Tiling(areas, start, end)
    ensures start <= end
    decreases |areas|
  {
    if areas != [] {
      TilingOrder(areas[1..], start + areas[0].size, end);
    }
  }

  /** Main result. The replies to all requests, in any order and with any repetitions, make every
      variable equal to the memory of the node, whatever the cache held before. */
  lemma RepliesSync(vars: seq<Var>, mem: seq<int16>, replies: seq<Area>, i: nat)
    requires Contiguous(vars, 0) && |mem| == Total(vars) && i < |vars| && vars[i].size > 0
    requires forall a :: a in replies <==> a in Requests(vars, 0, 0)
    ensures forall a | a in replies :: Within(a, mem)
    ensures Synced(Replay(vars, mem, replies)[i], mem)
  {
    hide Synced, Tiling, Requests, Replay;
    var areas, v := Requests(vars, 0, 0), vars[i];
    RequestsTile(vars, 0, 0);
    ContiguousAt(vars, 0, i);
    TilingCovers(areas, 0, |mem|, v.start);
    forall a | a in replies
      ensures Within(a, mem) && (Inside(v, a) || Outside(v, a))
    {
      TilingWithin(areas, 0, |mem|, a);
      RequestsAtBoundaries(vars, 0, 0, a, v);
    }
    var a :| a in areas && a.start <= v.start < a.start + a.size;
    assert a in replies && Inside(v, a);
    ReplaySyncs(vars, mem, replies, i);
  }

  /** A piece of memory leaves a variable it touches in sync if and only if the words of the
      variable outside the piece were in sync, a missing word counting as 0. */
  lemma PieceSyncExact(v: Var, a: Area, mem: seq<int16>)
    requires Within(a, mem) && v.End() <= |mem| && Touched(v, a.start, mem[a.start..a.start + a.size])
    ensures Synced(Apply(v, a.start, mem[a.start..a.start + a.size]), mem) <==>
            forall x | v.start <= x < v.End() && !(a.start <= x < a.start + a.size) ::
              mem[x] == Resized(v.value, v.size)[x - v.start]
  {
    var r, want := Apply(v, a.start, mem[a.start..a.start + a.size]).value, mem[v.start..v.End()];
    forall x | v.start <= x < v.End()
      ensures want[x - v.start] == mem[x]
      ensures r[x - v.start] == if a.start <= x < a.start + a.size then mem[x]
              else Resized(v.value, v.size)[x - v.start]
    {
    }
    if forall x | v.start <= x < v.End() && !(a.start <= x < a.start + a.size) ::
         mem[x] == Resized(v.value, v.size)[x - v.start] {
      forall i | 0 <= i < v.size
        ensures r[i] == want[i]
      {
        assert r[v.start + i - v.start] == mem[v.start + i];
      }
    }
  }

  /** For a variable without a value: the piece covers it, or every word outside the piece is 0. */
  lemma FirstPieceSyncExact(v: Var, a: Area, mem: seq<int16>)
    requires Within(a, mem) && v.End() <= |mem| && Touched(v, a.start, mem[a.start..a.start + a.size]) && v.value == []
    ensures Synced(Apply(v, a.start, mem[a.start..a.start + a.size]), mem) <==>
            Inside(v, a) || forall x | v.start <= x < v.End() && !(a.start <= x < a.start + a.size) :: mem[x] == 0
  {
    hide Synced, Apply;
    PieceSyncExact(v, a, mem);
    assert forall i | 0 <= i < v.size :: Resized(v.value, v.size)[i] == 0;
  }

  /** A piece that covers a variable without a value in part invents the rest of it. */
  lemma PartialPieceCounterexample()
    ensures var v := Var("a", 0, 2, []);
            Apply(v, 0, [7]).value == [7, 0] && !Synced(Apply(v, 0, [7]), [7, 9])
  {
    var v := Var("a", 0, 2, []);
    var value := Apply(v, 0, [7]).value;
    assert Resized(v.value, v.size) == [0, 0];
    assert value == [7, 0] && [7, 0] != [7, 9];
    assert [7 as int16, 9][0..2] == [7, 9];
  }

  // ----- several pieces in one report -----

  /** When one message brings two pieces, the report keeps what it said first. Its values are those
      of the cache if and only if no variable is changed by both pieces. */
  lemma TwoPiecesExact(
      vars: seq<Var>, s1: nat, d1: seq<int16>, s2: nat, d2: seq<int16>, first: Report, both: Report)
    requires Distinct(vars) && Reports(vars, s1, d1, map[], first)
    requires Reports(ApplyAll(vars, s1, d1), s2, d2, first, both)
    ensures var mid := ApplyAll(vars, s1, d1);
            (forall i | 0 <= i < |vars| && vars[i].name in both :: both[vars[i].name] == ApplyAll(mid, s2, d2)[i].value)
            <==> forall i | 0 <= i < |vars| :: !(Changes(vars[i], s1, d1) && Changes(mid[i], s2, d2))
  {
    hide Apply, Changes;
    var mid := ApplyAll(vars, s1, d1);
    var end := ApplyAll(mid, s2, d2);
    forall i | 0 <= i < |vars|
      ensures vars[i].name in first <==> Changes(vars[i], s1, d1)
      ensures vars[i].name in first ==> first[vars[i].name] == mid[i].value
      ensures vars[i].name in both ==> both[vars[i].name] == if vars[i].name in first then mid[i].value
              else end[i].value
      ensures vars[i].name in first && Changes(mid[i], s2, d2) ==> mid[i].value != end[i].value
      ensures !Changes(mid[i], s2, d2) ==> mid[i].value == end[i].value
    {
      if vars[i].name in first {
        FirstReported(vars, s1, d1, map[], first, i);
        SizedAfter(vars[i], s1, d1);
      } else if vars[i].name in both {
        FirstReported(mid, s2, d2, first, both, i);
      }
      UnchangedValue(mid[i], s2, d2);
    }
  }

  lemma FirstReported(vars: seq<Var>, start: nat, data: seq<int16>, before: Report, after: Report, i: nat)
    requires i < |vars| && (forall j, k | 0 <= j < k < |vars| :: vars[j].name != vars[k].name)
    requires Reports(vars, start, data, before, after) && vars[i].name in after && vars[i].name !in before
    ensures Changes(vars[i], start, data) && after[vars[i].name] == Apply(vars[i], start, data).value
  {
    hide Apply, Changes;
    var j :| 0 <= j < |vars| && vars[j].name == vars[i].name && Changes(vars[j], start, data) &&
        after[vars[i].name] == Apply(vars[j], start, data).value;
    assert i == j;
  }

  lemma SizedAfter(v: Var, start: nat, data: seq<int16>)
    requires Changes(v, start, data)
    ensures |Apply(v, start, data).value| == v.size
  {
  }

  lemma UnchangedValue(v: Var, start: nat, data: seq<int16>)
    ensures !Changes(v, start, data) ==> Apply(v, start, data).value == v.value
    ensures Changes(v, start, data) && |v.value| == v.size ==> Apply(v, start, data).value != v.value
  {
  }
}
