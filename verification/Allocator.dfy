/** The memory of the target: named variables from the bottom, temporaries from the top. */
module Allocator {
  import opened Words

  datatype Range = Range(base: nat, size: nat)
  {
    predicate Meets(r: Range) { base < r.base + r.size && r.base < base + size }
  }

  datatype AllocError = AlreadyDefined | ConstCollision | UndefinedSize | NotEnoughSpace | NotEnoughTempSpace

  datatype AResult<+T> = Ok(value: T) | Err(error: AllocError)

  /** `free` is the index of the first free variable, `end` the number of words taken at the end of
      memory, `temps` the temporaries that live there, last one first. A new compilation keeps the
      `end` of the one before, whose temporaries are dead. */
  datatype Space = Space(total: nat, vars: map<string, Range>, free: nat, end: nat, temps: seq<Range>)

  // ----- the operations -----

  function Declare(sp: Space, name: string, size: nat, constants: set<string>): AResult<Space>
  {
    if name in sp.vars then Err(AlreadyDefined)
    else if name in constants then Err(ConstCollision)
    else if size == 0 then Err(UndefinedSize)
    else if sp.free + size > sp.total then Err(NotEnoughSpace)
    else Ok(sp.(vars := sp.vars[name := Range(sp.free, size)], free := sp.free + size))
  }

  /** The size of a variable: the one declared, or else the size of its initial value. */
  function SizeOf(declared: Option<nat>, init: Option<nat>): nat {
    if declared.Some? then declared.value else if init.Some? then init.value else 0
  }

  function Allocate(sp: Space, size: nat): AResult<(Space, nat)>
  {
    if sp.free + sp.end + size > sp.total then Err(NotEnoughTempSpace)
    else
      var addr := sp.total - sp.end - size;
      Ok((sp.(end := sp.end + size, temps := [Range(addr, size)] + sp.temps), addr))
  }

  function Release(sp: Space): Space { sp.(end := 0, temps := []) }

  /** The variables the target brings along, one after the other. */
  function TargetVariables(named: seq<(string, nat)>, sp: Space): Space
    decreases |named|
  {
    if named == [] then sp else
    TargetVariables(named[1..], sp.(vars := sp.vars[named[0].0 := Range(sp.free, named[0].1)],
                                    free := sp.free + named[0].1))
  }

  /** The start of a compilation. */
  function Cleared(total: nat, end: nat): Space { Space(total, map[], 0, end, []) }

  // ----- the invariant -----

  predicate NamedApart(sp: Space)
  {
    && (forall n | n in sp.vars :: sp.vars[n].base + sp.vars[n].size <= sp.free)
    && forall m, n | m in sp.vars && n in sp.vars && m != n :: !sp.vars[m].Meets(sp.vars[n])
  }

  /** The temporaries follow each other from the bottom on, inside memory. */
  predicate Stacked(temps: seq<Range>, bottom: int, total: nat)
  {
    if temps == [] then bottom <= total
    else temps[0].base == bottom && Stacked(temps[1..], bottom + temps[0].size, total)
  }

  /** Named variables apart from each other at the bottom, temporaries above them at the top. */
  predicate Sound(sp: Space)
  {
    && NamedApart(sp) && sp.free <= sp.total
    && (sp.temps != [] ==> sp.free + sp.end <= sp.total && Stacked(sp.temps, sp.total - sp.end, sp.total))
  }

  lemma {:induction false} StackedRange(temps: seq<Range>, bottom: int, total: nat, i: nat)
    requires Stacked(temps, bottom, total) && i < |temps|
    ensures bottom <= temps[i].base && temps[i].base + temps[i].size <= total
    decreases |temps|
  {
    StackedBound(temps[1..], bottom + temps[0].size, total);
    if i > 0 {
      StackedRange(temps[1..], bottom + temps[0].size, total, i - 1);
    }
  }

  lemma {:induction false} StackedBound(temps: seq<Range>, bottom: int, total: nat)
    requires Stacked(temps, bottom, total)
    ensures bottom <= total
  {
    if temps != [] {
      StackedBound(temps[1..], bottom + temps[0].size, total);
    }
  }

  lemma {:induction false} StackedApart(temps: seq<Range>, bottom: int, total: nat, i: nat, j: nat)
    requires Stacked(temps, bottom, total) && i < j < |temps|
    ensures !temps[i].Meets(temps[j])
    decreases |temps|
  {
    if i == 0 {
      StackedRange(temps[1..], bottom + temps[0].size, total, j - 1);
    } else {
      StackedApart(temps[1..], bottom + temps[0].size, total, i - 1, j - 1);
    }
  }

  /** What soundness means for any two variables. */
  lemma SoundIsDisjoint(sp: Space)
    requires Sound(sp)
    ensures forall n | n in sp.vars :: sp.vars[n].base + sp.vars[n].size <= sp.free
    ensures forall m, n | m in sp.vars && n in sp.vars && m != n :: !sp.vars[m].Meets(sp.vars[n])
    ensures forall i | 0 <= i < |sp.temps| ::
              sp.free <= sp.temps[i].base && sp.temps[i].base + sp.temps[i].size <= sp.total
    ensures forall n, i | n in sp.vars && 0 <= i < |sp.temps| :: !sp.vars[n].Meets(sp.temps[i])
    ensures forall i, j | 0 <= i < j < |sp.temps| :: !sp.temps[i].Meets(sp.temps[j])
  {
    forall i | 0 <= i < |sp.temps|
      ensures sp.total - sp.end <= sp.temps[i].base && sp.temps[i].base + sp.temps[i].size <= sp.total
    {
      StackedRange(sp.temps, sp.total - sp.end, sp.total, i);
    }
    forall i, j | 0 <= i < j < |sp.temps|
      ensures !sp.temps[i].Meets(sp.temps[j])
    {
      StackedApart(sp.temps, sp.total - sp.end, sp.total, i, j);
    }
  }

  // ----- runs -----

  datatype Op = DeclareOp(name: string, size: nat) | AllocateOp(size: nat) | ReleaseOp

  /** Variables are declared before the first statement, so never while a temporary lives. The
      words a compilation before this one had taken for temporaries may still be counted. */
  function Do(sp: Space, op: Op, constants: set<string>): AResult<Space>
    requires op.DeclareOp? ==> sp.temps == []
  {
    match op
    case DeclareOp(name, size) => Declare(sp, name, size, constants)
    case AllocateOp(size) => var r := Allocate(sp, size); if r.Ok? then Ok(r.value.0) else Err(r.error)
    case ReleaseOp => Ok(Release(sp))
  }

  lemma DoKeepsSound(sp: Space, op: Op, constants: set<string>)
    requires Sound(sp) && (op.DeclareOp? ==> sp.temps == []) && Do(sp, op, constants).Ok?
    ensures Sound(Do(sp, op, constants).value)
  {
    if op.AllocateOp? {
      var next := Do(sp, op, constants).value;
      assert next.temps[1..] == sp.temps;
    }
  }

  ghost predicate Run(states: seq<Space>, ops: seq<Op>, constants: set<string>)
  {
    && |states| == |ops| + 1
    && forall i | 0 <= i < |ops| ::
         (ops[i].DeclareOp? ==> states[i].temps == []) && Do(states[i], ops[i], constants) == Ok(states[i + 1])
  }

  /** After any accepted sequence of declarations, allocations and releases on any target, whatever
      earlier compilations left behind, named variables and temporaries are all apart from each other
      and inside memory. */
  lemma {:induction false} RunIsSound(
      named: seq<(string, nat)>, total: nat, end: nat, states: seq<Space>, ops: seq<Op>, constants: set<string>, i: nat)
    requires Run(states, ops, constants) && i < |states|
    requires states[0] == TargetVariables(named, Cleared(total, end)) && states[0].free <= total
    ensures Sound(states[i])
    decreases i
  {
    if i == 0 {
      TargetIsSound(named, Cleared(total, end));
    } else {
      RunIsSound(named, total, end, states, ops, constants, i - 1);
      assert Do(states[i - 1], ops[i - 1], constants) == Ok(states[i - 1 + 1]);
      DoKeepsSound(states[i - 1], ops[i - 1], constants);
    }
  }

  lemma {:induction false} TargetIsSound(named: seq<(string, nat)>, sp: Space)
    requires NamedApart(sp)
    ensures var t := TargetVariables(named, sp);
            NamedApart(t) && t.total == sp.total && t.end == sp.end && t.temps == sp.temps
    decreases |named|
  {
    if named != [] {
      TargetIsSound(named[1..], sp.(vars := sp.vars[named[0].0 := Range(sp.free, named[0].1)],
                                    free := sp.free + named[0].1));
    }
  }

  // ----- what is accepted, and where it goes -----

  function WordsOf(defs: seq<(string, nat)>): nat { if defs == [] then 0 else defs[0].1 + WordsOf(defs[1..]) }

  function DeclareAll(sp: Space, defs: seq<(string, nat)>, constants: set<string>): AResult<Space>
    decreases |defs|
  {
    if defs == [] then Ok(sp) else
    var next := Declare(sp, defs[0].0, defs[0].1, constants);
    if next.Err? then next else DeclareAll(next.value, defs[1..], constants)
  }

  /** Names that are new and distinct, and sizes that are not zero. */
  predicate Fine(defs: seq<(string, nat)>, taken: set<string>)
  {
    && (forall i | 0 <= i < |defs| :: defs[i].0 !in taken && defs[i].1 > 0)
    && forall i, j | 0 <= i < j < |defs| :: defs[i].0 != defs[j].0
  }

  lemma FineFirst(defs: seq<(string, nat)>, taken: set<string>)
    requires defs != []
    ensures Fine(defs, taken) <==> defs[0].0 !in taken && defs[0].1 > 0 && Fine(defs[1..], taken + {defs[0].0})
  {
    var rest := defs[1..];
    if defs[0].0 !in taken && defs[0].1 > 0 && Fine(rest, taken + {defs[0].0}) {
      assert forall i | 1 <= i < |defs| :: defs[i] == rest[i - 1];
    }
    if Fine(defs, taken) {
      assert forall i | 0 <= i < |rest| :: rest[i] == defs[i + 1];
    }
  }

  /** A list of declarations is accepted if and only if its names are new and distinct, its sizes are
      not zero, and all of it fits into the words that are left. */
  lemma {:induction false} DeclarationsExact(sp: Space, defs: seq<(string, nat)>, constants: set<string>)
    requires sp.free <= sp.total
    ensures DeclareAll(sp, defs, constants).Ok? <==>
            Fine(defs, sp.vars.Keys + constants) && sp.free + WordsOf(defs) <= sp.total
    decreases |defs|
  {
    if defs != [] {
      hide Fine;
      FineFirst(defs, sp.vars.Keys + constants);
      var next := Declare(sp, defs[0].0, defs[0].1, constants);
      if next.Ok? {
        DeclarationsExact(next.value, defs[1..], constants);
        assert next.value.vars.Keys + constants == sp.vars.Keys + constants + {defs[0].0};
      }
    }
  }

  /** Each declared variable lies right behind the ones declared before it. */
  lemma {:induction false} DeclarationsPlaced(sp: Space, defs: seq<(string, nat)>, constants: set<string>, i: nat)
    requires DeclareAll(sp, defs, constants).Ok? && i < |defs|
    ensures var r := DeclareAll(sp, defs, constants).value;
            && defs[i].0 in r.vars && r.vars[defs[i].0] == Range(sp.free + WordsOf(defs[..i]), defs[i].1)
            && r.free == sp.free + WordsOf(defs) && forall n | n in sp.vars :: n in r.vars && r.vars[n] == sp.vars[n]
    decreases |defs|
  {
    var next, rest := Declare(sp, defs[0].0, defs[0].1, constants).value, defs[1..];
    if i > 0 {
      DeclarationsPlaced(next, rest, constants, i - 1);
      assert defs[..i][1..] == rest[..i - 1];
    } else if rest != [] {
      DeclarationsPlaced(next, rest, constants, 0);
    }
  }

  /** The target's variables lie one right after the other from address 0 on. */
  lemma {:induction false} TargetPlaced(named: seq<(string, nat)>, sp: Space, i: nat)
    requires i < |named| && forall j | i < j < |named| :: named[j].0 != named[i].0
    ensures var t := TargetVariables(named, sp);
            && named[i].0 in t.vars && t.vars[named[i].0] == Range(sp.free + WordsOf(named[..i]), named[i].1)
            && t.free == sp.free + WordsOf(named)
    decreases |named|
  {
    var next := sp.(vars := sp.vars[named[0].0 := Range(sp.free, named[0].1)], free := sp.free + named[0].1);
    if i > 0 {
      TargetPlaced(named[1..], next, i - 1);
      assert named[..i][1..] == named[1..][..i - 1];
    } else {
      TargetKeeps(named[1..], next, named[0].0);
    }
  }

  lemma {:induction false} TargetKeeps(named: seq<(string, nat)>, sp: Space, name: string)
    requires name in sp.vars && forall j | 0 <= j < |named| :: named[j].0 != name
    ensures var t := TargetVariables(named, sp);
            name in t.vars && t.vars[name] == sp.vars[name] && t.free == sp.free + WordsOf(named)
    decreases |named|
  {
    if named != [] {
      TargetKeeps(named[1..], sp.(vars := sp.vars[named[0].0 := Range(sp.free, named[0].1)],
                                  free := sp.free + named[0].1), name);
    }
  }

  // ----- the compiler's fields -----

  class VariableSpace {
    const variablesSize: nat
    var variablesMap: map<string, Range>
    var freeVariableIndex: nat
    var endVariableIndex: nat
    ghost var temporaries: seq<Range>

    ghost function Value(): Space
      reads this
    {
      Space(variablesSize, variablesMap, freeVariableIndex, endVariableIndex, temporaries)
    }

    constructor (variablesSize: nat)
      ensures Value() == Cleared(variablesSize, 0)
    {
      this.variablesSize := variablesSize;
      variablesMap, freeVariableIndex, endVariableIndex, temporaries := map[], 0, 0, [];
    }

    /** False when the target's own variables do not fit. */
    method BuildMaps(named: seq<(string, nat)>) returns (ok: bool)
      modifies this
      ensures Value() == TargetVariables(named, Cleared(variablesSize, old(endVariableIndex)))
      ensures ok <==> freeVariableIndex <= variablesSize
    {
      freeVariableIndex, variablesMap, temporaries := 0, map[], [];
      var todo := named;
      while todo != []
        invariant endVariableIndex == old(endVariableIndex)
        invariant TargetVariables(todo, Value()) == TargetVariables(named, Cleared(variablesSize, endVariableIndex))
      {
        variablesMap := variablesMap[todo[0].0 := Range(freeVariableIndex, todo[0].1)];
        freeVariableIndex := freeVariableIndex + todo[0].1;
        todo := todo[1..];
      }
      ok := freeVariableIndex <= variablesSize;
    }

    method ParseVarDef(name: string, declared: Option<nat>, init: Option<nat>, constants: set<string>)
      returns (r: AResult<nat>)
      modifies this
      ensures var d := Declare(old(Value()), name, SizeOf(declared, init), constants);
              if d.Ok? then r == Ok(old(freeVariableIndex)) && Value() == d.value else r == Err(d.error)
      ensures r.Err? && r.error != NotEnoughSpace ==> Value() == old(Value())
    {
      if name in variablesMap {
        return Err(AlreadyDefined);
      }
      if name in constants {
        return Err(ConstCollision);
      }
      var size := 0;
      if declared.Some? {
        size := declared.value;
      } else if init.Some? {
        size := init.value;
      }
      if size == 0 {
        return Err(UndefinedSize);
      }
      var addr := freeVariableIndex;
      variablesMap := variablesMap[name := Range(addr, size)];
      freeVariableIndex := freeVariableIndex + size;
      if freeVariableIndex > variablesSize {
        return Err(NotEnoughSpace);
      }
      r := Ok(addr);
    }

    method AllocateTemporaryMemory(size: nat) returns (r: AResult<nat>)
      requires Sound(Value())
      modifies this
      ensures var a := Allocate(old(Value()), size);
              if a.Ok? then r == Ok(a.value.1) && Value() == a.value.0 else r == Err(a.error)
      ensures r.Ok? ==> freeVariableIndex <= r.value && r.value + size <= variablesSize && Sound(Value())
    {
      var endOfMemory := variablesSize - endVariableIndex;
      var varAddr := endOfMemory - size;
      endVariableIndex := endVariableIndex + size;
      if freeVariableIndex + endVariableIndex > variablesSize {
        return Err(NotEnoughTempSpace);
      }
      temporaries := [Range(varAddr, size)] + temporaries;
      DoKeepsSound(old(Value()), AllocateOp(size), {});
      r := Ok(varAddr);
    }

    method FreeTemporaryMemory()
      modifies this`endVariableIndex, this`temporaries
      ensures Value() == Release(old(Value())) && endVariableIndex == 0 && temporaries == []
    {
      endVariableIndex, temporaries := 0, [];
    }
  }
}
