/** Vector assignments become blocks of scalar assignments that act all at once. */
module Expansion {
  import opened Words
  import opened Tree
  import opened Semantics
  import opened VectorTree
  import opened Allocator

  // ----- expansion of assignments -----

  /** The tree mentions the array `name`. */
  predicate Mentions(e: VExpr, name: string)
  {
    match e
    case VImm(_) => false
    case Tuple(elems) => exists x | x in elems :: Mentions(x, name)
    case Mem(_, _, n, index) => n == name || (index.Some? && Mentions(index.value, name))
    case VUnary(_, a) => Mentions(a, name)
    case VBinary(_, l, r) => Mentions(l, name) || Mentions(r, name)
  }

  /** The scalar assignments for elements i to n. */
  function Assigns(left: VExpr, right: VExpr, i: nat, n: nat): VResult<seq<Stmt>>
    requires left.Mem?
    decreases n - i
  {
    if i >= n then VResult.Ok([]) else
    var t :- ExpandTarget(left, i);
    var x :- ExpandAt(right, i);
    var rest :- Assigns(left, right, i + 1, n);
    VResult.Ok([Assign(t, x)] + rest)
  }

  /** Element by element, without a temporary. */
  function ExpandDirect(left: VExpr, right: VExpr): VResult<Stmt>
    requires left.Mem?
  {
    var n :- VectorSize(left);
    var stmts :- Assigns(left, right, 0, n);
    VResult.Ok(Block(stmts))
  }

  /** The loop over the elements. */
  method ExpandElements(left: VExpr, right: VExpr) returns (r: VResult<Stmt>)
    requires left.Mem?
    ensures r == ExpandDirect(left, right)
  {
    var size := VectorSize(left);
    if size.Err? {
      return VResult.Err(size.error);
    }
    var n, i := size.value, 0;
    var block: seq<Stmt> := [];
    AfterNothing(Assigns(left, right, 0, n));
    while i < n
      invariant 0 <= i <= n
      invariant Assigns(left, right, 0, n) == After(block, Assigns(left, right, i, n))
    {
      var t := ExpandTarget(left, i);
      if t.Err? {
        return VResult.Err(t.error);
      }
      var x := ExpandAt(right, i);
      if x.Err? {
        return VResult.Err(x.error);
      }
      AfterStep(block, Assign(t.value, x.value), Assigns(left, right, i + 1, n));
      block := block + [Assign(t.value, x.value)];
      i := i + 1;
    }
    assert block + [] == block;
    r := VResult.Ok(Block(block));
  }

  ghost function After(block: seq<Stmt>, rest: VResult<seq<Stmt>>): VResult<seq<Stmt>> {
    if rest.Ok? then VResult.Ok(block + rest.value) else rest
  }

  lemma AfterNothing(rest: VResult<seq<Stmt>>)
    ensures After([], rest) == rest
  {
    if rest.Ok? {
      assert [] + rest.value == rest.value;
    }
  }

  lemma AfterStep(block: seq<Stmt>, s: Stmt, rest: VResult<seq<Stmt>>)
    ensures After(block + [s], rest) == After(block, After([s], rest))
  {
    if rest.Ok? {
      assert (block + [s]) + rest.value == block + ([s] + rest.value);
    }
  }

  predicate NeedsTemporary(left: VExpr, right: VExpr)
    requires left.Mem?
  {
    Mentions(right, left.name) && VectorSize(left).Ok? && VectorSize(left).value > 1
  }

  /** The assignment as expanded and the memory left to allocate. It goes through a temporary, of a
      name no variable has, when the assigned array appears on the right. */
  function ExpandAssign(left: VExpr, right: VExpr, sp: Space, tempName: string): VResult<(Stmt, Space)>
    requires left.Mem?
  {
    var size :- VectorSize(left);
    if !NeedsTemporary(left, right) then
      var direct :- ExpandDirect(left, right);
      VResult.Ok((direct, sp))
    else
      var n :- VectorSize(right);
      var a := Allocate(sp, n);
      if a.Err? then VResult.Err(NoTemporarySpace) else
      var temp := Mem(a.value.1, n, tempName, None);
      var first :- ExpandDirect(temp, right);
      var second :- ExpandDirect(left, temp);
      VResult.Ok((Block([first, second]), a.value.0))
  }

  // ----- reads that avoid a stretch of memory -----

  /** Every array of the tree lies outside lo..hi. */
  predicate Avoids(e: VExpr, lo: int, hi: int)
  {
    match e
    case VImm(_) => true
    case Tuple(elems) => forall x | x in elems :: Avoids(x, lo, hi)
    case Mem(base, size, _, index) =>
      (base + size <= lo || hi <= base) && (index.Some? ==> Avoids(index.value, lo, hi))
    case VUnary(_, a) => Avoids(a, lo, hi)
    case VBinary(_, l, r) => Avoids(l, lo, hi) && Avoids(r, lo, hi)
  }

  predicate ReadsAvoid(e: Expr, lo: int, hi: int)
  {
    match e
    case Imm(_) => true
    case Load(addr) => addr < lo || hi <= addr
    case ArrayRead(base, size, i) => (base + size <= lo || hi <= base) && ReadsAvoid(i, lo, hi)
    case Unary(_, a) => ReadsAvoid(a, lo, hi)
    case Binary(_, l, r) => ReadsAvoid(l, lo, hi) && ReadsAvoid(r, lo, hi)
  }

  /** A static access designates a word of its own array. */
  lemma StaticWordInside(e: VExpr, i: nat)
    requires e.Mem? && StaticIndex(e) && StaticWord(e, i).Ok?
    ensures e.base <= StaticWord(e, i).value < e.base + e.size
  {
  }

  lemma {:induction false} ExpandAvoids(e: VExpr, i: nat, lo: int, hi: int)
    requires Avoids(e, lo, hi) && ExpandAt(e, i).Ok?
    ensures ReadsAvoid(ExpandAt(e, i).value, lo, hi)
  {
    hide VectorSize, StaticWord;
    match e
    case VImm(_) =>
    case Tuple(elems) => ExpandInAvoids(elems, i, lo, hi);
    case Mem(_, _, _, index) =>
      if StaticIndex(e) {
        StaticWordInside(e, i);
      } else {
        ExpandAvoids(index.value, i, lo, hi);
      }
    case VUnary(_, a) => ExpandAvoids(a, i, lo, hi);
    case VBinary(_, l, r) =>
      ExpandAvoids(l, i, lo, hi);
      ExpandAvoids(r, i, lo, hi);
  }

  lemma {:induction false} ExpandInAvoids(elems: seq<VExpr>, i: nat, lo: int, hi: int)
    requires (forall x | x in elems :: Avoids(x, lo, hi)) && ExpandIn(elems, i).Ok?
    ensures ReadsAvoid(ExpandIn(elems, i).value, lo, hi)
  {
    hide VectorSize;
    var n := VectorSize(elems[0]).value;
    if i < n {
      ExpandAvoids(elems[0], i, lo, hi);
    } else {
      ExpandInAvoids(elems[1..], i - n, lo, hi);
    }
  }

  predicate AgreeOutside(a: seq<int16>, b: seq<int16>, lo: int, hi: int) {
    |a| == |b| && forall p | 0 <= p < |a| && (p < lo || hi <= p) :: a[p] == b[p]
  }

  lemma {:induction false} EvalFrame(e: Expr, lo: int, hi: int, a: seq<int16>, b: seq<int16>)
    requires ReadsAvoid(e, lo, hi) && AgreeOutside(a, b, lo, hi)
    ensures Eval(e, a) == Eval(e, b)
  {
    hide Binary16, Unary16, Wrap16;
    match e
    case Imm(_) =>
    case Load(_) =>
    case ArrayRead(_, _, i) => EvalFrame(i, lo, hi, a, b);
    case Unary(_, x) => EvalFrame(x, lo, hi, a, b);
    case Binary(_, l, r) =>
      EvalFrame(l, lo, hi, a, b);
      EvalFrame(r, lo, hi, a, b);
  }

  // ----- simultaneous assignment -----

  predicate AllSome(vals: seq<Cell>, n: nat)
    requires n <= |vals|
  {
    forall i | 0 <= i < n :: vals[i].Some?
  }

  /** The memory with the first n values written from `addr` on. */
  function Overwrite(mem: seq<int16>, addr: nat, vals: seq<Cell>, n: nat): (r: seq<int16>)
    requires n <= |vals| && addr + n <= |mem| && AllSome(vals, n)
    ensures |r| == |mem|
    ensures forall p | 0 <= p < |mem| :: r[p] == if addr <= p < addr + n then vals[p - addr].value else mem[p]
  {
    if n == 0 then mem else Overwrite(mem, addr, vals, n - 1)[addr + n - 1 := vals[n - 1].value]
  }

  /** One scalar assignment, after the first i are done. */
  lemma AssignStep(left: VExpr, right: VExpr, addr: nat, i: nat, n: nat, mem: seq<int16>, st: State)
    requires left.Mem? && StaticIndex(left) && VectorAddr(left) == VResult.Ok(addr)
    requires WellFormed(right) && i < n == |Vector(right, mem)| && addr + n <= |mem|
    requires i > 0 ==> Avoids(right, addr, addr + n)
    requires ExpandTarget(left, i).Ok? && ExpandAt(right, i).Ok?
    requires AllSome(Vector(right, mem), i) && st.mem == Overwrite(mem, addr, Vector(right, mem), i)
    ensures ExecAssign(ExpandTarget(left, i).value, ExpandAt(right, i).value, st) ==
            var v := Vector(right, mem)[i];
            if v.None? then Fault else Done(st.(mem := Overwrite(mem, addr, Vector(right, mem), i + 1)))
  {
    hide Vector, Eval, Avoids, VectorSize, WellFormed;
    var x := ExpandAt(right, i).value;
    ExpandMeaning(right, i, mem);
    if i > 0 {
      ExpandAvoids(right, i, addr, addr + n);
      EvalFrame(x, addr, addr + n, st.mem, mem);
    }
    assert ExpandTarget(left, i).value == Store(addr + i);
  }

  /** The scalar assignments in order have the effect of writing all elements of the value that
      the right side had before, or fault when one of these elements faults. */
  lemma {:induction false} AssignsRun(
      left: VExpr, right: VExpr, addr: nat, i: nat, n: nat, mem: seq<int16>,
      subs: map<nat, Stmt>, st: State, fuel: nat)
    requires left.Mem? && StaticIndex(left) && VectorAddr(left) == VResult.Ok(addr)
    requires WellFormed(right) && i <= n == |Vector(right, mem)| && addr + n <= |mem|
    requires n > 1 ==> Avoids(right, addr, addr + n)
    requires Assigns(left, right, i, n).Ok?
    requires AllSome(Vector(right, mem), i) && st.mem == Overwrite(mem, addr, Vector(right, mem), i)
    ensures ExecAll(Assigns(left, right, i, n).value, subs, st, fuel) ==
            if AllSome(Vector(right, mem), n) then Done(st.(mem := Overwrite(mem, addr, Vector(right, mem), n)))
                else Fault
    decreases n - i
  {
    hide Vector, Eval, Avoids, VectorSize, WellFormed, ExpandAt, ExpandTarget, VectorAddr, ExecAssign;
    if i < n {
      AssignStep(left, right, addr, i, n, mem, st);
      var s := Assign(ExpandTarget(left, i).value, ExpandAt(right, i).value);
      var rest := Assigns(left, right, i + 1, n).value;
      assert ([s] + rest)[0] == s && ([s] + rest)[1..] == rest;
      if Vector(right, mem)[i].Some? {
        AssignsRun(left, right, addr, i + 1, n, mem, subs,
                   st.(mem := Overwrite(mem, addr, Vector(right, mem), i + 1)), fuel);
      }
    }
  }

  /** What a vector assignment to a static place does: all elements of the right side, read in the
      memory before, are written at once. */
  function Simultaneous(left: VExpr, right: VExpr, addr: nat, st: State): Outcome
    requires addr + |Vector(right, st.mem)| <= |st.mem|
  {
    var vals := Vector(right, st.mem);
    if AllSome(vals, |vals|) then Done(st.(mem := Overwrite(st.mem, addr, vals, |vals|))) else Fault
  }

  /** A vector assignment that passed the size check. */
  predicate Checked(left: VExpr, right: VExpr) {
    && left.Mem? && WellFormed(left) && WellFormed(right)
    && VectorSize(left).Ok? && VectorSize(right) == VectorSize(left)
  }

  lemma DirectRuns(left: VExpr, right: VExpr, addr: nat, subs: map<nat, Stmt>, st: State, fuel: nat)
    requires Checked(left, right) && StaticIndex(left) && VectorAddr(left) == VResult.Ok(addr)
    requires addr + VectorSize(left).value <= |st.mem|
    requires VectorSize(left).value > 1 ==> Avoids(right, addr, addr + VectorSize(left).value)
    requires ExpandDirect(left, right).Ok?
    ensures VectorSize(left).value == |Vector(right, st.mem)|
    ensures Exec(ExpandDirect(left, right).value, subs, st, fuel) == Simultaneous(left, right, addr, st)
  {
    hide Vector, Eval, Avoids, VectorSize, WellFormed, VectorAddr, Assigns;
    SizeIsLength(right, st.mem);
    AssignsRun(left, right, addr, 0, VectorSize(left).value, st.mem, subs, st, fuel);
  }

  // ----- arrays known by name -----

  /** Every array of the tree is the variable of its name. */
  predicate FromSpace(e: VExpr, vars: map<string, Range>)
  {
    match e
    case VImm(_) => true
    case Tuple(elems) => forall x | x in elems :: FromSpace(x, vars)
    case Mem(base, size, name, index) =>
      && name in vars && vars[name] == Range(base, size)
      && (index.Some? ==> FromSpace(index.value, vars))
    case VUnary(_, a) => FromSpace(a, vars)
    case VBinary(_, l, r) => FromSpace(l, vars) && FromSpace(r, vars)
  }

  predicate Apart(vars: map<string, Range>) {
    forall m, n | m in vars && n in vars && m != n :: !vars[m].Meets(vars[n])
  }

  /** A tree that does not mention an array reads nothing of it. */
  lemma {:induction false} UnmentionedAvoids(e: VExpr, vars: map<string, Range>, name: string, lo: int, hi: int)
    requires FromSpace(e, vars) && Apart(vars) && name in vars && !Mentions(e, name) && WellFormed(e)
    requires vars[name].base <= lo <= hi <= vars[name].base + vars[name].size
    ensures Avoids(e, lo, hi)
    decreases e, 0
  {
    match e
    case VImm(_) =>
    case Tuple(elems) =>
      forall x | x in elems
        ensures Avoids(x, lo, hi)
      {
        UnmentionedAvoids(x, vars, name, lo, hi);
      }
    case Mem(base, size, n, index) =>
      assert !vars[name].Meets(vars[n]);
      if index.Some? {
        IndexAvoids(index.value, vars, name, lo, hi);
      }
    case VUnary(_, a) => UnmentionedAvoids(a, vars, name, lo, hi);
    case VBinary(_, l, r) =>
      UnmentionedAvoids(l, vars, name, lo, hi);
      UnmentionedAvoids(r, vars, name, lo, hi);
  }

  lemma {:induction false} IndexAvoids(e: VExpr, vars: map<string, Range>, name: string, lo: int, hi: int)
    requires FromSpace(e, vars) && Apart(vars) && name in vars && !Mentions(e, name)
    requires WellFormed(e) || (e.Tuple? && Immediate(e.elems))
    requires vars[name].base <= lo <= hi <= vars[name].base + vars[name].size
    ensures Avoids(e, lo, hi)
    decreases e, 1
  {
    if !(e.Tuple? && Immediate(e.elems)) {
      UnmentionedAvoids(e, vars, name, lo, hi);
    }
  }

  /** Variables below an address keep away from everything above it. */
  lemma {:induction false} BelowAvoids(e: VExpr, vars: map<string, Range>, lo: int, hi: int)
    requires FromSpace(e, vars) && forall n | n in vars :: vars[n].base + vars[n].size <= lo
    ensures Avoids(e, lo, hi)
  {
    match e
    case VImm(_) =>
    case Tuple(elems) =>
      forall x | x in elems
        ensures Avoids(x, lo, hi)
      {
        BelowAvoids(x, vars, lo, hi);
      }
    case Mem(_, _, _, index) =>
      if index.Some? {
        BelowAvoids(index.value, vars, lo, hi);
      }
    case VUnary(_, a) => BelowAvoids(a, vars, lo, hi);
    case VBinary(_, l, r) =>
      BelowAvoids(l, vars, lo, hi);
      BelowAvoids(r, vars, lo, hi);
  }

  // ----- vector assignment -----

  /** The accessed words lie inside the array. */
  lemma SliceInside(e: VExpr)
    requires e.Mem? && WellFormed(e) && StaticIndex(e) && VectorSize(e).Ok? && VectorAddr(e).Ok?
    ensures VectorSize(e).value >= 1
    ensures e.base <= VectorAddr(e).value && VectorAddr(e).value + VectorSize(e).value <= e.base + e.size
  {
    if e.index.Some? {
      ImmediateTotal(e.index.value.elems);
    }
  }

  lemma DirectAddress(left: VExpr, right: VExpr)
    requires Checked(left, right) && StaticIndex(left) && ExpandDirect(left, right).Ok?
    ensures VectorAddr(left).Ok?
  {
    SizeIsLength(left, []);
    VectorNonEmpty(left, []);
    assert ExpandTarget(left, 0).Ok?;
  }

  /** A tree over the variables of `sp`, all of them inside memory. */
  predicate Placed(left: VExpr, right: VExpr, sp: Space) {
    Sound(sp) && FromSpace(left, sp.vars) && FromSpace(right, sp.vars)
  }

  /** Same outcome, memory compared outside lo..hi. */
  predicate SameOutside(a: Outcome, b: Outcome, lo: int, hi: int)
  {
    if b.Done? then a.Done? && a.st.out == b.st.out && AgreeOutside(a.st.mem, b.st.mem, lo, hi) else a == b
  }

  /** Without a temporary: the assigned array is not read, or there is only one element. */
  lemma DirectSimultaneous(left: VExpr, right: VExpr, sp: Space, subs: map<nat, Stmt>, st: State, fuel: nat)
    requires Checked(left, right) && StaticIndex(left) && Placed(left, right, sp) && sp.total <= |st.mem|
    requires !NeedsTemporary(left, right) && ExpandDirect(left, right).Ok?
    ensures VectorAddr(left).Ok? && VectorAddr(left).value + |Vector(right, st.mem)| <= |st.mem|
    ensures Exec(ExpandDirect(left, right).value, subs, st, fuel) ==
            Simultaneous(left, right, VectorAddr(left).value, st)
  {
    hide Vector, Eval, Avoids, VectorSize, WellFormed, VectorAddr, ExpandDirect, Exec;
    DirectAddress(left, right);
    SliceInside(left);
    SoundIsDisjoint(sp);
    var addr := VectorAddr(left).value;
    var n := VectorSize(left).value;
    if n > 1 {
      UnmentionedAvoids(right, sp.vars, left.name, addr, addr + n);
    }
    DirectRuns(left, right, addr, subs, st, fuel);
  }

  /** With a temporary that avoids both sides. */
  lemma TemporarySimultaneous(left: VExpr, right: VExpr, temp: VExpr, subs: map<nat, Stmt>, st: State, fuel: nat)
    requires Checked(left, right) && StaticIndex(left) && VectorAddr(left).Ok?
    requires temp.Mem? && temp.index.None? && VResult.Ok(temp.size) == VectorSize(left)
    requires VectorAddr(left).value + temp.size <= temp.base && temp.base + temp.size <= |st.mem|
    requires Avoids(right, temp.base, temp.base + temp.size)
    requires ExpandDirect(temp, right).Ok? && ExpandDirect(left, temp).Ok?
    ensures |Vector(right, st.mem)| == temp.size
    ensures SameOutside(
        ExecAll([ExpandDirect(temp, right).value, ExpandDirect(left, temp).value], subs, st, fuel),
        Simultaneous(left, right, VectorAddr(left).value, st), temp.base, temp.base + temp.size)
  {
    hide Vector, Eval, VectorSize, WellFormed, ExpandDirect, Exec, ExecAll, VectorAddr, Avoids, SameOutside,
        StaticIndex, Checked;
    assert left.Mem? && WellFormed(left) && VectorSize(left).Ok? by { CheckedParts(left, right); }
    SizePositive(left);
    CopyBack(left, temp);
    CheckedTo(left, right, temp);
    DirectRuns(temp, right, temp.base, subs, st, fuel);
    var first, second := ExpandDirect(temp, right).value, ExpandDirect(left, temp).value;
    ExecTwo(first, second, subs, st, fuel);
    var o := Exec(first, subs, st, fuel);
    if o.Done? {
      var addr := VectorAddr(left).value;
      DirectRuns(left, temp, addr, subs, o.st, fuel);
      ReadBack(temp, right, st.mem, o.st.mem);
      TwiceWritten(Vector(right, st.mem), addr, temp.base, temp.size, st, o.st);
    } else {
      FaultSame(temp.base, temp.base + temp.size);
    }
  }

  lemma FaultSame(lo: int, hi: int)
    ensures SameOutside(Fault, Fault, lo, hi)
  {
  }

  lemma CheckedParts(left: VExpr, right: VExpr)
    requires Checked(left, right)
    ensures left.Mem? && WellFormed(left) && VectorSize(left).Ok?
  {
  }

  /** The size check carries over to an assignment to the temporary. */
  lemma CheckedTo(left: VExpr, right: VExpr, temp: VExpr)
    requires Checked(left, right) && Checked(left, temp) && temp.Mem?
    ensures Checked(temp, right)
  {
  }

  lemma ExecTwo(a: Stmt, b: Stmt, subs: map<nat, Stmt>, st: State, fuel: nat)
    ensures ExecAll([a, b], subs, st, fuel) ==
            var o := Exec(a, subs, st, fuel); if o.Done? then Exec(b, subs, o.st, fuel) else o
  {
    var both := [a, b];
    assert both[1..] == [b] && [b][1..] == [];
    var o := Exec(a, subs, st, fuel);
    if o.Done? {
      assert ExecAll([b], subs, o.st, fuel) == Exec(b, subs, o.st, fuel);
    }
  }

  /** Writing the values to the temporary and then to their place. */
  lemma TwiceWritten(vals: seq<Cell>, addr: nat, temp: nat, n: nat, st: State, mid: State)
    requires n == |vals| && addr + n <= temp && temp + n <= |st.mem| && AllSome(vals, n)
    requires mid == st.(mem := Overwrite(st.mem, temp, vals, n))
    ensures SameOutside(Done(mid.(mem := Overwrite(mid.mem, addr, vals, n))),
                        Done(st.(mem := Overwrite(st.mem, addr, vals, n))), temp, temp + n)
  {
  }

  lemma SizePositive(e: VExpr)
    requires WellFormed(e) && VectorSize(e).Ok?
    ensures VectorSize(e).value >= 1
  {
    SizeIsLength(e, []);
    VectorNonEmpty(e, []);
  }

  lemma CopyBack(left: VExpr, temp: VExpr)
    requires left.Mem? && WellFormed(left) && temp.Mem? && temp.index.None? &&
             VectorSize(left) == VResult.Ok(temp.size) && temp.size >= 1
    requires StaticIndex(left) && VectorAddr(left).Ok? && VectorAddr(left).value + temp.size <= temp.base
    ensures Checked(left, temp) && StaticIndex(temp) && VectorAddr(temp) == VResult.Ok(temp.base)
    ensures VectorSize(temp) == VResult.Ok(temp.size) && WellFormed(temp)
    ensures Avoids(temp, VectorAddr(left).value, VectorAddr(left).value + temp.size)
  {
  }

  /** The temporary holds the values written to it. */
  lemma ReadBack(temp: VExpr, right: VExpr, mem: seq<int16>, after: seq<int16>)
    requires temp.Mem? && temp.index.None? && temp.base + temp.size <= |mem| && |Vector(right, mem)| == temp.size
    requires AllSome(Vector(right, mem), temp.size)
    requires after == Overwrite(mem, temp.base, Vector(right, mem), temp.size)
    ensures Vector(temp, after) == Vector(right, mem)
  {
    var v := Vector(temp, after);
    assert v == Stretch(after, temp.base, temp.size);
  }

  /** Main result. A vector assignment that passed the size check and expands, run element by
      element, is the simultaneous assignment of all elements read before, in every word outside
      its own temporary. That temporary meets no variable and no earlier temporary. */
  lemma AssignmentIsSimultaneous(
      left: VExpr, right: VExpr, sp: Space, tempName: string, subs: map<nat, Stmt>, st: State, fuel: nat)
    requires Checked(left, right) && StaticIndex(left) && Placed(left, right, sp) && sp.total <= |st.mem|
    requires ExpandAssign(left, right, sp, tempName).Ok?
    ensures VectorAddr(left).Ok? && VectorAddr(left).value + |Vector(right, st.mem)| <= |st.mem|
    ensures var (s, next) := ExpandAssign(left, right, sp, tempName).value;
            && Sound(next) && next.vars == sp.vars && next.total == sp.total
            && sp.end <= next.end && (NeedsTemporary(left, right) ==> sp.free <= sp.total - next.end)
            && SameOutside(Exec(s, subs, st, fuel), Simultaneous(left, right, VectorAddr(left).value, st),
                           sp.total - next.end, sp.total - sp.end)
  {
    if !NeedsTemporary(left, right) {
      DirectSimultaneous(left, right, sp, subs, st, fuel);
    } else {
      ThroughTemporary(left, right, sp, tempName, subs, st, fuel);
    }
  }

  lemma ThroughTemporary(
      left: VExpr, right: VExpr, sp: Space, tempName: string, subs: map<nat, Stmt>, st: State, fuel: nat)
    requires Checked(left, right) && StaticIndex(left) && Placed(left, right, sp) && sp.total <= |st.mem|
    requires NeedsTemporary(left, right) && ExpandAssign(left, right, sp, tempName).Ok?
    ensures VectorAddr(left).Ok? && VectorAddr(left).value + |Vector(right, st.mem)| <= |st.mem|
    ensures var (s, next) := ExpandAssign(left, right, sp, tempName).value;
            && Sound(next) && next.vars == sp.vars && next.total == sp.total
            && sp.end <= next.end && (NeedsTemporary(left, right) ==> sp.free <= sp.total - next.end)
            && SameOutside(Exec(s, subs, st, fuel), Simultaneous(left, right, VectorAddr(left).value, st),
                           sp.total - next.end, sp.total - sp.end)
  {
    hide Vector, Eval, VectorSize, WellFormed, ExpandDirect, VectorAddr, ExecAll, SameOutside, Simultaneous, Avoids;
    SoundIsDisjoint(sp);
    var n := VectorSize(right).value;
    DoKeepsSound(sp, AllocateOp(n), {});
    var temp := Mem(Allocate(sp, n).value.1, n, tempName, None);
    TargetSize(left, temp);
    DirectAddress(left, temp);
    SliceInside(left);
    BelowAvoids(right, sp.vars, temp.base, temp.base + n);
    TemporarySimultaneous(left, right, temp, subs, st, fuel);
  }

  lemma TargetSize(left: VExpr, temp: VExpr)
    requires left.Mem? && WellFormed(left) && VectorSize(left).Ok?
    requires temp.Mem? && temp.index.None? && VectorSize(left) == VResult.Ok(temp.size)
    ensures Checked(left, temp)
  {
    SizePositive(left);
  }

  /** An assignment under a computed index is one scalar assignment: the value and the index are
      both read before the write. */
  lemma ComputedAssignment(
      left: VExpr, right: VExpr, sp: Space, tempName: string, subs: map<nat, Stmt>, st: State, fuel: nat)
    requires Checked(left, right) && !StaticIndex(left) && ExpandAssign(left, right, sp, tempName).Ok?
    ensures |Vector(right, st.mem)| == 1 && |Vector(left.index.value, st.mem)| >= 1
    ensures var (s, next) := ExpandAssign(left, right, sp, tempName).value;
            var v, i := Vector(right, st.mem)[0], Vector(left.index.value, st.mem)[0];
            && next == sp
            && Exec(s, subs, st, fuel) ==
               if v.None? || i.None? then Fault else
               var p := Element(left.base, left.size, i.value, st.mem);
               if p.None? then Fault else Done(st.(mem := st.mem[p.value := v.value]))
  {
    hide Vector, Eval;
    SizeIsLength(right, st.mem);
    VectorNonEmpty(left.index.value, st.mem);
    ExpandMeaning(right, 0, st.mem);
    ExpandMeaning(left.index.value, 0, st.mem);
    var stmts := Assigns(left, right, 0, 1).value;
    assert Assigns(left, right, 1, 1).value == [];
    var t, x := ExpandTarget(left, 0).value, ExpandAt(right, 0).value;
    assert stmts == [Assign(t, x)] && stmts[1..] == [];
    assert Exec(stmts[0], subs, st, fuel) == ExecAssign(t, x, st);
    assert ExpandAssign(left, right, sp, tempName).value.0 == Block(stmts);
    ExecSingle(stmts[0], subs, st, fuel);
  }

  // ----- expansion is total -----

  lemma TargetTotal(left: VExpr, i: nat)
    requires left.Mem? && WellFormed(left) && VectorSize(left).Ok? && i < VectorSize(left).value
    ensures ExpandTarget(left, i) != VResult.Err(AssertFailed)
  {
    if !StaticIndex(left) {
      VectorNonEmpty(left.index.value, []);
      ExpandMeaning(left.index.value, 0, []);
    }
  }

  lemma {:induction false} AssignsTotal(left: VExpr, right: VExpr, i: nat)
    requires Checked(left, right) && i <= VectorSize(left).value
    ensures Assigns(left, right, i, VectorSize(left).value) != VResult.Err(AssertFailed)
    decreases VectorSize(left).value - i
  {
    hide Vector, ExpandAt, ExpandTarget, VectorSize, WellFormed;
    SizeIsLength(right, []);
    if i < VectorSize(left).value {
      TargetTotal(left, i);
      ExpandMeaning(right, i, []);
      AssignsTotal(left, right, i + 1);
    }
  }

  /** No assertion fails while a size-checked assignment is expanded. */
  lemma ExpansionIsTotal(left: VExpr, right: VExpr, sp: Space, tempName: string)
    requires Checked(left, right)
    ensures ExpandAssign(left, right, sp, tempName) != VResult.Err(AssertFailed)
  {
    hide VectorSize, WellFormed, Assigns, Mentions;
    if !NeedsTemporary(left, right) {
      AssignsTotal(left, right, 0);
    } else if Allocate(sp, VectorSize(right).value).Ok? {
      var n := VectorSize(right).value;
      var temp := Mem(Allocate(sp, n).value.1, n, tempName, None);
      TargetSize(left, temp);
      AssignsTotal(temp, right, 0);
      AssignsTotal(left, temp, 0);
    }
  }

  // ----- assignments with an operator -----

  /** The right side of `left = left op right`, which `left op= right` stands for. */
  function OpAssigned(op: BinOp, left: VExpr, right: VExpr): VExpr { VBinary(op, left, right) }

  ghost function Ones(n: nat): seq<VExpr> { seq(n, _ => VImm(1)) }

  /** `v++` is `v += [1, 1, …]`, with as many ones as v has elements. */
  method MakeOnes(left: VExpr) returns (r: VResult<VExpr>)
    ensures r == if VectorSize(left).Err? then VResult.Err(VectorSize(left).error)
                 else VResult.Ok(Tuple(Ones(VectorSize(left).value)))
  {
    var size := VectorSize(left);
    if size.Err? {
      return VResult.Err(size.error);
    }
    var i := 0;
    var ones: seq<VExpr> := [];
    while i < size.value
      invariant 0 <= i <= size.value && ones == Ones(i)
    {
      ones := ones + [VImm(1)];
      i := i + 1;
    }
    r := VResult.Ok(Tuple(ones));
  }

  lemma {:induction false} OnesValue(n: nat, mem: seq<int16>)
    ensures Vectors(Ones(n), mem) == seq(n, _ => Some(1 as int16)) && TotalSize(Ones(n)) == VResult.Ok(n)
    ensures n >= 1 ==> WellFormed(Tuple(Ones(n)))
    decreases n
  {
    if n > 0 {
      assert Ones(n)[1..] == Ones(n - 1);
      OnesValue(n - 1, mem);
    }
  }

  /** Both sides of `left op= right`, element by element, as they are before. */
  function Combined(op: BinOp, left: VExpr, right: VExpr, mem: seq<int16>): (vals: seq<Cell>)
    requires left.Mem? && StaticIndex(left) && VectorAddr(left).Ok? && VectorSize(left).Ok?
    ensures |vals| == VectorSize(left).value || |vals| == |Vector(right, mem)|
  {
    Zip(op, Stretch(mem, VectorAddr(left).value, VectorSize(left).value), Vector(right, mem))
  }

  /** The run of `left op= right` is the simultaneous assignment of these combinations, in every word
      outside the temporary. Self-reference always takes the detour through a temporary here, unless
      there is only one word. */
  lemma OpAssignmentRuns(
      op: BinOp, left: VExpr, right: VExpr, sp: Space, tempName: string, subs: map<nat, Stmt>, st: State, fuel: nat)
    requires Checked(left, right) && StaticIndex(left) && Placed(left, right, sp) && sp.total <= |st.mem|
    requires ExpandAssign(left, OpAssigned(op, left, right), sp, tempName).Ok?
    ensures VectorAddr(left).Ok? && VectorAddr(left).value + VectorSize(left).value <= sp.free <= |st.mem|
    ensures var (s, next) := ExpandAssign(left, OpAssigned(op, left, right), sp, tempName).value;
            var vals := Combined(op, left, right, st.mem);
            && |vals| == VectorSize(left).value && sp.end <= next.end
            && (next.end > sp.end ==> sp.free <= sp.total - next.end)
            && SameOutside(Exec(s, subs, st, fuel), WrittenAll(vals, VectorAddr(left).value, st),
                           sp.total - next.end, sp.total - sp.end)
  {
    hide Binary16, WellFormed, Mentions, Exec, Stacked, SameOutside, ExpandDirect, Vector, FromSpace;
    var whole := OpAssigned(op, left, right);
    WellFormedOp(op, left, right, sp);
    AssignmentIsSimultaneous(left, whole, sp, tempName, subs, st, fuel);
    SliceInside(left);
    SoundIsDisjoint(sp);
    CombinedIsVector(op, left, right, st.mem);
    LeftInSpace(left, sp);
  }

  lemma LeftInSpace(left: VExpr, sp: Space)
    requires left.Mem? && FromSpace(left, sp.vars)
    ensures left.name in sp.vars && sp.vars[left.name] == Range(left.base, left.size)
  {
  }

  /** All values written from `addr` on, or a fault where one of them is missing. */
  function WrittenAll(vals: seq<Cell>, addr: nat, st: State): Outcome
    requires addr + |vals| <= |st.mem|
  {
    if AllSome(vals, |vals|) then Done(st.(mem := Overwrite(st.mem, addr, vals, |vals|))) else Fault
  }

  lemma WellFormedOp(op: BinOp, left: VExpr, right: VExpr, sp: Space)
    requires Checked(left, right) && Placed(left, right, sp)
    ensures Checked(left, OpAssigned(op, left, right)) && Placed(left, OpAssigned(op, left, right), sp)
  {
  }

  lemma CombinedIsVector(op: BinOp, left: VExpr, right: VExpr, mem: seq<int16>)
    requires Checked(left, right) && StaticIndex(left) && VectorAddr(left).Ok?
    ensures Vector(OpAssigned(op, left, right), mem) == Combined(op, left, right, mem)
    ensures |Combined(op, left, right, mem)| == VectorSize(left).value
  {
    hide Vector, VectorSize, WellFormed, VectorAddr, StaticIndex, Lift2;
    SizeIsLength(right, mem);
    LeftIsStretch(left, mem);
    VectorOfOp(op, left, right, mem);
  }

  lemma VectorOfOp(op: BinOp, left: VExpr, right: VExpr, mem: seq<int16>)
    ensures Vector(OpAssigned(op, left, right), mem) == Zip(op, Vector(left, mem), Vector(right, mem))
  {
  }

  lemma LeftIsStretch(left: VExpr, mem: seq<int16>)
    requires left.Mem? && WellFormed(left) && StaticIndex(left) && VectorAddr(left).Ok? && VectorSize(left).Ok?
    ensures Vector(left, mem) == Stretch(mem, VectorAddr(left).value, VectorSize(left).value)
  {
    if left.index.Some? {
      ImmediateTotal(left.index.value.elems);
    }
  }

  /** The right side of `v++` and `v--`. */
  ghost function OnesFor(left: VExpr): VExpr
    requires VectorSize(left).Ok?
  {
    Tuple(Ones(VectorSize(left).value))
  }

  /** `v++` and `v--` never fault. They change every word of v by one, at sixteen bits, and no other
      word outside the temporary. */
  lemma IncrementRuns(
      op: BinOp, left: VExpr, sp: Space, tempName: string, subs: map<nat, Stmt>, st: State, fuel: nat)
    requires op in {Add, Sub} && left.Mem? && WellFormed(left) && VectorSize(left).Ok?
    requires StaticIndex(left) && FromSpace(left, sp.vars) && Sound(sp) && sp.total <= |st.mem|
    requires ExpandAssign(left, OpAssigned(op, left, OnesFor(left)), sp, tempName).Ok?
    ensures VectorAddr(left).Ok?
    ensures var (s, next) := ExpandAssign(left, OpAssigned(op, left, OnesFor(left)), sp, tempName).value;
            var o, a := Exec(s, subs, st, fuel), VectorAddr(left).value;
            && o.Done? && o.st.out == st.out && |o.st.mem| == |st.mem|
            && forall p | 0 <= p < |st.mem| && !(sp.total - next.end <= p < sp.total - sp.end) ::
                 o.st.mem[p] == if a <= p < a + VectorSize(left).value
                                then Wrap16((st.mem[p] as int) + (if op == Add then 1 else -1)) else st.mem[p]
  {
    hide ExpandAssign, Mentions, Exec, Sound, Vector, WellFormed, VectorSize, VectorAddr, StaticIndex, Combined,
         SameOutside, WrittenAll, Checked, Placed, Wrap16, FromSpace;
    var ones := OnesFor(left);
    OnesChecked(left, sp, st.mem);
    OpAssignmentRuns(op, left, ones, sp, tempName, subs, st, fuel);
    var (s, next) := ExpandAssign(left, OpAssigned(op, left, ones), sp, tempName).value;
    IncrementValues(op, left, st.mem);
    var vals, a := Combined(op, left, ones, st.mem), VectorAddr(left).value;
    WrittenWords(Exec(s, subs, st, fuel), vals, a, st, sp.total - next.end, sp.total - sp.end);
  }

  lemma WrittenWords(o: Outcome, vals: seq<Cell>, a: nat, st: State, lo: int, hi: int)
    requires a + |vals| <= |st.mem| && AllSome(vals, |vals|) && SameOutside(o, WrittenAll(vals, a, st), lo, hi)
    ensures o.Done? && o.st.out == st.out && |o.st.mem| == |st.mem|
    ensures forall p | 0 <= p < |st.mem| && !(lo <= p < hi) ::
              o.st.mem[p] == if a <= p < a + |vals| then vals[p - a].value else st.mem[p]
  {
  }

  lemma IncrementValues(op: BinOp, left: VExpr, mem: seq<int16>)
    requires op in {Add, Sub} && left.Mem? && StaticIndex(left) && VectorAddr(left).Ok? && VectorSize(left).Ok?
    requires VectorAddr(left).value + VectorSize(left).value <= |mem|
    requires Vector(OnesFor(left), mem) == seq(VectorSize(left).value, _ => Some(1 as int16))
    ensures var vals, a := Combined(op, left, OnesFor(left), mem), VectorAddr(left).value;
            && |vals| == VectorSize(left).value && AllSome(vals, |vals|)
            && forall p | a <= p < a + |vals| ::
                 vals[p - a] == Some(Wrap16((mem[p] as int) + (if op == Add then 1 else -1)))
  {
    hide Vector, VectorAddr, VectorSize, Wrap16;
  }

  lemma OnesChecked(left: VExpr, sp: Space, mem: seq<int16>)
    requires left.Mem? && WellFormed(left) && VectorSize(left).Ok? && FromSpace(left, sp.vars) && Sound(sp)
    ensures Checked(left, OnesFor(left)) && Placed(left, OnesFor(left), sp)
    ensures Vector(OnesFor(left), mem) == seq(VectorSize(left).value, _ => Some(1 as int16))
  {
    SizePositive(left);
    OnesValue(VectorSize(left).value, mem);
  }
}
