/** Programs before vector expansion: what they mean, and that expansion keeps this meaning. */
module VectorProgram {
  import opened Words
  import opened Tree
  import opened Semantics
  import opened VectorTree
  import opened Allocator
  import opened Expansion

  /** A computed payload of an emitted event goes to a temporary the parser has allocated already. */
  datatype VStmt =
    | VBlock(stmts: seq<VStmt>)
    | VAssign(left: VExpr, right: VExpr)
    | VIfWhen(edge: bool, cond: VExpr, thn: VStmt, els: Option<VStmt>)
    | VWhile(cond: VExpr, body: VStmt)
    | VEmit(event: nat, base: nat, size: nat, payload: Option<VExpr>)
    | VCallSub(id: nat)
    | VReturn

  // ----- expansion -----

  /** The statement as expanded and the memory left to allocate. */
  function ExpandStmt(s: VStmt, sp: Space, temp: string): VResult<(Stmt, Space)>
    decreases s
  {
    match s
    case VBlock(stmts) =>
      var r :- ExpandList(stmts, sp, temp);
      VResult.Ok((Block(r.0), r.1))
    case VAssign(left, right) =>
      if !left.Mem? then VResult.Err(IncorrectLeftValue) else ExpandAssign(left, right, sp, temp)
    case VIfWhen(edge, cond, thn, els) =>
      var c :- ExpandAt(cond, 0);
      var t :- ExpandStmt(thn, sp, temp);
      if els.None? then VResult.Ok((IfWhen(edge, c, t.0, None), t.1)) else
      var f :- ExpandStmt(els.value, t.1, temp);
      VResult.Ok((IfWhen(edge, c, t.0, Some(f.0)), f.1))
    case VWhile(cond, body) =>
      var c :- ExpandAt(cond, 0);
      var b :- ExpandStmt(body, sp, temp);
      VResult.Ok((While(c, b.0), b.1))
    case VEmit(event, base, size, None) => VResult.Ok((Emit(event, base, size, []), sp))
    case VEmit(event, base, size, Some(payload)) =>
      var pre :- ExpandAssign(Mem(base, size, temp, None), payload, sp, temp);
      VResult.Ok((Emit(event, base, size, [pre.0]), pre.1))
    case VCallSub(id) => VResult.Ok((CallSub(id), sp))
    case VReturn => VResult.Ok((Return, sp))
  }

  function ExpandList(stmts: seq<VStmt>, sp: Space, temp: string): VResult<(seq<Stmt>, Space)>
    decreases stmts
  {
    if stmts == [] then VResult.Ok(([], sp)) else
    var first :- ExpandStmt(stmts[0], sp, temp);
    var rest :- ExpandList(stmts[1..], first.1, temp);
    VResult.Ok(([first.0] + rest.0, rest.1))
  }

  // ----- meaning -----

  function First(vals: seq<Cell>): Cell { if vals == [] then None else vals[0] }

  /** A vector assignment: under a static index all elements at once, else the one element. */
  function Assigned(left: VExpr, right: VExpr, st: State): Outcome
  {
    var vals := Vector(right, st.mem);
    if !left.Mem? then Fault
    else if StaticIndex(left) then
      var addr := VectorAddr(left);
      if addr.Err? || addr.value + |vals| > |st.mem| then Fault else WrittenAll(vals, addr.value, st)
    else
      var v, i := First(vals), First(Vector(left.index.value, st.mem));
      if v.None? || i.None? then Fault else
      var p := Element(left.base, left.size, i.value, st.mem);
      if p.None? then Fault else Done(st.(mem := st.mem[p.value := v.value]))
  }

  function Values(vals: seq<Cell>): (v: seq<int16>)
    requires AllSome(vals, |vals|)
    ensures |v| == |vals| && forall i | 0 <= i < |v| :: Some(v[i]) == vals[i]
  {
    if vals == [] then [] else [vals[0].value] + Values(vals[1..])
  }

  /** An event carries the values of its payload. No memory changes. */
  function Emitted(event: nat, vals: seq<Cell>, st: State): Outcome {
    if AllSome(vals, |vals|) then Done(st.(out := st.out + [Emission(event, Values(vals))])) else Fault
  }

  /** The run of a vector program, without temporaries. */
  function VExec(s: VStmt, subs: map<nat, VStmt>, st: State, fuel: nat): Outcome
    decreases fuel, s
  {
    match s
    case VBlock(stmts) => VExecAll(stmts, subs, st, fuel)
    case VAssign(left, right) => Assigned(left, right, st)
    case VIfWhen(_, cond, thn, els) =>
      var c := First(Vector(cond, st.mem));
      if c.None? then Fault
      else if c.value != 0 then VExec(thn, subs, st, fuel)
      else if els.Some? then VExec(els.value, subs, st, fuel)
      else Done(st)
    case VWhile(cond, body) =>
      if fuel == 0 then OutOfFuel else
      var c := First(Vector(cond, st.mem));
      if c.None? then Fault
      else if c.value == 0 then Done(st)
      else
        var o := VExec(body, subs, st, fuel - 1);
        if o.Done? then VExec(s, subs, o.st, fuel - 1) else o
    case VEmit(event, base, size, None) => ExecEmit(event, base, size, st)
    case VEmit(event, _, _, Some(payload)) => Emitted(event, Vector(payload, st.mem), st)
    case VCallSub(id) =>
      if id !in subs then Fault
      else if fuel == 0 then OutOfFuel
      else Returned(VExec(subs[id], subs, st, fuel - 1))
    case VReturn => Stopped(st)
  }

  function VExecAll(stmts: seq<VStmt>, subs: map<nat, VStmt>, st: State, fuel: nat): Outcome
    decreases fuel, stmts
  {
    if stmts == [] then Done(st) else
    var o := VExec(stmts[0], subs, st, fuel);
    if o.Done? then VExecAll(stmts[1..], subs, o.st, fuel) else o
  }

  // ----- accepted programs -----

  predicate Scalar(e: VExpr, sp: Space) {
    WellFormed(e) && VectorSize(e) == VResult.Ok(1) && FromSpace(e, sp.vars)
  }

  /** Well-formed trees over the variables of `sp` that pass the size check. Payloads lie in a
      variable or in a temporary. */
  predicate Accepted(s: VStmt, sp: Space)
  {
    match s
    case VBlock(stmts) => forall t | t in stmts :: Accepted(t, sp)
    case VAssign(left, right) => Checked(left, right) && FromSpace(left, sp.vars) && FromSpace(right, sp.vars)
    case VIfWhen(_, cond, thn, els) =>
      Scalar(cond, sp) && Accepted(thn, sp) && (els.Some? ==> Accepted(els.value, sp))
    case VWhile(cond, body) => Scalar(cond, sp) && Accepted(body, sp)
    case VEmit(_, base, size, None) => base + size <= sp.free
    case VEmit(_, base, size, Some(payload)) =>
      && WellFormed(payload) && VectorSize(payload) == VResult.Ok(size) && FromSpace(payload, sp.vars)
      && sp.free <= base && base + size <= sp.total
    case VCallSub(_) => true
    case VReturn => true
  }

  /** The same variables, perhaps with more temporaries. */
  predicate Later(sp: Space, next: Space) {
    Sound(next) && next.vars == sp.vars && next.free == sp.free && next.total == sp.total
  }

  lemma AssignLater(left: VExpr, right: VExpr, sp: Space, temp: string)
    requires Sound(sp) && left.Mem? && ExpandAssign(left, right, sp, temp).Ok?
    ensures Later(sp, ExpandAssign(left, right, sp, temp).value.1)
  {
    hide Mentions, ExpandDirect;
    if NeedsTemporary(left, right) {
      DoKeepsSound(sp, AllocateOp(VectorSize(right).value), {});
    }
  }

  lemma {:induction false} ExpandLater(s: VStmt, sp: Space, temp: string)
    requires Sound(sp) && ExpandStmt(s, sp, temp).Ok?
    ensures Later(sp, ExpandStmt(s, sp, temp).value.1)
  {
    hide ExpandAssign, ExpandAt, Sound;
    match s
    case VBlock(stmts) => ListLater(stmts, sp, temp);
    case VAssign(left, right) => AssignLater(left, right, sp, temp);
    case VIfWhen(_, _, thn, els) =>
      ExpandLater(thn, sp, temp);
      if els.Some? {
        ExpandLater(els.value, ExpandStmt(thn, sp, temp).value.1, temp);
      }
    case VWhile(_, body) => ExpandLater(body, sp, temp);
    case VEmit(_, base, size, Some(payload)) => AssignLater(Mem(base, size, temp, None), payload, sp, temp);
    case _ =>
  }

  lemma {:induction false} ListLater(stmts: seq<VStmt>, sp: Space, temp: string)
    requires Sound(sp) && ExpandList(stmts, sp, temp).Ok?
    ensures Later(sp, ExpandList(stmts, sp, temp).value.1)
  {
    hide ExpandStmt, Sound;
    if stmts != [] {
      ExpandLater(stmts[0], sp, temp);
      ListLater(stmts[1..], ExpandStmt(stmts[0], sp, temp).value.1, temp);
    }
  }

  // ----- states that differ in temporaries only -----

  /** Same events, same memory except in the words kept for temporaries. */
  predicate Alike(a: State, b: State, sp: Space) {
    a.out == b.out && AgreeOutside(a.mem, b.mem, sp.free, sp.total) && sp.total <= |a.mem|
  }

  predicate SameRun(o: Outcome, v: Outcome, sp: Space)
  {
    match v
    case Done(st) => o.Done? && Alike(o.st, st, sp)
    case Stopped(st) => o.Stopped? && Alike(o.st, st, sp)
    case _ => o == v
  }

  predicate AllExpand(e: VExpr, n: nat) { forall i | 0 <= i < n :: ExpandAt(e, i).Ok? }

  /** A value that can be expanded does not depend on temporaries. */
  lemma ValueFrame(e: VExpr, n: nat, sp: Space, a: State, b: State)
    requires WellFormed(e) && VectorSize(e) == VResult.Ok(n) && FromSpace(e, sp.vars) && AllExpand(e, n)
    requires Sound(sp) && Alike(a, b, sp)
    ensures Vector(e, a.mem) == Vector(e, b.mem) && |Vector(e, b.mem)| == n
  {
    hide Vector, VectorSize, WellFormed, FromSpace, ExpandAt, Eval;
    SizeIsLength(e, a.mem);
    SizeIsLength(e, b.mem);
    SoundIsDisjoint(sp);
    BelowAvoids(e, sp.vars, sp.free, sp.total);
    forall i | 0 <= i < n
      ensures Vector(e, a.mem)[i] == Vector(e, b.mem)[i]
    {
      ExpandMeaning(e, i, a.mem);
      ExpandMeaning(e, i, b.mem);
      ExpandAvoids(e, i, sp.free, sp.total);
      EvalFrame(ExpandAt(e, i).value, sp.free, sp.total, a.mem, b.mem);
    }
  }

  /** The first element of an index or a condition. */
  lemma FirstFrame(e: VExpr, sp: Space, a: State, b: State)
    requires WellFormed(e) && FromSpace(e, sp.vars) && ExpandAt(e, 0).Ok? && Sound(sp) && Alike(a, b, sp)
    ensures First(Vector(e, a.mem)) == First(Vector(e, b.mem)) == Eval(ExpandAt(e, 0).value, a.mem)
  {
    hide VectorSize, WellFormed, FromSpace, ExpandAt, Eval;
    VectorNonEmpty(e, a.mem);
    VectorNonEmpty(e, b.mem);
    SoundIsDisjoint(sp);
    BelowAvoids(e, sp.vars, sp.free, sp.total);
    ExpandMeaning(e, 0, a.mem);
    ExpandMeaning(e, 0, b.mem);
    ExpandAvoids(e, 0, sp.free, sp.total);
    EvalFrame(ExpandAt(e, 0).value, sp.free, sp.total, a.mem, b.mem);
  }

  lemma {:induction false} AssignsExpand(left: VExpr, right: VExpr, i: nat, n: nat)
    requires left.Mem? && Assigns(left, right, i, n).Ok?
    ensures forall j | i <= j < n :: ExpandAt(right, j).Ok?
    decreases n - i
  {
    hide ExpandAt, ExpandTarget;
    if i < n {
      AssignsExpand(left, right, i + 1, n);
    }
  }

  lemma RightExpands(left: VExpr, right: VExpr, sp: Space, temp: string)
    requires Checked(left, right) && ExpandAssign(left, right, sp, temp).Ok?
    ensures AllExpand(right, VectorSize(left).value)
  {
    hide ExpandAt, Assigns, WellFormed, Mentions;
    var n := VectorSize(left).value;
    if NeedsTemporary(left, right) {
      AssignsExpand(Mem(Allocate(sp, n).value.1, n, temp, None), right, 0, n);
    } else {
      AssignsExpand(left, right, 0, n);
    }
  }

  lemma WrittenAlike(vals: seq<Cell>, addr: nat, sp: Space, a: State, b: State)
    requires Alike(a, b, sp) && addr + |vals| <= |a.mem|
    ensures addr + |vals| <= |b.mem| && SameRun(WrittenAll(vals, addr, a), WrittenAll(vals, addr, b), sp)
  {
  }

  lemma SameTwice(o: Outcome, m: Outcome, v: Outcome, lo: int, hi: int, sp: Space)
    requires SameOutside(o, m, lo, hi) && SameRun(m, v, sp) && !m.Stopped?
    requires lo < hi ==> sp.free <= lo && hi <= sp.total
    ensures SameRun(o, v, sp)
  {
  }

  lemma AssignRuns(
      left: VExpr, right: VExpr, sp: Space, temp: string, subs: map<nat, Stmt>, a: State, b: State, fuel: nat)
    requires Sound(sp) && Checked(left, right) && FromSpace(left, sp.vars) && FromSpace(right, sp.vars)
    requires ExpandAssign(left, right, sp, temp).Ok? && Alike(a, b, sp)
    ensures SameRun(Exec(ExpandAssign(left, right, sp, temp).value.0, subs, a, fuel), Assigned(left, right, b), sp)
  {
    hide Vector, VectorSize, WellFormed, FromSpace, ExpandAssign, Exec, SameOutside, VectorAddr, Sound, Mentions;
    RightExpands(left, right, sp, temp);
    ValueFrame(right, VectorSize(left).value, sp, a, b);
    if StaticIndex(left) {
      AssignmentIsSimultaneous(left, right, sp, temp, subs, a, fuel);
      var (s, next) := ExpandAssign(left, right, sp, temp).value;
      AssignEnd(left, right, sp, temp);
      WrittenAlike(Vector(right, a.mem), VectorAddr(left).value, sp, a, b);
      SameTwice(Exec(s, subs, a, fuel), Simultaneous(left, right, VectorAddr(left).value, a), Assigned(left, right, b),
                sp.total - next.end, sp.total - sp.end, sp);
    } else {
      ComputedAssignment(left, right, sp, temp, subs, a, fuel);
      ComputedIndex(left, right, sp, temp);
      FirstFrame(left.index.value, sp, a, b);
    }
  }

  lemma AssignEnd(left: VExpr, right: VExpr, sp: Space, temp: string)
    requires left.Mem? && ExpandAssign(left, right, sp, temp).Ok?
    ensures !NeedsTemporary(left, right) ==> ExpandAssign(left, right, sp, temp).value.1 == sp
  {
  }

  lemma ComputedIndex(left: VExpr, right: VExpr, sp: Space, temp: string)
    requires Checked(left, right) && !StaticIndex(left) && FromSpace(left, sp.vars)
    requires ExpandAssign(left, right, sp, temp).Ok?
    ensures WellFormed(left.index.value) && FromSpace(left.index.value, sp.vars) && ExpandAt(left.index.value, 0).Ok?
  {
    assert ExpandTarget(left, 0).Ok?;
  }

  lemma {:induction false} Unmentioned(e: VExpr, vars: map<string, Range>, name: string)
    requires FromSpace(e, vars) && name !in vars
    ensures !Mentions(e, name)
  {
    match e
    case VImm(_) =>
    case Tuple(elems) =>
      forall x | x in elems
        ensures !Mentions(x, name)
      {
        Unmentioned(x, vars, name);
      }
    case Mem(_, _, _, index) =>
      if index.Some? {
        Unmentioned(index.value, vars, name);
      }
    case VUnary(_, a) => Unmentioned(a, vars, name);
    case VBinary(_, l, r) =>
      Unmentioned(l, vars, name);
      Unmentioned(r, vars, name);
  }

  /** The payload goes to the temporary and from there into the event. */
  lemma PayloadRuns(
      s: VStmt, sp: Space, temp: string, subs: map<nat, Stmt>, vsubs: map<nat, VStmt>, a: State, b: State, fuel: nat)
    requires s.VEmit? && s.payload.Some? && Sound(sp) && Accepted(s, sp) && temp !in sp.vars
    requires ExpandStmt(s, sp, temp).Ok? && Alike(a, b, sp)
    ensures SameRun(Exec(ExpandStmt(s, sp, temp).value.0, subs, a, fuel), VExec(s, vsubs, b, fuel), sp)
  {
    hide Vector, VectorSize, WellFormed, FromSpace, Avoids, Mentions, ExpandDirect, Sound;
    var p, place := s.payload.value, Mem(s.base, s.size, temp, None);
    Unmentioned(p, sp.vars, temp);
    PlaceChecked(place, p);
    RightExpands(place, p, sp, temp);
    ValueFrame(p, s.size, sp, a, b);
    SoundIsDisjoint(sp);
    BelowAvoids(p, sp.vars, s.base, s.base + s.size);
    DirectRuns(place, p, s.base, subs, a, fuel);
    var d := ExpandDirect(place, p).value;
    assert ExpandStmt(s, sp, temp).value.0 == Emit(s.event, s.base, s.size, [d]);
    ExecSingle(d, subs, a, fuel);
    PayloadRead(s.event, Vector(p, a.mem), s.base, sp, a, b);
  }

  lemma PlaceChecked(place: VExpr, p: VExpr)
    requires place.Mem? && place.index.None? && WellFormed(p) && VectorSize(p) == VResult.Ok(place.size)
    ensures Checked(place, p) && StaticIndex(place) && VectorAddr(place) == VResult.Ok(place.base)
  {
    SizePositive(p);
  }

  lemma PayloadRead(event: nat, vals: seq<Cell>, base: nat, sp: Space, a: State, b: State)
    requires Alike(a, b, sp) && sp.free <= base && base + |vals| <= sp.total
    ensures var o := WrittenAll(vals, base, a);
            SameRun(if o.Done? then ExecEmit(event, base, |vals|, o.st) else o, Emitted(event, vals, b), sp)
  {
    if AllSome(vals, |vals|) {
      var mem := Overwrite(a.mem, base, vals, |vals|);
      assert mem[base..base + |vals|] == Values(vals);
    }
  }

  // ----- runs -----

  /** The scalar statement that expansion makes of `s`, whatever temporaries are taken by then. */
  ghost predicate Expands(s: VStmt, t: Stmt, sp: Space, temp: string) {
    exists x :: Later(sp, x) && ExpandStmt(s, x, temp).Ok? && ExpandStmt(s, x, temp).value.0 == t
  }

  ghost predicate ExpandsAll(vs: seq<VStmt>, ts: seq<Stmt>, sp: Space, temp: string) {
    |vs| == |ts| && forall i | 0 <= i < |vs| :: Expands(vs[i], ts[i], sp, temp)
  }

  predicate AllAccepted(vs: seq<VStmt>, sp: Space) { forall t | t in vs :: Accepted(t, sp) }

  ghost predicate SubExpands(v: VStmt, s: Stmt, sp: Space, temp: string) {
    v.VBlock? && s.Block? && AllAccepted(v.stmts, sp) && ExpandsAll(v.stmts, s.stmts, sp, temp)
  }

  ghost predicate SubsExpand(vsubs: map<nat, VStmt>, subs: map<nat, Stmt>, sp: Space, temp: string) {
    vsubs.Keys == subs.Keys && forall id | id in vsubs :: SubExpands(vsubs[id], subs[id], sp, temp)
  }

  lemma {:induction false} ListExpands(stmts: seq<VStmt>, sp: Space, x: Space, temp: string)
    requires Later(sp, x) && ExpandList(stmts, x, temp).Ok?
    ensures ExpandsAll(stmts, ExpandList(stmts, x, temp).value.0, sp, temp)
  {
    hide ExpandStmt, Sound;
    if stmts != [] {
      ExpandLater(stmts[0], x, temp);
      var first := ExpandStmt(stmts[0], x, temp).value;
      assert Expands(stmts[0], first.0, sp, temp);
      ListExpands(stmts[1..], sp, first.1, temp);
    }
  }

  /** Expansion keeps the meaning: the scalar run ends like the vector run, with the same events and
      the same memory outside the words kept for temporaries. */
  lemma {:induction false} ExpansionRefines(
      s: VStmt, t: Stmt, sp: Space, temp: string, vsubs: map<nat, VStmt>, subs: map<nat, Stmt>,
      a: State, b: State, fuel: nat)
    requires Sound(sp) && temp !in sp.vars && SubsExpand(vsubs, subs, sp, temp)
    requires Accepted(s, sp) && Expands(s, t, sp, temp) && Alike(a, b, sp)
    ensures SameRun(Exec(t, subs, a, fuel), VExec(s, vsubs, b, fuel), sp)
    decreases fuel, s, 1
  {
    hide Vector, Eval, Sound, Alike, Scalar, Assigned, ExpandAssign, ExpandAt;
    var x :| Later(sp, x) && ExpandStmt(s, x, temp).Ok? && ExpandStmt(s, x, temp).value.0 == t;
    match s
    case VBlock(stmts) =>
      ListExpands(stmts, sp, x, temp);
      AllRefine(stmts, t.stmts, sp, temp, vsubs, subs, a, b, fuel);
    case VAssign(left, right) => AssignRefines(left, right, sp, x, temp, subs, a, b, fuel);
    case VIfWhen(_, _, _, _) => IfRefines(s, t, x, sp, temp, vsubs, subs, a, b, fuel);
    case VWhile(_, _) => WhileRefines(s, t, x, sp, temp, vsubs, subs, a, b, fuel);
    case VEmit(_, _, _, _) => EmitRefines(s, t, x, sp, temp, vsubs, subs, a, b, fuel);
    case VCallSub(id) =>
      if id in vsubs && fuel > 0 {
        assert SubExpands(vsubs[id], subs[id], sp, temp);
        AllRefine(vsubs[id].stmts, subs[id].stmts, sp, temp, vsubs, subs, a, b, fuel - 1);
      }
    case VReturn =>
  }

  lemma {:induction false} AllRefine(
      vs: seq<VStmt>, ts: seq<Stmt>, sp: Space, temp: string, vsubs: map<nat, VStmt>, subs: map<nat, Stmt>,
      a: State, b: State, fuel: nat)
    requires Sound(sp) && temp !in sp.vars && SubsExpand(vsubs, subs, sp, temp)
    requires AllAccepted(vs, sp) && ExpandsAll(vs, ts, sp, temp) && Alike(a, b, sp)
    ensures SameRun(ExecAll(ts, subs, a, fuel), VExecAll(vs, vsubs, b, fuel), sp)
    decreases fuel, vs
  {
    hide Sound, Alike, Accepted, Expands, SubsExpand, Exec, VExec;
    if vs != [] {
      ExpansionRefines(vs[0], ts[0], sp, temp, vsubs, subs, a, b, fuel);
      var o, v := Exec(ts[0], subs, a, fuel), VExec(vs[0], vsubs, b, fuel);
      if v.Done? {
        AllRefine(vs[1..], ts[1..], sp, temp, vsubs, subs, o.st, v.st, fuel);
      }
    }
  }

  lemma AssignRefines(
      left: VExpr, right: VExpr, sp: Space, x: Space, temp: string, subs: map<nat, Stmt>, a: State, b: State, fuel: nat)
    requires Later(sp, x) && Accepted(VAssign(left, right), sp) && Alike(a, b, sp)
    requires ExpandAssign(left, right, x, temp).Ok?
    ensures SameRun(Exec(ExpandAssign(left, right, x, temp).value.0, subs, a, fuel), Assigned(left, right, b), sp)
  {
    hide Sound, ExpandAssign, Assigned, Exec, Checked, FromSpace;
    AssignRuns(left, right, x, temp, subs, a, b, fuel);
  }

  lemma {:induction false} IfRefines(
      s: VStmt, t: Stmt, x: Space, sp: Space, temp: string, vsubs: map<nat, VStmt>, subs: map<nat, Stmt>,
      a: State, b: State, fuel: nat)
    requires s.VIfWhen? && Sound(sp) && temp !in sp.vars && SubsExpand(vsubs, subs, sp, temp)
    requires Accepted(s, sp) && Alike(a, b, sp) && Later(sp, x)
    requires ExpandStmt(s, x, temp).Ok? && ExpandStmt(s, x, temp).value.0 == t
    ensures SameRun(Exec(t, subs, a, fuel), VExec(s, vsubs, b, fuel), sp)
    decreases fuel, s, 0
  {
    hide Vector, Eval, Sound, Alike, SubsExpand, ExpandAt;
    FirstFrame(s.cond, sp, a, b);
    ExpandLater(s.thn, x, temp);
    assert Expands(s.thn, t.thn, sp, temp);
    ExpansionRefines(s.thn, t.thn, sp, temp, vsubs, subs, a, b, fuel);
    if s.els.Some? {
      assert Expands(s.els.value, t.els.value, sp, temp);
      ExpansionRefines(s.els.value, t.els.value, sp, temp, vsubs, subs, a, b, fuel);
    }
  }

  lemma {:induction false} WhileRefines(
      s: VStmt, t: Stmt, x: Space, sp: Space, temp: string, vsubs: map<nat, VStmt>, subs: map<nat, Stmt>,
      a: State, b: State, fuel: nat)
    requires s.VWhile? && Sound(sp) && temp !in sp.vars && SubsExpand(vsubs, subs, sp, temp)
    requires Accepted(s, sp) && Alike(a, b, sp) && Later(sp, x)
    requires ExpandStmt(s, x, temp).Ok? && ExpandStmt(s, x, temp).value.0 == t
    ensures SameRun(Exec(t, subs, a, fuel), VExec(s, vsubs, b, fuel), sp)
    decreases fuel, s, 0
  {
    hide Vector, Eval, Sound, Alike, SubsExpand, ExpandAt;
    FirstFrame(s.cond, sp, a, b);
    if fuel > 0 {
      assert Expands(s.body, t.body, sp, temp) && Expands(s, t, sp, temp);
      ExpansionRefines(s.body, t.body, sp, temp, vsubs, subs, a, b, fuel - 1);
      var o, v := Exec(t.body, subs, a, fuel - 1), VExec(s.body, vsubs, b, fuel - 1);
      if v.Done? {
        ExpansionRefines(s, t, sp, temp, vsubs, subs, o.st, v.st, fuel - 1);
      }
    }
  }

  lemma EmitRefines(
      s: VStmt, t: Stmt, x: Space, sp: Space, temp: string, vsubs: map<nat, VStmt>, subs: map<nat, Stmt>,
      a: State, b: State, fuel: nat)
    requires s.VEmit? && Sound(sp) && temp !in sp.vars && Accepted(s, sp) && Alike(a, b, sp) && Later(sp, x)
    requires ExpandStmt(s, x, temp).Ok? && ExpandStmt(s, x, temp).value.0 == t
    ensures SameRun(Exec(t, subs, a, fuel), VExec(s, vsubs, b, fuel), sp)
  {
    hide Vector, WellFormed, VectorSize, FromSpace, ExpandAssign, ExpandAt;
    if s.payload.Some? {
      PayloadRuns(s, x, temp, subs, vsubs, a, b, fuel);
    } else if s.base + s.size <= |a.mem| {
      assert a.mem[s.base..s.base + s.size] == b.mem[s.base..s.base + s.size];
    }
  }
}
