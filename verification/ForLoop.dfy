/** The `for` loop, which the parser turns into a `while` over sixteen-bit values. */
module ForLoop {
  import opened Words
  import opened Tree
  import opened Semantics
  import opened Allocator
  import opened Confinement

  datatype ForError = NullStep | StartHigherThanEnd | InvalidIncEnd | StartLowerThanEnd | InvalidDecEnd

  datatype ForResult = Built(tree: Stmt) | Rejected(error: ForError)

  // ----- the tree the parser builds -----

  function Set(v: nat, x: int32): Stmt { Assign(Store(v), Imm(x)) }

  function Step(v: nat, s: int16): Stmt { Assign(Store(v), Binary(Add, Load(v), Imm(s))) }

  function Condition(v: nat, a: int16, b: int16): Expr {
    Binary(if a <= b then SmallerEqual else BiggerEqual, Load(v), Imm(b))
  }

  function Loop(v: nat, a: int16, b: int16, s: int16, body: seq<Stmt>): Stmt
  {
    While(Condition(v, a, b), Block(body + [Step(v, s)]))
  }

  /** `for v in a:b step s do body end`, with v the address of the variable. */
  function Desugar(v: nat, a: int16, b: int16, s: int16, body: seq<Stmt>): ForResult
  {
    if s == 0 then Rejected(NullStep)
    else if s > 0 && a > b then Rejected(StartHigherThanEnd)
    else if s > 0 && b == 32767 then Rejected(InvalidIncEnd)
    else if s < 0 && a < b then Rejected(StartLowerThanEnd)
    else if s < 0 && b == -32768 then Rejected(InvalidDecEnd)
    else if a == b then Built(Block([Set(v, a)] + body))
    else Built(Block([Set(v, a), Loop(v, a, b, s, body)]))
  }

  // ----- the values of the loop variable -----

  predicate Beyond(x: int, b: int, s: int) { if s > 0 then x > b else x < b }

  /** Start at a and go on by s as long as the end is not passed. */
  function Values(a: int, b: int, s: int): seq<int>
    requires s != 0
    decreases if s > 0 then b - a else a - b
  {
    if Beyond(a, b, s) then [] else [a] + Values(a + s, b, s)
  }

  function Count(a: int, b: int, s: int): int
    requires s != 0
  {
    if s > 0 then (b - a) / s + 1 else (a - b) / (-s) + 1
  }

  lemma CountStep(a: int, b: int, s: int)
    requires s != 0 && !Beyond(a, b, s)
    ensures if Beyond(a + s, b, s) then Count(a, b, s) == 1 else Count(a, b, s) == 1 + Count(a + s, b, s)
  {
    var d, t := if s > 0 then b - a else a - b, if s > 0 then s else -s;
    if d >= t {
      DivStep(d, t);
    } else {
      DivSmall(d, t);
    }
  }

  lemma DivStep(d: int, t: int)
    requires d >= t > 0
    ensures d / t == 1 + (d - t) / t
  {
    var q, r := (d - t) / t, (d - t) % t;
    assert d - t == q * t + r;
    assert d == (q + 1) * t + r;
    QuotientUnique(d, t, q + 1, r);
  }

  lemma DivSmall(d: int, t: int)
    requires 0 <= d < t
    ensures d / t == 0
  {
    QuotientUnique(d, t, 0, d);
  }

  lemma OneMore(a: int, n: int, s: int)
    ensures (a + s) + n * s == a + (n + 1) * s
  {
  }

  /** The first value past the end, counted from a. */
  function Exit(a: int, b: int, s: int): int
    requires s != 0
    decreases if s > 0 then b - a else a - b
  {
    if Beyond(a, b, s) then a else Exit(a + s, b, s)
  }

  /** There are floor((b - a) / s) + 1 values. The one after them is the first past the end. */
  lemma {:induction false} ValuesCount(a: int, b: int, s: int)
    requires s != 0 && !Beyond(a, b, s)
    ensures |Values(a, b, s)| == Count(a, b, s)
    ensures Exit(a, b, s) == a + Count(a, b, s) * s
    ensures Beyond(Exit(a, b, s), b, s) && !Beyond(Exit(a, b, s) - s, b, s)
    decreases if s > 0 then b - a else a - b
  {
    hide Count;
    CountStep(a, b, s);
    if !Beyond(a + s, b, s) {
      ValuesCount(a + s, b, s);
      OneMore(a, Count(a + s, b, s), s);
    }
  }

  /** The values are a, a + s, a + 2s, and so on, all of them up to the end bound. */
  lemma {:induction false} ValueAt(a: int, b: int, s: int, i: nat)
    requires s != 0 && i < |Values(a, b, s)|
    ensures Values(a, b, s)[i] == a + i * s && !Beyond(a + i * s, b, s)
    decreases i
  {
    if i > 0 {
      ValueAt(a + s, b, s, i - 1);
      OneMore(a, i - 1, s);
    }
  }

  /** A loop is accepted if and only if it has a step, at least one value, and some sixteen-bit number
      lies past its end in the direction of the step. */
  lemma DesugarExact(v: nat, a: int16, b: int16, s: int16, body: seq<Stmt>)
    ensures Desugar(v, a, b, s, body).Built? <==>
            s != 0 && Values(a, b, s) != [] && exists x: int16 :: Beyond(x, b, s)
    ensures Desugar(v, a, b, s, body) == Rejected(NullStep) <==> s == 0
    ensures Desugar(v, a, b, s, body) in {Rejected(StartHigherThanEnd), Rejected(StartLowerThanEnd)} <==>
            s != 0 && Values(a, b, s) == []
  {
    if s > 0 && b < 32767 {
      assert Beyond(32767, b, s);
    }
    if s < 0 && b > -32768 {
      assert Beyond(-32768, b, s);
    }
  }

  // ----- the reference meaning -----

  predicate AllFit(values: seq<int>) { forall i | 0 <= i < |values| :: Int16(values[i]) }

  /** Run the body once for every value, with the variable set to it. */
  function Repeat(body: seq<Stmt>, subs: map<nat, Stmt>, v: nat, values: seq<int>, st: State, fuel: nat): Outcome
    requires AllFit(values)
  {
    if values == [] then Done(st)
    else if v >= |st.mem| then Fault
    else
      var o := ExecAll(body, subs, st.(mem := st.mem[v := values[0]]), fuel);
      if o.Done? then Repeat(body, subs, v, values[1..], o.st, fuel) else o
  }

  /** After the loop the variable holds the first value past the end. */
  function Finish(o: Outcome, v: nat, x: int): Outcome {
    if o.Done? && v < |o.st.mem| then Done(o.st.(mem := o.st.mem[v := Wrap16(x)])) else o
  }

  /** The body never writes the loop variable, nor does any subroutine. */
  ghost predicate LeavesAlone(body: seq<Stmt>, subs: map<nat, Stmt>, v: nat) {
    exists arrays: set<Range> ::
      !Within(v, arrays) && SubsWithin(subs, arrays) && forall s | s in body :: WritesWithin(s, arrays)
  }

  lemma BodyKeeps(body: seq<Stmt>, subs: map<nat, Stmt>, v: nat, st: State, fuel: nat)
    requires LeavesAlone(body, subs, v) && v < |st.mem| && ExecAll(body, subs, st, fuel).Done?
    ensures var t := ExecAll(body, subs, st, fuel).st; |t.mem| == |st.mem| && t.mem[v] == st.mem[v]
  {
    var arrays: set<Range> :|
      !Within(v, arrays) && SubsWithin(subs, arrays) && forall s | s in body :: WritesWithin(s, arrays);
    RunsAllConfined(body, subs, st, fuel, arrays);
  }

  // ----- one iteration -----

  /** The loop is at value x. */
  predicate At(st: State, v: nat, x: int) { v < |st.mem| && st.mem[v] as int == x }

  lemma ConditionMeans(v: nat, a: int16, b: int16, s: int16, st: State, x: int)
    requires At(st, v, x) && s != 0 && a != b && !Beyond(a, b, s)
    ensures Eval(Condition(v, a, b), st.mem).Some?
    ensures Eval(Condition(v, a, b), st.mem).value != 0 <==> !Beyond(x, b, s)
  {
  }

  lemma StepMeans(v: nat, s: int16, subs: map<nat, Stmt>, st: State, x: int, fuel: nat)
    requires At(st, v, x)
    ensures Exec(Step(v, s), subs, st, fuel) == Done(st.(mem := st.mem[v := Wrap16(x + s as int)]))
  {
    assert Eval(Load(v), st.mem) == Some(st.mem[v]) && Eval(Imm(s), st.mem) == Some(s);
    assert Exec(Step(v, s), subs, st, fuel) == ExecAssign(Store(v), Binary(Add, Load(v), Imm(s)), st);
  }

  /** One pass through the body and the increment. */
  lemma PassMeans(body: seq<Stmt>, subs: map<nat, Stmt>, v: nat, s: int16, st: State, x: int, fuel: nat)
    requires At(st, v, x) && LeavesAlone(body, subs, v)
    ensures Exec(Block(body + [Step(v, s)]), subs, st, fuel) == Finish(ExecAll(body, subs, st, fuel), v, x + s)
    ensures var o := ExecAll(body, subs, st, fuel); o.Done? ==> At(o.st, v, x)
  {
    hide Exec, LeavesAlone, ExecAll;
    ExecAllConcat(body, [Step(v, s)], subs, st, fuel);
    BlockMeans(body + [Step(v, s)], subs, st, fuel);
    var o := ExecAll(body, subs, st, fuel);
    if o.Done? {
      BodyKeeps(body, subs, v, st, fuel);
      StepMeans(v, s, subs, o.st, x, fuel);
      ExecSingle(Step(v, s), subs, o.st, fuel);
    }
  }

  lemma BlockMeans(stmts: seq<Stmt>, subs: map<nat, Stmt>, st: State, fuel: nat)
    ensures Exec(Block(stmts), subs, st, fuel) == ExecAll(stmts, subs, st, fuel)
  {
  }

  lemma LoopMeans(
      v: nat, a: int16, b: int16, s: int16, body: seq<Stmt>, subs: map<nat, Stmt>, st: State, x: int, fuel: nat)
    requires At(st, v, x) && s != 0 && a != b && !Beyond(a, b, s) && fuel > 0
    ensures Exec(Loop(v, a, b, s, body), subs, st, fuel) ==
            if Beyond(x, b, s) then Done(st) else
            var o := Exec(Block(body + [Step(v, s)]), subs, st, fuel - 1);
            if o.Done? then Exec(Loop(v, a, b, s, body), subs, o.st, fuel - 1) else o
  {
    hide Eval;
    ConditionMeans(v, a, b, s, st, x);
  }

  // ----- the loop is its reference -----

  lemma {:induction false} ValuesFit(x: int, b: int16, s: int16)
    requires s != 0 && Int16(x)
    ensures AllFit(Values(x, b, s))
    decreases if s > 0 then b - x else x - b
  {
    if !Beyond(x, b, s) && !Beyond(x + s, b, s) {
      ValuesFit(x + s, b, s);
    }
  }

  /** As long as the last value fits, so does each one before it. */
  lemma {:induction false} ExitFits(x: int, b: int16, s: int16)
    requires s != 0 && Int16(Exit(x, b, s)) && (if s > 0 then x >= -32768 else x <= 32767)
    ensures Int16(x)
    decreases if s > 0 then b - x else x - b
  {
  }

  /** With enough fuel the loop does what its reference does. */
  lemma {:induction false} LoopRuns(
      v: nat, a: int16, b: int16, s: int16, body: seq<Stmt>, subs: map<nat, Stmt>, st: State, x: int, fuel: nat, f: nat)
    requires At(st, v, x) && s != 0 && a != b && !Beyond(a, b, s) && LeavesAlone(body, subs, v)
    requires Int16(Exit(x, b, s)) && AllFit(Values(x, b, s))
    requires !Repeat(body, subs, v, Values(x, b, s), st, fuel).OutOfFuel? && f >= fuel + |Values(x, b, s)| + 1
    ensures Exec(Loop(v, a, b, s, body), subs, st, f) ==
            Finish(Repeat(body, subs, v, Values(x, b, s), st, fuel), v, Exit(x, b, s))
    decreases |Values(x, b, s)|
  {
    hide Exec, ExecAll, LeavesAlone, Loop, Wrap16, Exit;
    ExitStep(x, b, s);
    LoopMeans(v, a, b, s, body, subs, st, x, f);
    if Beyond(x, b, s) {
      WrapFits(x);
      assert st.mem[v := Wrap16(x)] == st.mem;
    } else {
      assert st.mem[v := x] == st.mem;
      assert Values(x, b, s)[1..] == Values(x + s, b, s);
      ExitFits(x + s, b, s);
      WrapFits(x + s);
      MoreFuelAll(body, subs, st, fuel, f - 1);
      PassMeans(body, subs, v, s, st, x, f - 1);
      var o := ExecAll(body, subs, st, fuel);
      if o.Done? {
        var next := o.st.(mem := o.st.mem[v := Wrap16(x + s as int)]);
        RepeatFrom(body, subs, v, b, s, x + s, o.st, fuel);
        LoopRuns(v, a, b, s, body, subs, next, x + s, fuel, f - 1);
      }
    }
  }

  /** The value of the variable before a repetition does not matter. */
  lemma RepeatFrom(body: seq<Stmt>, subs: map<nat, Stmt>, v: nat, b: int16, s: int16, x: int, st: State, fuel: nat)
    requires s != 0 && Int16(x) && v < |st.mem| && AllFit(Values(x, b, s))
    ensures var to := st.(mem := st.mem[v := x]);
            Finish(Repeat(body, subs, v, Values(x, b, s), to, fuel), v, Exit(x, b, s)) ==
            Finish(Repeat(body, subs, v, Values(x, b, s), st, fuel), v, Exit(x, b, s))
  {
    hide ExecAll;
    assert st.mem[v := x][v := x] == st.mem[v := x];
    assert st.mem[v := x][v := Wrap16(x)] == st.mem[v := Wrap16(x)];
  }

  lemma WrapFits(x: int)
    requires Int16(x)
    ensures Wrap16(x) == x
  {
  }

  lemma ExitStep(x: int, b: int, s: int)
    requires s != 0
    ensures Exit(x, b, s) == if Beyond(x, b, s) then x else Exit(x + s, b, s)
  {
  }

  /** And a loop that ends, does so because its reference ends. */
  lemma {:induction false} LoopEnds(
      v: nat, a: int16, b: int16, s: int16, body: seq<Stmt>, subs: map<nat, Stmt>, st: State, x: int, f: nat)
    requires At(st, v, x) && s != 0 && a != b && !Beyond(a, b, s) && LeavesAlone(body, subs, v)
    requires Int16(Exit(x, b, s)) && AllFit(Values(x, b, s))
    requires !Exec(Loop(v, a, b, s, body), subs, st, f).OutOfFuel?
    ensures !Repeat(body, subs, v, Values(x, b, s), st, f).OutOfFuel?
    decreases f
  {
    hide Exec, ExecAll, LeavesAlone, Loop, Wrap16, Exit;
    ExitStep(x, b, s);
    if f == 0 {
      NoFuel(v, a, b, s, body, subs, st);
    } else {
      LoopMeans(v, a, b, s, body, subs, st, x, f);
      if !Beyond(x, b, s) {
        assert st.mem[v := x] == st.mem;
        assert Values(x, b, s)[1..] == Values(x + s, b, s);
        ExitFits(x + s, b, s);
        WrapFits(x + s);
        PassMeans(body, subs, v, s, st, x, f - 1);
        MoreFuelAll(body, subs, st, f - 1, f);
        var o := ExecAll(body, subs, st, f - 1);
        if o.Done? {
          var next := o.st.(mem := o.st.mem[v := Wrap16(x + s as int)]);
          LoopEnds(v, a, b, s, body, subs, next, x + s, f - 1);
          RepeatMore(body, subs, v, Values(x + s, b, s), next, f - 1, f);
          RepeatFrom(body, subs, v, b, s, x + s, o.st, f);
        }
      }
    }
  }

  lemma NoFuel(v: nat, a: int16, b: int16, s: int16, body: seq<Stmt>, subs: map<nat, Stmt>, st: State)
    ensures Exec(Loop(v, a, b, s, body), subs, st, 0) == OutOfFuel
  {
  }

  lemma {:induction false} RepeatMore(
      body: seq<Stmt>, subs: map<nat, Stmt>, v: nat, values: seq<int>, st: State, fuel: nat, more: nat)
    requires AllFit(values) && fuel <= more && !Repeat(body, subs, v, values, st, fuel).OutOfFuel?
    ensures Repeat(body, subs, v, values, st, more) == Repeat(body, subs, v, values, st, fuel)
    decreases |values|
  {
    hide ExecAll;
    if values != [] && v < |st.mem| {
      var start := st.(mem := st.mem[v := values[0]]);
      MoreFuelAll(body, subs, start, fuel, more);
      var o := ExecAll(body, subs, start, fuel);
      if o.Done? {
        RepeatMore(body, subs, v, values[1..], o.st, fuel, more);
      }
    }
  }

  // ----- main results -----

  lemma SetMeans(v: nat, x: int16, rest: seq<Stmt>, subs: map<nat, Stmt>, st: State, fuel: nat)
    ensures Exec(Block([Set(v, x)] + rest), subs, st, fuel) ==
            if v < |st.mem| then ExecAll(rest, subs, st.(mem := st.mem[v := x]), fuel) else Fault
  {
    var all := [Set(v, x)] + rest;
    assert all[0] == Set(v, x) && all[1..] == rest;
    assert Wrap16(x) == x && Eval(Imm(x), st.mem) == Some(x);
    assert Exec(all[0], subs, st, fuel) == ExecAssign(Store(v), Imm(x), st);
  }

  /** Equal bounds: the body runs once, and the variable keeps the bound. */
  lemma SingleValue(v: nat, a: int16, s: int16, body: seq<Stmt>, subs: map<nat, Stmt>, st: State, fuel: nat)
    requires Desugar(v, a, a, s, body).Built?
    ensures Values(a, a, s) == [a as int] && Count(a, a, s) == 1
    ensures Exec(Desugar(v, a, a, s, body).tree, subs, st, fuel) == Repeat(body, subs, v, [a as int], st, fuel)
  {
    SetMeans(v, a, body, subs, st, fuel);
    assert Values(a + s, a, s) == [];
    CountStep(a, a, s);
    if v < |st.mem| {
      var o := ExecAll(body, subs, st.(mem := st.mem[v := a]), fuel);
      if o.Done? {
        assert [a as int][1..] == [];
        assert Repeat(body, subs, v, [], o.st, fuel) == o;
      }
    }
  }

  /** Different bounds, and a first value past the end that fits sixteen bits: the body runs
      exactly once for each of the values, and the loop ends if and only if all these runs do. */
  lemma ForRuns(
      v: nat, a: int16, b: int16, s: int16, body: seq<Stmt>, subs: map<nat, Stmt>, st: State, fuel: nat)
    requires Desugar(v, a, b, s, body).Built? && a != b && LeavesAlone(body, subs, v)
    requires Int16(a + Count(a, b, s) * s)
    ensures |Values(a, b, s)| == Count(a, b, s) && AllFit(Values(a, b, s))
    ensures var tree := Desugar(v, a, b, s, body).tree;
            var ref := Repeat(body, subs, v, Values(a, b, s), st, fuel);
            && (!ref.OutOfFuel? ==>
                  forall f | f >= fuel + Count(a, b, s) + 1 ::
                    Exec(tree, subs, st, f) == Finish(ref, v, a + Count(a, b, s) * s))
            && (!Exec(tree, subs, st, fuel).OutOfFuel? ==> !ref.OutOfFuel?)
  {
    hide Exec, ExecAll, LeavesAlone, Loop, Repeat;
    ValuesCount(a, b, s);
    ValuesFit(a, b, s);
    var tree := Desugar(v, a, b, s, body).tree;
    var ref := Repeat(body, subs, v, Values(a, b, s), st, fuel);
    if v >= |st.mem| {
      OutsideFaults(v, a, b, s, body, subs, st);
      RepeatFaults(body, subs, v, Values(a, b, s), st, fuel);
    } else {
      var start := st.(mem := st.mem[v := a]);
      RepeatFrom(body, subs, v, b, s, a, st, fuel);
      RepeatFromSame(body, subs, v, Values(a, b, s), a, st, fuel);
      if !ref.OutOfFuel? {
        forall f | f >= fuel + Count(a, b, s) + 1
          ensures Exec(tree, subs, st, f) == Finish(ref, v, a + Count(a, b, s) * s)
        {
          TreeMeans(v, a, b, s, body, subs, st, f);
          LoopRuns(v, a, b, s, body, subs, start, a, fuel, f);
        }
      }
      TreeMeans(v, a, b, s, body, subs, st, fuel);
      if !Exec(tree, subs, st, fuel).OutOfFuel? {
        LoopEnds(v, a, b, s, body, subs, start, a, fuel);
      }
    }
  }

  lemma TreeMeans(v: nat, a: int16, b: int16, s: int16, body: seq<Stmt>, subs: map<nat, Stmt>, st: State, f: nat)
    requires Desugar(v, a, b, s, body).Built? && a != b
    ensures Exec(Desugar(v, a, b, s, body).tree, subs, st, f) ==
            if v < |st.mem| then Exec(Loop(v, a, b, s, body), subs, st.(mem := st.mem[v := a]), f) else Fault
  {
    hide Exec, ExecAll, Loop, Set;
    var loop := Loop(v, a, b, s, body);
    SetMeans(v, a, [loop], subs, st, f);
    assert [Set(v, a)] + [loop] == [Set(v, a), loop];
    if v < |st.mem| {
      ExecSingle(loop, subs, st.(mem := st.mem[v := a]), f);
    }
  }

  lemma OutsideFaults(v: nat, a: int16, b: int16, s: int16, body: seq<Stmt>, subs: map<nat, Stmt>, st: State)
    requires Desugar(v, a, b, s, body).Built? && a != b && v >= |st.mem|
    ensures forall f :: Exec(Desugar(v, a, b, s, body).tree, subs, st, f) == Fault
  {
    forall f
      ensures Exec(Desugar(v, a, b, s, body).tree, subs, st, f) == Fault
    {
      TreeMeans(v, a, b, s, body, subs, st, f);
    }
  }

  lemma RepeatFaults(body: seq<Stmt>, subs: map<nat, Stmt>, v: nat, values: seq<int>, st: State, fuel: nat)
    requires values != [] && v >= |st.mem| && AllFit(values)
    ensures Repeat(body, subs, v, values, st, fuel) == Fault
  {
  }

  lemma RepeatFromSame(body: seq<Stmt>, subs: map<nat, Stmt>, v: nat, values: seq<int>, x: int16, st: State, fuel: nat)
    requires values != [] && v < |st.mem| && AllFit(values)
    ensures Repeat(body, subs, v, values, st.(mem := st.mem[v := x]), fuel) == Repeat(body, subs, v, values, st, fuel)
  {
    hide ExecAll;
    assert st.mem[v := x][v := values[0]] == st.mem[v := values[0]];
  }

  /** It is enough that one step past the end bound fits. */
  lemma EnoughRoom(a: int16, b: int16, s: int16)
    requires s != 0 && !Beyond(a, b, s) && Int16(b + s)
    ensures Int16(a + Count(a, b, s) * s)
  {
    ValuesCount(a, b, s);
  }

  // ----- when the loop variable wraps around -----

  /** However a loop ends, its condition is false then. */
  lemma {:induction false} ExitsBeyond(
      v: nat, a: int16, b: int16, s: int16, body: seq<Stmt>, subs: map<nat, Stmt>, st: State, f: nat)
    requires v < |st.mem| && s != 0 && a != b && !Beyond(a, b, s) && LeavesAlone(body, subs, v)
    requires Exec(Loop(v, a, b, s, body), subs, st, f).Done?
    ensures var t := Exec(Loop(v, a, b, s, body), subs, st, f).st; v < |t.mem| && Beyond(t.mem[v], b, s)
    decreases f
  {
    hide Exec, ExecAll, LeavesAlone, Loop;
    if f == 0 {
      NoFuel(v, a, b, s, body, subs, st);
    } else {
      LoopMeans(v, a, b, s, body, subs, st, st.mem[v], f);
      if !Beyond(st.mem[v], b, s) {
        PassMeans(body, subs, v, s, st, st.mem[v], f - 1);
        ExitsBeyond(v, a, b, s, body, subs, Exec(Block(body + [Step(v, s)]), subs, st, f - 1).st, f - 1);
      }
    }
  }

  /** A value past the end that does not fit wraps around to one the loop goes on with. */
  lemma WrapsBack(a: int16, b: int16, s: int16)
    requires s != 0 && !Beyond(a, b, s) && !Int16(a + Count(a, b, s) * s)
    ensures !Beyond(Wrap16(a + Count(a, b, s) * s), b, s)
  {
    ValuesCount(a, b, s);
    var x := a + Count(a, b, s) * s;
    if s > 0 {
      assert 32768 <= x <= b + s;
    } else {
      assert b + s <= x < -32768;
    }
  }

  /** Some fuel takes the tree to this outcome. */
  ghost predicate Reaches(tree: Stmt, subs: map<nat, Stmt>, st: State, o: Outcome) {
    exists f: nat :: Exec(tree, subs, st, f) == o
  }

  /** For a body that ends each time, the loop runs it for exactly these values if and only if the
      first value past the end fits sixteen bits. */
  lemma ForExact(v: nat, a: int16, b: int16, s: int16, body: seq<Stmt>, subs: map<nat, Stmt>, st: State, fuel: nat)
    requires Desugar(v, a, b, s, body).Built? && a != b && LeavesAlone(body, subs, v) && v < |st.mem|
    requires AllFit(Values(a, b, s))
    requires Repeat(body, subs, v, Values(a, b, s), st, fuel).Done?
    ensures Reaches(Desugar(v, a, b, s, body).tree, subs, st,
                    Finish(Repeat(body, subs, v, Values(a, b, s), st, fuel), v, a + Count(a, b, s) * s))
            <==> Int16(a + Count(a, b, s) * s)
  {
    hide Exec, ExecAll, LeavesAlone, Loop, Repeat;
    ValuesCount(a, b, s);
    var tree := Desugar(v, a, b, s, body).tree;
    var want := Finish(Repeat(body, subs, v, Values(a, b, s), st, fuel), v, a + Count(a, b, s) * s);
    if Int16(a + Count(a, b, s) * s) {
      ForRuns(v, a, b, s, body, subs, st, fuel);
      assert Exec(tree, subs, st, fuel + Count(a, b, s) + 1) == want;
    } else {
      WrapsBack(a, b, s);
      forall f
        ensures Exec(tree, subs, st, f) != want
      {
        TreeMeans(v, a, b, s, body, subs, st, f);
        if Exec(tree, subs, st, f).Done? {
          ExitsBeyond(v, a, b, s, body, subs, st.(mem := st.mem[v := a]), f);
        }
      }
    }
  }

  // ----- a loop that never ends -----

  /** `for i in 0:32766 step 2 do end`: the variable stays even, hence never passes 32766. */
  lemma {:induction false} EvenForever(st: State, fuel: nat)
    requires |st.mem| == 1 && st.mem[0] % 2 == 0
    ensures Exec(Loop(0, 0, 32766, 2, []), map[], st, fuel) == OutOfFuel
    decreases fuel
  {
    hide Exec, ExecAll, Loop;
    if fuel == 0 {
      NoFuel(0, 0, 32766, 2, [], map[], st);
    } else {
      var x: int := st.mem[0];
      LoopMeans(0, 0, 32766, 2, [], map[], st, x, fuel);
      EmptyLeavesAlone();
      PassMeans([], map[], 0, 2, st, x, fuel - 1);
      EmptyMeans(st, fuel - 1);
      EvenForever(st.(mem := st.mem[0 := Wrap16(x + 2)]), fuel - 1);
    }
  }

  lemma EmptyMeans(st: State, fuel: nat)
    ensures ExecAll([], map[], st, fuel) == Done(st)
  {
  }

  lemma EmptyLeavesAlone()
    ensures LeavesAlone([], map[], 0)
  {
    var none: set<Range> := {};
    assert !Within(0, none) && SubsWithin(map[], none);
  }

  lemma ForCounterexample(fuel: nat)
    ensures var loop := Desugar(0, 0, 32766, 2, []);
            loop.Built? && Exec(loop.tree, map[], State([0], []), fuel) == OutOfFuel
  {
    hide Exec, Loop;
    TreeMeans(0, 0, 32766, 2, [], map[], State([0], []), fuel);
    assert State([0], []).mem[0 := 0] == [0];
    EvenForever(State([0], []), fuel);
  }
}
