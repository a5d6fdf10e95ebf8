/** What a scalar syntax tree means: sixteen-bit evaluation and big-step execution. */
module Semantics {
  import opened Words
  import opened Tree

  datatype Emission = Emission(event: nat, data: seq<int16>)

  datatype State = State(mem: seq<int16>, out: seq<Emission>)

  function Truth(b: bool): int { if b then 1 else 0 }

  /** The mathematical result of an operator, None where C leaves it undefined or the machine
      raises an error. The machine truncates this result to sixteen bits, the compiler folds
      constants with it at the width of int. */
  function IntOp(op: BinOp, a: int, b: int): Option<int>
  {
    match op
    case ShiftLeft => if 0 <= b < 32 then Some(a * Pow2(b)) else None
    case ShiftRight => if 0 <= b < 32 then Some(a / Pow2(b)) else None
    case Add => Some(a + b)
    case Sub => Some(a - b)
    case Mult => Some(a * b)
    case Div => if b == 0 then None else Some(TruncDiv(a, b))
    case Mod => if b == 0 then None else Some(TruncMod(a, b))
    case BitOr => Some(Bitwise(OrBits, a, b))
    case BitXor => Some(Bitwise(XorBits, a, b))
    case BitAnd => Some(Bitwise(AndBits, a, b))
    case Equal => Some(Truth(a == b))
    case NotEqual => Some(Truth(a != b))
    case Bigger => Some(Truth(a > b))
    case BiggerEqual => Some(Truth(a >= b))
    case Smaller => Some(Truth(a < b))
    case SmallerEqual => Some(Truth(a <= b))
    case Or => Some(Truth(a != 0 || b != 0))
    case And => Some(Truth(a != 0 && b != 0))
  }

  function IntUnary(op: UnOp, a: int): int
  {
    match op
    case Neg => -a
    case Abs => if a < 0 then -a else a
    case BitNot => -1 - a
    case Not => Truth(a == 0)
  }

  function Binary16(op: BinOp, a: int16, b: int16): Option<int16>
  {
    match IntOp(op, a, b)
    case Some(v) => Some(Wrap16(v))
    case None => None
  }

  function Unary16(op: UnOp, a: int16): int16 { Wrap16(IntUnary(op, a)) }

  /** The word that an access to element i of an array designates, None outside the array. */
  function Element(base: nat, size: nat, i: int, mem: seq<int16>): Option<nat>
  {
    if 0 <= i < size && base + i < |mem| then Some(base + i) else None
  }

  /** None is a run-time fault. */
  function Eval(e: Expr, mem: seq<int16>): Option<int16>
  {
    match e
    case Imm(v) => Some(Wrap16(v))
    case Load(addr) => if addr < |mem| then Some(mem[addr]) else None
    case ArrayRead(base, size, index) =>
      var i := Eval(index, mem);
      if i.None? then None else
      var p := Element(base, size, i.value, mem);
      if p.None? then None else Some(mem[p.value])
    case Unary(op, a) =>
      var v := Eval(a, mem);
      if v.None? then None else Some(Unary16(op, v.value))
    case Binary(op, l, r) =>
      var a := Eval(l, mem);
      if a.None? then None else
      var b := Eval(r, mem);
      if b.None? then None else Binary16(op, a.value, b.value)
  }

  function EvalTarget(t: Target, mem: seq<int16>): Option<nat>
  {
    match t
    case Store(addr) => if addr < |mem| then Some(addr) else None
    case ArrayWrite(base, size, index) =>
      var i := Eval(index, mem);
      if i.None? then None else Element(base, size, i.value, mem)
  }

  datatype Outcome = Done(st: State) | Stopped(st: State) | Fault | OutOfFuel
  {
    predicate Ends() { Done? || Stopped? }
  }

  /** Run a statement. `subs` holds the bodies of the subroutines. Fuel only bounds loop
      iterations and calls, so that a run that ends is one that ends for some fuel. */
  function Exec(s: Stmt, subs: map<nat, Stmt>, st: State, fuel: nat): Outcome
    decreases fuel, s
  {
    match s
    case Block(stmts) => ExecAll(stmts, subs, st, fuel)
    case Assign(target, value) => ExecAssign(target, value, st)
    case IfWhen(_, cond, thn, els) =>
      var c := Eval(cond, st.mem);
      if c.None? then Fault
      else if c.value != 0 then Exec(thn, subs, st, fuel)
      else if els.Some? then Exec(els.value, subs, st, fuel)
      else Done(st)
    case FoldedIf(_, op, l, r, thn, els) =>
      var c := Eval(Binary(op, l, r), st.mem);
      if c.None? then Fault
      else if c.value != 0 then Exec(thn, subs, st, fuel)
      else if els.Some? then Exec(els.value, subs, st, fuel)
      else Done(st)
    case While(cond, body) =>
      if fuel == 0 then OutOfFuel else
      var c := Eval(cond, st.mem);
      if c.None? then Fault
      else if c.value == 0 then Done(st)
      else
        var o := Exec(body, subs, st, fuel - 1);
        if o.Done? then Exec(s, subs, o.st, fuel - 1) else o
    case FoldedWhile(op, l, r, body) =>
      if fuel == 0 then OutOfFuel else
      var c := Eval(Binary(op, l, r), st.mem);
      if c.None? then Fault
      else if c.value == 0 then Done(st)
      else
        var o := Exec(body, subs, st, fuel - 1);
        if o.Done? then Exec(s, subs, o.st, fuel - 1) else o
    case Emit(event, base, size, pre) =>
      var o := ExecAll(pre, subs, st, fuel);
      if o.Done? then ExecEmit(event, base, size, o.st) else o
    case CallSub(id) =>
      if id !in subs then Fault
      else if fuel == 0 then OutOfFuel
      else Returned(Exec(subs[id], subs, st, fuel - 1))
    case Return => Stopped(st)
  }

  function ExecAll(stmts: seq<Stmt>, subs: map<nat, Stmt>, st: State, fuel: nat): Outcome
    decreases fuel, stmts
  {
    if stmts == [] then Done(st) else
    var o := Exec(stmts[0], subs, st, fuel);
    if o.Done? then ExecAll(stmts[1..], subs, o.st, fuel) else o
  }

  function ExecAssign(target: Target, value: Expr, st: State): Outcome
  {
    var v := Eval(value, st.mem);
    if v.None? then Fault else
    var p := EvalTarget(target, st.mem);
    if p.None? then Fault else Done(st.(mem := st.mem[p.value := v.value]))
  }

  function ExecEmit(event: nat, base: nat, size: nat, st: State): Outcome
  {
    if base + size <= |st.mem|
    then Done(st.(out := st.out + [Emission(event, st.mem[base..base + size])]))
    else Fault
  }

  /** A return inside a subroutine ends the subroutine only. */
  function Returned(o: Outcome): Outcome { if o.Stopped? then Done(o.st) else o }

  /** More fuel never changes a run that did not run out of it. */
  lemma {:induction false} MoreFuel(s: Stmt, subs: map<nat, Stmt>, st: State, fuel: nat, more: nat)
    requires fuel <= more && !Exec(s, subs, st, fuel).OutOfFuel?
    ensures Exec(s, subs, st, more) == Exec(s, subs, st, fuel)
    decreases fuel, s
  {
    match s
    case Block(stmts) => MoreFuelAll(stmts, subs, st, fuel, more);
    case Assign(_, _) =>
    case IfWhen(_, cond, thn, els) =>
      var c := Eval(cond, st.mem);
      if c.Some? {
        if c.value != 0 {
          MoreFuel(thn, subs, st, fuel, more);
        } else if els.Some? {
          MoreFuel(els.value, subs, st, fuel, more);
        }
      }
    case FoldedIf(_, op, l, r, thn, els) =>
      var c := Eval(Binary(op, l, r), st.mem);
      if c.Some? {
        if c.value != 0 {
          MoreFuel(thn, subs, st, fuel, more);
        } else if els.Some? {
          MoreFuel(els.value, subs, st, fuel, more);
        }
      }
    case While(cond, body) =>
      var c := Eval(cond, st.mem);
      if c.Some? && c.value != 0 {
        var o := Exec(body, subs, st, fuel - 1);
        MoreFuel(body, subs, st, fuel - 1, more - 1);
        if o.Done? {
          MoreFuel(s, subs, o.st, fuel - 1, more - 1);
        }
      }
    case FoldedWhile(op, l, r, body) =>
      var c := Eval(Binary(op, l, r), st.mem);
      if c.Some? && c.value != 0 {
        var o := Exec(body, subs, st, fuel - 1);
        MoreFuel(body, subs, st, fuel - 1, more - 1);
        if o.Done? {
          MoreFuel(s, subs, o.st, fuel - 1, more - 1);
        }
      }
    case Emit(_, _, _, pre) => MoreFuelAll(pre, subs, st, fuel, more);
    case CallSub(id) =>
      if id in subs {
        MoreFuel(subs[id], subs, st, fuel - 1, more - 1);
      }
    case Return =>
  }

  lemma {:induction false} MoreFuelAll(stmts: seq<Stmt>, subs: map<nat, Stmt>, st: State, fuel: nat, more: nat)
    requires fuel <= more && !ExecAll(stmts, subs, st, fuel).OutOfFuel?
    ensures ExecAll(stmts, subs, st, more) == ExecAll(stmts, subs, st, fuel)
    decreases fuel, stmts
  {
    if stmts != [] {
      MoreFuel(stmts[0], subs, st, fuel, more);
      var o := Exec(stmts[0], subs, st, fuel);
      if o.Done? {
        MoreFuelAll(stmts[1..], subs, o.st, fuel, more);
      }
    }
  }

  /** A block runs as its two halves in order. */
  lemma {:induction false} ExecAllConcat(a: seq<Stmt>, b: seq<Stmt>, subs: map<nat, Stmt>, st: State, fuel: nat)
    ensures ExecAll(a + b, subs, st, fuel) ==
            var o := ExecAll(a, subs, st, fuel); if o.Done? then ExecAll(b, subs, o.st, fuel) else o
  {
    if a == [] {
      assert a + b == b;
    } else {
      assert (a + b)[1..] == a[1..] + b;
      var o := Exec(a[0], subs, st, fuel);
      if o.Done? {
        ExecAllConcat(a[1..], b, subs, o.st, fuel);
      }
    }
  }

  lemma ExecSingle(s: Stmt, subs: map<nat, Stmt>, st: State, fuel: nat)
    ensures ExecAll([s], subs, st, fuel) == Exec(s, subs, st, fuel)
  {
    assert [s][1..] == [];
    var o := Exec(s, subs, st, fuel);
    if o.Done? {
      assert ExecAll([], subs, o.st, fuel) == o;
    }
  }
}
