/** The stack machine that runs the bytecode, with a bounded stack. */
module Machine {
  import opened Words
  import opened Tree
  import opened Semantics
  import opened Bytecode

  datatype Machine = Machine(pc: nat, stack: seq<int16>, st: State)

  /** Faulted is a run-time error of the program, Overflowed a full stack, Broken an instruction
      stream the machine cannot execute. */
  datatype Config = Running(m: Machine) | Halted(st: State) | Faulted | Overflowed | Broken

  datatype VM = VM(prog: seq<word>, limit: nat)

  function DecodeBinary(n: nat): Option<BinOp>
  {
    match n
    case 0 => Some(ShiftLeft)
    case 1 => Some(ShiftRight)
    case 2 => Some(Add)
    case 3 => Some(Sub)
    case 4 => Some(Mult)
    case 5 => Some(Div)
    case 6 => Some(Mod)
    case 7 => Some(BitOr)
    case 8 => Some(BitXor)
    case 9 => Some(BitAnd)
    case 10 => Some(Equal)
    case 11 => Some(NotEqual)
    case 12 => Some(Bigger)
    case 13 => Some(BiggerEqual)
    case 14 => Some(Smaller)
    case 15 => Some(SmallerEqual)
    case 16 => Some(Or)
    case 17 => Some(And)
    case _ => None
  }

  /** The machine has no logical not. */
  function DecodeUnary(n: nat): Option<UnOp>
  {
    match n
    case 0 => Some(Neg)
    case 1 => Some(Abs)
    case 2 => Some(BitNot)
    case _ => None
  }

  function Top(s: seq<int16>): int16
    requires s != []
  {
    s[|s| - 1]
  }

  function Pop(s: seq<int16>): seq<int16>
    requires s != []
  {
    s[..|s| - 1]
  }

  function Push(vm: VM, m: Machine, v: int16, size: nat): Config
  {
    if |m.stack| < vm.limit then Running(m.(pc := m.pc + size, stack := m.stack + [v])) else Overflowed
  }

  /** Replace the two topmost values by a result. */
  function Replace2(m: Machine, v: Option<int16>): Config
    requires |m.stack| >= 2
  {
    if v.None? then Faulted else Running(m.(pc := m.pc + 1, stack := Pop(Pop(m.stack)) + [v.value]))
  }

  function Branch(m: Machine, v: Option<int16>, skip: word): Config
    requires |m.stack| >= 2
  {
    if v.None? then Faulted else
    var target := m.pc + if v.value != 0 then 2 else Wrap16(skip);
    if target < 0 then Broken else Running(m.(pc := target, stack := Pop(Pop(m.stack))))
  }

  function StepRunning(vm: VM, m: Machine): Config
  {
    if m.pc >= |vm.prog| || m.pc + WordSize(vm.prog[m.pc]) > |vm.prog| then Broken else
    var w := vm.prog[m.pc];
    var op, arg, mem, stack := Opcode(w), Operand(w), m.st.mem, m.stack;
    if op == STOP then Halted(m.st)
    else if op == SMALL_IMMEDIATE then Push(vm, m, SignExtend12(arg), 1)
    else if op == LARGE_IMMEDIATE then Push(vm, m, Wrap16(vm.prog[m.pc + 1]), 2)
    else if op == LOAD then (if arg < |mem| then Push(vm, m, mem[arg], 1) else Faulted)
    else if op == STORE then
      if stack == [] then Broken
      else if arg >= |mem| then Faulted
      else Running(m.(pc := m.pc + 1, stack := Pop(stack), st := m.st.(mem := mem[arg := Top(stack)])))
    else if op == LOAD_INDIRECT then
      if stack == [] then Broken else
      var p := Element(arg, vm.prog[m.pc + 1], Top(stack), mem);
      if p.None? then Faulted
      else Running(m.(pc := m.pc + 2, stack := Pop(stack) + [mem[p.value]]))
    else if op == STORE_INDIRECT then
      if |stack| < 2 then Broken else
      var p := Element(arg, vm.prog[m.pc + 1], Top(stack), mem);
      if p.None? then Faulted
      else Running(m.(pc := m.pc + 2, stack := Pop(Pop(stack)),
                      st := m.st.(mem := mem[p.value := Top(Pop(stack))])))
    else if op == UNARY_ARITHMETIC then
      var u := DecodeUnary(arg % 256);
      if stack == [] || u.None? then Broken
      else Running(m.(pc := m.pc + 1, stack := Pop(stack) + [Unary16(u.value, Top(stack))]))
    else if op == BINARY_ARITHMETIC then
      var b := DecodeBinary(arg % 256);
      if |stack| < 2 || b.None? then Broken
      else Replace2(m, Binary16(b.value, Top(Pop(stack)), Top(stack)))
    else if op == JUMP then
      var target := m.pc + SignExtend12(arg);
      if target < 0 then Broken else Running(m.(pc := target))
    else if op == CONDITIONAL_BRANCH then
      var b := DecodeBinary(arg);  // an edge-triggered branch is not executed by this machine
      if |stack| < 2 || b.None? then Broken
      else Branch(m, Binary16(b.value, Top(Pop(stack)), Top(stack)), vm.prog[m.pc + 1])
    else if op == EMIT then
      var o := ExecEmit(arg, vm.prog[m.pc + 1], vm.prog[m.pc + 2], m.st);
      if o.Done? then Running(m.(pc := m.pc + 3, st := o.st)) else Faulted
    else if op == SUB_CALL then
      if |stack| < vm.limit then Running(m.(pc := arg, stack := stack + [Wrap16(m.pc + 1)])) else Overflowed
    else if op == SUB_RET then
      if stack == [] then Broken else Running(m.(pc := Top(stack) % 65536, stack := Pop(stack)))
    else Broken
  }

  function Step(vm: VM, c: Config): Config { if c.Running? then StepRunning(vm, c.m) else c }

  function Steps(vm: VM, c: Config, n: nat): Config
    decreases n
  {
    if n == 0 then c else Steps(vm, Step(vm, c), n - 1)
  }

  ghost predicate Reaches(vm: VM, a: Config, b: Config) { exists n: nat :: Steps(vm, a, n) == b }

  lemma {:induction false} StepsAdd(vm: VM, c: Config, m: nat, n: nat)
    ensures Steps(vm, c, m + n) == Steps(vm, Steps(vm, c, m), n)
    decreases m
  {
    if m > 0 {
      StepsAdd(vm, Step(vm, c), m - 1, n);
    }
  }

  lemma ReachesTransitive(vm: VM, a: Config, b: Config, c: Config)
    requires Reaches(vm, a, b) && Reaches(vm, b, c)
    ensures Reaches(vm, a, c)
  {
    var m: nat :| Steps(vm, a, m) == b;
    var n: nat :| Steps(vm, b, n) == c;
    StepsAdd(vm, a, m, n);
    assert Steps(vm, a, m + n) == c;
  }

  lemma ReachesSelf(vm: VM, a: Config)
    ensures Reaches(vm, a, a)
  {
    assert Steps(vm, a, 0) == a;
  }

  lemma ReachesStep(vm: VM, a: Config, b: Config)
    requires Step(vm, a) == b
    ensures Reaches(vm, a, b)
  {
    assert Steps(vm, Step(vm, a), 0) == b;
    assert Steps(vm, a, 1) == b;
  }

  lemma ReachesThenStep(vm: VM, a: Config, b: Config, c: Config)
    requires Reaches(vm, a, b) && Step(vm, b) == c
    ensures Reaches(vm, a, c)
  {
    ReachesStep(vm, b, c);
    ReachesTransitive(vm, a, b, c);
  }

  /** A machine that stopped running stays as it is: at most one final configuration is reached. */
  lemma {:induction false} FinalStays(vm: VM, c: Config, n: nat)
    requires !c.Running?
    ensures Steps(vm, c, n) == c
    decreases n
  {
    if n > 0 {
      FinalStays(vm, c, n - 1);
    }
  }

  lemma ReachesUnique(vm: VM, a: Config, b: Config, c: Config)
    requires Reaches(vm, a, b) && Reaches(vm, a, c) && !b.Running? && !c.Running?
    ensures b == c
  {
    var m: nat :| Steps(vm, a, m) == b;
    var n: nat :| Steps(vm, a, n) == c;
    if m <= n {
      StepsAdd(vm, a, m, n - m);
      FinalStays(vm, b, n - m);
    } else {
      StepsAdd(vm, a, n, m - n);
      FinalStays(vm, c, m - n);
    }
  }
}
