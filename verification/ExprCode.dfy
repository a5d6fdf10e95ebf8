/** The code of an expression pushes its value. */
module ExprCode {
  import opened Words
  import opened Tree
  import opened Semantics
  import opened Shapes
  import opened Bytecode
  import opened CodeGen
  import opened Machine

  /** The code stands at position p of the program. */
  predicate At(prog: seq<word>, p: nat, code: seq<word>)
  {
    p + |code| <= |prog| && prog[p..p + |code|] == code
  }

  lemma AtSplit(prog: seq<word>, p: nat, a: seq<word>, b: seq<word>)
    requires At(prog, p, a + b)
    ensures At(prog, p, a) && At(prog, p + |a|, b)
  {
    var c := prog[p..p + |a + b|];
    assert prog[p..p + |a|] == c[..|a|] == a;
    assert prog[p + |a|..p + |a| + |b|] == c[|a|..] == b;
  }

  lemma AtWord(prog: seq<word>, p: nat, code: seq<word>, i: nat)
    requires At(prog, p, code) && i < |code|
    ensures p + i < |prog| && prog[p + i] == code[i]
  {
    assert prog[p..p + |code|][i] == prog[p + i];
  }

  lemma DecodeBinaryCode(op: BinOp)
    ensures DecodeBinary(BinaryCode(op)) == Some(op)
  {
  }

  lemma DecodeUnaryCode(op: UnOp)
    requires op != Not
    ensures DecodeUnary(UnaryCode(op)) == Some(op)
  {
  }

  /** An expression the machine can evaluate: no logical not in it. */
  predicate NoNot(e: Expr)
  {
    match e
    case Imm(_) => true
    case Load(_) => true
    case ArrayRead(_, _, i) => NoNot(i)
    case Unary(op, a) => op != Not && NoNot(a)
    case Binary(_, l, r) => NoNot(l) && NoNot(r)
  }

  lemma {:induction false} IntShapeNoNot(e: Expr)
    requires IntShape(e)
    ensures NoNot(e)
  {
    match e
    case ArrayRead(_, _, i) => IntShapeNoNot(i);
    case Unary(_, a) => IntShapeNoNot(a);
    case Binary(_, l, r) =>
      IntShapeNoNot(l);
      IntShapeNoNot(r);
    case _ =>
  }

  lemma {:induction false} BoolNodeNoNot(e: Expr)
    requires BoolNode(e)
    ensures NoNot(e)
  {
    if e.op.IsLogic() {
      BoolNodeNoNot(e.left);
      BoolNodeNoNot(e.right);
    } else {
      IntShapeNoNot(e.left);
      IntShapeNoNot(e.right);
    }
  }

  function Size(e: Expr): (n: nat)
    ensures n >= 1
  {
    match e
    case Imm(_) => 1
    case Load(_) => 1
    case ArrayRead(_, _, i) => 1 + Size(i)
    case Unary(_, a) => 1 + Size(a)
    case Binary(_, l, r) => 1 + Size(l) + Size(r)
  }

  /** Where the machine is after the code of an expression. */
  function Pushed(m: Machine, size: nat, v: Option<int16>): Config
  {
    if v.None? then Faulted else Running(m.(pc := m.pc + size, stack := m.stack + [v.value]))
  }

  lemma ImmRuns(vm: VM, v: int32, m: Machine)
    requires At(vm.prog, m.pc, EmitImm(v)) && |m.stack| < vm.limit
    ensures Step(vm, Running(m)) == Pushed(m, |EmitImm(v)|, Some(Wrap16(v)))
  {
    hide Pack, Wrap16, SignExtend12, Unary16, Binary16, Element, ExecEmit, Branch;
    AtWord(vm.prog, m.pc, EmitImm(v), 0);
    if -2048 < v < 2048 {
      PackFits(SMALL_IMMEDIATE, v % 4096);
      SignExtend12Field(v);
      WrapOfWord(v);
    } else {
      AtWord(vm.prog, m.pc, EmitImm(v), 1);
      PackFits(LARGE_IMMEDIATE, 0);
      WrapOfWord(v);
    }
  }

  lemma LoadRuns(vm: VM, addr: nat, m: Machine)
    requires addr < 4096 && At(vm.prog, m.pc, [Pack(LOAD, addr)]) && |m.stack| < vm.limit
    ensures Step(vm, Running(m)) == Pushed(m, 1, Eval(Load(addr), m.st.mem))
  {
    hide Pack, Wrap16, SignExtend12, Unary16, Binary16, Element, ExecEmit, Branch;
    AtWord(vm.prog, m.pc, [Pack(LOAD, addr)], 0);
    PackFits(LOAD, addr);
  }

  lemma LoadIndirectRuns(vm: VM, base: nat, size: nat, m: Machine, i: int16, stack: seq<int16>)
    requires base < 4096 && size < 65536 && At(vm.prog, m.pc, [Pack(LOAD_INDIRECT, base), size % 65536])
    requires m.stack == stack + [i]
    ensures Step(vm, Running(m)) ==
            var p := Element(base, size, i, m.st.mem);
            if p.None? then Faulted
            else Running(m.(pc := m.pc + 2, stack := stack + [m.st.mem[p.value]]))
  {
    hide Pack, Wrap16, SignExtend12, Unary16, Binary16, Element, ExecEmit, Push, Branch;
    var code := [Pack(LOAD_INDIRECT, base), size % 65536];
    AtWord(vm.prog, m.pc, code, 0);
    AtWord(vm.prog, m.pc, code, 1);
    PackFits(LOAD_INDIRECT, base);
    assert Pop(m.stack) == stack;
  }

  lemma UnaryRuns(vm: VM, op: UnOp, m: Machine, v: int16, stack: seq<int16>)
    requires op != Not && At(vm.prog, m.pc, [Pack(UNARY_ARITHMETIC, UnaryCode(op))]) && m.stack == stack + [v]
    ensures Step(vm, Running(m)) == Running(m.(pc := m.pc + 1, stack := stack + [Unary16(op, v)]))
  {
    hide Pack, Wrap16, SignExtend12, Unary16, Binary16, Element, ExecEmit, Push, Branch;
    AtWord(vm.prog, m.pc, [Pack(UNARY_ARITHMETIC, UnaryCode(op))], 0);
    PackFits(UNARY_ARITHMETIC, UnaryCode(op));
    DecodeUnaryCode(op);
    assert Pop(m.stack) == stack;
  }

  lemma BinaryRuns(vm: VM, op: BinOp, m: Machine, a: int16, b: int16, stack: seq<int16>)
    requires At(vm.prog, m.pc, [Pack(BINARY_ARITHMETIC, BinaryCode(op))]) && m.stack == stack + [a] + [b]
    ensures Step(vm, Running(m)) == Replace2(m, Binary16(op, a, b)) && Pop(Pop(m.stack)) == stack
  {
    hide Pack, Wrap16, SignExtend12, Unary16, Binary16, Element, ExecEmit, Push, Branch;
    AtWord(vm.prog, m.pc, [Pack(BINARY_ARITHMETIC, BinaryCode(op))], 0);
    PackFits(BINARY_ARITHMETIC, BinaryCode(op));
    DecodeBinaryCode(op);
    assert Pop(m.stack) == stack + [a];
    assert Pop(Pop(m.stack)) == stack;
  }

  /** The code of an expression pushes exactly its value and leaves the rest alone, or faults when
      the evaluation faults. It needs no more slots than computed. */
  lemma {:induction false} ExprRuns(vm: VM, e: Expr, m: Machine)
    requires NoNot(e) && FitsExpr(e) && At(vm.prog, m.pc, EmitExpr(e)) && |m.stack| + ExprPeak(e) <= vm.limit
    ensures Reaches(vm, Running(m), Pushed(m, |EmitExpr(e)|, Eval(e, m.st.mem)))
    decreases Size(e)
  {
    hide Reaches, Step, Binary16, Unary16, Element, At, Wrap16, Pack, EmitImm;
    match e
    case Imm(v) =>
      ImmRuns(vm, v, m);
      ReachesStep(vm, Running(m), Pushed(m, |EmitExpr(e)|, Eval(e, m.st.mem)));
    case Load(addr) =>
      LoadRuns(vm, addr, m);
      ReachesStep(vm, Running(m), Pushed(m, |EmitExpr(e)|, Eval(e, m.st.mem)));
    case ArrayRead(base, size, index) =>
      AtSplit(vm.prog, m.pc, EmitExpr(index), [Pack(LOAD_INDIRECT, base), size % 65536]);
      ExprRuns(vm, index, m);
      var i := Eval(index, m.st.mem);
      if i.Some? {
        var n := Pushed(m, |EmitExpr(index)|, i);
        LoadIndirectRuns(vm, base, size, n.m, i.value, m.stack);
        ReachesThenStep(vm, Running(m), n, Pushed(m, |EmitExpr(e)|, Eval(e, m.st.mem)));
      }
    case Unary(op, a) =>
      AtSplit(vm.prog, m.pc, EmitExpr(a), [Pack(UNARY_ARITHMETIC, UnaryCode(op))]);
      ExprRuns(vm, a, m);
      var v := Eval(a, m.st.mem);
      if v.Some? {
        var n := Pushed(m, |EmitExpr(a)|, v);
        UnaryRuns(vm, op, n.m, v.value, m.stack);
        ReachesThenStep(vm, Running(m), n, Pushed(m, |EmitExpr(e)|, Eval(e, m.st.mem)));
      }
    case Binary(op, l, r) =>
      AtSplit(vm.prog, m.pc, EmitExpr(l) + EmitExpr(r), [Pack(BINARY_ARITHMETIC, BinaryCode(op))]);
      OperandsRun(vm, l, r, m);
      var a, b := Eval(l, m.st.mem), Eval(r, m.st.mem);
      if a.Some? && b.Some? {
        var n := Operands(m, l, r, a.value, b.value);
        BinaryRuns(vm, op, n, a.value, b.value, m.stack);
        ReachesThenStep(vm, Running(m), Running(n), Pushed(m, |EmitExpr(e)|, Eval(e, m.st.mem)));
      }
  }

  /** The machine with both operands on the stack. */
  function Operands(m: Machine, l: Expr, r: Expr, a: int16, b: int16): Machine
  {
    m.(pc := m.pc + |EmitExpr(l)| + |EmitExpr(r)|, stack := m.stack + [a] + [b])
  }

  lemma {:induction false} OperandsRun(vm: VM, l: Expr, r: Expr, m: Machine)
    requires NoNot(l) && NoNot(r) && FitsExpr(l) && FitsExpr(r)
    requires At(vm.prog, m.pc, EmitExpr(l) + EmitExpr(r))
    requires |m.stack| + Max(ExprPeak(l), 1 + ExprPeak(r)) <= vm.limit
    ensures Reaches(vm, Running(m),
                    var a := Eval(l, m.st.mem);
                    var b := Eval(r, m.st.mem);
                    if a.None? || b.None? then Faulted else Running(Operands(m, l, r, a.value, b.value)))
    decreases Size(l) + Size(r)
  {
    hide Reaches, Step, Eval, EmitExpr, FitsExpr, NoNot, ExprPeak, At, Size;
    AtSplit(vm.prog, m.pc, EmitExpr(l), EmitExpr(r));
    ExprRuns(vm, l, m);
    var a := Eval(l, m.st.mem);
    if a.Some? {
      var n := Pushed(m, |EmitExpr(l)|, a).m;
      ExprRuns(vm, r, n);
      var b := Eval(r, m.st.mem);
      ReachesTransitive(vm, Running(m), Running(n), Pushed(n, |EmitExpr(r)|, b));
    }
  }
}
