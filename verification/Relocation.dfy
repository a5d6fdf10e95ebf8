/** Generated code is made of whole instructions, so that the walks of the back end see exactly
    its instructions: their rewritings give the code of the final placement, and the calls they
    find are the calls in the tree. */
module Relocation {
  import opened Words
  import opened Tree
  import opened Shapes
  import opened Bytecode
  import opened CodeGen
  import opened StmtCode

  // ----- calls found by walking -----

  /** Subroutines called by the instructions of the code. */
  function CallsOf(code: seq<word>): set<nat>
    decreases |code|
  {
    if code == [] then {} else
    var n := if WordSize(code[0]) <= |code| then WordSize(code[0]) else |code|;
    CallAt(code[0]) + CallsOf(code[n..])
  }

  function CallAt(w: word): set<nat> { if Opcode(w) == SUB_CALL then {Operand(w)} else {} }

  lemma {:induction false} CallsConcat(a: seq<word>, b: seq<word>)
    requires Whole(a)
    ensures CallsOf(a + b) == CallsOf(a) + CallsOf(b)
    decreases |a|
  {
    hide WordSize, CallAt;
    if a == [] {
      assert a + b == b;
    } else {
      var n := WordSize(a[0]);
      assert (a + b)[n..] == a[n..] + b && (a + b)[0] == a[0];
      CallsConcat(a[n..], b);
    }
  }

  // ----- code without calls and stops -----

  /** Whole instructions that no rewriting touches. */
  ghost predicate Inert(code: seq<word>)
  {
    Whole(code) && CallsOf(code) == {} && forall r :: Rewrite(code, r) == code
  }

  lemma InertOne(code: seq<word>)
    requires code != [] && WordSize(code[0]) == |code| && Opcode(code[0]) != STOP && Opcode(code[0]) != SUB_CALL
    ensures Inert(code)
  {
    hide WordSize;
    forall r ensures Rewrite(code, r) == code {
      RewriteOne(code, r);
      assert [code[0]] + code[1..] == code;
    }
    RewriteOne(code, StopToRet);
    assert code[|code|..] == [] && CallsOf(code) == CallAt(code[0]) + CallsOf([]) == {};
  }

  lemma InertConcat(a: seq<word>, b: seq<word>)
    requires Inert(a) && Inert(b)
    ensures Inert(a + b)
  {
    hide Whole, CallsOf, Rewrite;
    WholeConcat(a, b);
    CallsConcat(a, b);
    forall r ensures Rewrite(a + b, r) == a + b {
      RewriteConcat(a, b, r);
    }
  }

  lemma InertInstruction(opcode: nat, operand: nat, rest: seq<word>)
    requires opcode < 16 && operand < 4096 && opcode != STOP && opcode != SUB_CALL
    requires WordSize(opcode * 4096) == 1 + |rest|
    ensures Inert([Pack(opcode, operand)] + rest)
  {
    PackFits(opcode, operand);
    SizeByOpcode(Pack(opcode, operand), opcode * 4096);
    InertOne([Pack(opcode, operand)] + rest);
  }

  lemma SizeByOpcode(v: word, w: word)
    requires Opcode(v) == Opcode(w)
    ensures WordSize(v) == WordSize(w)
  {
  }

  lemma {:induction false} ExprInert(e: Expr)
    requires FitsExpr(e)
    ensures Inert(EmitExpr(e))
  {
    hide Inert, Pack, WordSize;
    match e
    case Imm(v) => ImmInert(v);
    case Load(addr) =>
      LeafInert(LOAD, addr);
    case ArrayRead(base, size, index) =>
      ExprInert(index);
      IndirectInert(LOAD_INDIRECT, base, size % 65536);
      InertConcat(EmitExpr(index), [Pack(LOAD_INDIRECT, base), size % 65536]);
    case Unary(op, a) =>
      ExprInert(a);
      LeafInert(UNARY_ARITHMETIC, UnaryCode(op));
      InertConcat(EmitExpr(a), [Pack(UNARY_ARITHMETIC, UnaryCode(op))]);
    case Binary(op, l, r) =>
      ExprInert(l);
      ExprInert(r);
      LeafInert(BINARY_ARITHMETIC, BinaryCode(op));
      InertConcat(EmitExpr(l), EmitExpr(r));
      InertConcat(EmitExpr(l) + EmitExpr(r), [Pack(BINARY_ARITHMETIC, BinaryCode(op))]);
  }

  lemma ImmInert(v: int32)
    ensures Inert(EmitImm(v))
  {
    hide Inert, Pack;
    if -2048 < v < 2048 {
      LeafInert(SMALL_IMMEDIATE, v % 4096);
    } else {
      IndirectInert(LARGE_IMMEDIATE, 0, v % 65536);
    }
  }

  lemma LeafInert(opcode: nat, operand: nat)
    requires operand < 4096
    requires opcode in {SMALL_IMMEDIATE, LOAD, STORE, UNARY_ARITHMETIC, BINARY_ARITHMETIC, JUMP}
    ensures Inert([Pack(opcode, operand)])
  {
    hide Inert, Pack;
    InertInstruction(opcode, operand, []);
    assert [Pack(opcode, operand)] + [] == [Pack(opcode, operand)];
  }

  lemma IndirectInert(opcode: nat, operand: nat, w: word)
    requires operand < 4096
    requires opcode in {LARGE_IMMEDIATE, LOAD_INDIRECT, STORE_INDIRECT, CONDITIONAL_BRANCH}
    ensures Inert([Pack(opcode, operand), w])
  {
    hide Inert, Pack;
    InertInstruction(opcode, operand, [w]);
    assert [Pack(opcode, operand)] + [w] == [Pack(opcode, operand), w];
  }

  lemma EventInert(event: nat, base: word, size: word)
    requires event < 4096
    ensures Inert([Pack(EMIT, event), base, size])
  {
    hide Inert, Pack;
    InertInstruction(EMIT, event, [base, size]);
    assert [Pack(EMIT, event)] + [base, size] == [Pack(EMIT, event), base, size];
  }

  lemma TargetInert(t: Target)
    requires FitsTarget(t)
    ensures Inert(EmitTarget(t))
  {
    hide Inert, Pack;
    match t
    case Store(addr) => LeafInert(STORE, addr);
    case ArrayWrite(base, size, index) =>
      ExprInert(index);
      IndirectInert(STORE_INDIRECT, base, size % 65536);
      InertConcat(EmitExpr(index), [Pack(STORE_INDIRECT, base), size % 65536]);
  }

  lemma ConditionInert(op: BinOp, edge: bool, l: Expr, r: Expr, skip: nat)
    requires FitsExpr(l) && FitsExpr(r)
    ensures Inert(EmitExpr(l) + EmitExpr(r) + EmitBranch(edge, op, skip))
  {
    hide Inert, Pack, EmitExpr, FitsExpr;
    ExprInert(l);
    ExprInert(r);
    IndirectInert(CONDITIONAL_BRANCH, BinaryCode(op) + if edge then 256 else 0, skip % 65536);
    InertConcat(EmitExpr(l), EmitExpr(r));
    InertConcat(EmitExpr(l) + EmitExpr(r), EmitBranch(edge, op, skip));
  }

  // ----- statements -----

  /** The placement of code of placement p after a rewriting. */
  function Replaced(p: Placement, r: Rewriting): Placement
  {
    match r
    case StopToRet => p.(sub := true)
    case Resolve(table) => p.(table := Some(table))
  }

  /** The code of a statement: whole instructions, whose calls are those of the tree, and which
      rewriting turns into the code of the new placement. */
  ghost predicate Relocates(code: seq<word>, calls: set<nat>, r: Rewriting, placed: seq<word>)
  {
    Whole(code) && CallsOf(code) == calls && Rewrite(code, r) == placed
  }

  lemma InertRelocates(code: seq<word>, r: Rewriting)
    requires Inert(code)
    ensures Relocates(code, {}, r, code)
  {
  }

  lemma RelocatesConcat(a: seq<word>, b: seq<word>, c: set<nat>, d: set<nat>, r: Rewriting, x: seq<word>, y: seq<word>)
    requires Relocates(a, c, r, x) && Relocates(b, d, r, y)
    ensures Relocates(a + b, c + d, r, x + y)
  {
    hide Whole, CallsOf, Rewrite;
    WholeConcat(a, b);
    CallsConcat(a, b);
    RewriteConcat(a, b, r);
  }

  lemma {:induction false} StmtRelocates(s: Stmt, p: Placement, r: Rewriting)
    requires Fits(s) && p.table.None? && Emittable(s)
    ensures Relocates(EmitStmt(s, p), Callees(s), r, EmitStmt(s, Replaced(p, r)))
    decreases s, 1
  {
    hide Inert, Relocates, Pack, EmitExpr, FitsExpr, BoolNode, EmitBranch;
    match s
    case Block(stmts) => StmtsRelocate(stmts, p, r);
    case Assign(target, value) =>
      ExprInert(value);
      TargetInert(target);
      InertConcat(EmitExpr(value), EmitTarget(target));
      InertRelocates(EmitExpr(value) + EmitTarget(target), r);
    case FoldedIf(edge, op, l, r', thn, els) => IfRelocates(edge, op, l, r', thn, els, p, r);
    case FoldedWhile(op, l, r', body) => WhileRelocates(op, l, r', body, p, r);
    case Emit(event, base, size, pre) =>
      var e := [Pack(EMIT, event), base % 65536, size % 65536];
      StmtsRelocate(pre, p, r);
      EventInert(event, base % 65536, size % 65536);
      InertRelocates(e, r);
      RelocatesConcat(EmitAll(pre, p), e, CalleesAll(pre), {}, r, EmitAll(pre, Replaced(p, r)), e);
      assert CalleesAll(pre) + {} == CalleesAll(pre);
    case CallSub(id) => CallRelocates(id, p, r);
    case Return => ReturnRelocates(p, r);
  }

  lemma {:induction false} StmtsRelocate(stmts: seq<Stmt>, p: Placement, r: Rewriting)
    requires (forall t | t in stmts :: Fits(t) && Emittable(t)) && p.table.None?
    ensures Relocates(EmitAll(stmts, p), CalleesAll(stmts), r, EmitAll(stmts, Replaced(p, r)))
    decreases stmts, 0
  {
    if stmts == [] {
    } else {
      hide Relocates, Fits, Emittable;
      StmtRelocates(stmts[0], p, r);
      StmtsRelocate(stmts[1..], p, r);
      var q := Replaced(p, r);
      RelocatesConcat(EmitStmt(stmts[0], p), EmitAll(stmts[1..], p), Callees(stmts[0]), CalleesAll(stmts[1..]), r,
                      EmitStmt(stmts[0], q), EmitAll(stmts[1..], q));
    }
  }

  lemma CallRelocates(id: nat, p: Placement, r: Rewriting)
    requires id < 4096 && p.table.None?
    ensures Relocates([p.CallWord(id)], {id}, r, [Replaced(p, r).CallWord(id)])
  {
    hide Pack;
    var w := Pack(SUB_CALL, id);
    PackFits(SUB_CALL, id);
    RewriteOne([w], r);
    assert [w][1..] == [] && [RewriteWord(w, r)] + [] == [RewriteWord(w, r)];
    assert CallsOf([w]) == {id} + CallsOf([]);
  }

  lemma ReturnRelocates(p: Placement, r: Rewriting)
    requires p.table.None?
    ensures Relocates([p.StopWord()], {}, r, [Replaced(p, r).StopWord()])
  {
    hide Pack;
    var w := p.StopWord();
    PackFits(STOP, 0);
    RewriteOne([w], r);
    assert [w][1..] == [] && [RewriteWord(w, r)] + [] == [RewriteWord(w, r)];
    assert CallsOf([w]) == {} + CallsOf([]);
  }

  lemma {:induction false} IfRelocates(
      edge: bool, op: BinOp, l: Expr, r: Expr, thn: Stmt, els: Option<Stmt>, p: Placement, rw: Rewriting)
    requires var s := FoldedIf(edge, op, l, r, thn, els); Fits(s) && p.table.None? && Emittable(s)
    ensures var s := FoldedIf(edge, op, l, r, thn, els);
            Relocates(EmitStmt(s, p), Callees(s), rw, EmitStmt(s, Replaced(p, rw)))
    decreases FoldedIf(edge, op, l, r, thn, els), 0
  {
    hide Inert, Relocates, Pack, EmitExpr, FitsExpr, BoolNode, EmitBranch;
    var q := Replaced(p, rw);
    var t, t' := EmitStmt(thn, p), EmitStmt(thn, q);
    EmitLength(thn, p);
    EmitLength(thn, q);
    StmtRelocates(thn, p, rw);
    var skip := 2 + |t| + if els.Some? then 1 else 0;
    var c := EmitExpr(l) + EmitExpr(r) + EmitBranch(edge, op, skip);
    ConditionInert(op, edge, l, r, skip);
    InertRelocates(c, rw);
    if els.None? {
      RelocatesConcat(c, t, {}, Callees(thn), rw, c, t');
      assert {} + Callees(thn) == Callees(thn) + {};
    } else {
      var f, f' := EmitStmt(els.value, p), EmitStmt(els.value, q);
      EmitLength(els.value, p);
      EmitLength(els.value, q);
      StmtRelocates(els.value, p, rw);
      var j := [Pack(JUMP, |f| + 1)];
      LeafInert(JUMP, |f| + 1);
      InertRelocates(j, rw);
      RelocatesConcat(t, j, Callees(thn), {}, rw, t', j);
      RelocatesConcat(t + j, f, Callees(thn) + {}, Callees(els.value), rw, t' + j, f');
      RelocatesConcat(c, t + j + f, {}, Callees(thn) + {} + Callees(els.value), rw, c, t' + j + f');
      assert {} + (Callees(thn) + {} + Callees(els.value)) == Callees(thn) + Callees(els.value);
    }
  }

  lemma {:induction false} WhileRelocates(op: BinOp, l: Expr, r: Expr, body: Stmt, p: Placement, rw: Rewriting)
    requires var s := FoldedWhile(op, l, r, body); Fits(s) && p.table.None? && Emittable(s)
    ensures var s := FoldedWhile(op, l, r, body);
            Relocates(EmitStmt(s, p), Callees(s), rw, EmitStmt(s, Replaced(p, rw)))
    decreases FoldedWhile(op, l, r, body), 0
  {
    hide Inert, Relocates, Pack, EmitExpr, FitsExpr, BoolNode, EmitBranch;
    var q := Replaced(p, rw);
    var b, b' := EmitStmt(body, p), EmitStmt(body, q);
    EmitLength(body, p);
    EmitLength(body, q);
    StmtRelocates(body, p, rw);
    var c := EmitExpr(l) + EmitExpr(r) + EmitBranch(false, op, 2 + |b| + 1);
    ConditionInert(op, false, l, r, 2 + |b| + 1);
    InertRelocates(c, rw);
    var back := (-(|EmitExpr(l)| + |EmitExpr(r)| + |b| + 2)) % 4096;
    var j := [Pack(JUMP, back)];
    LeafInert(JUMP, back);
    InertRelocates(j, rw);
    RelocatesConcat(b, j, Callees(body), {}, rw, b', j);
    RelocatesConcat(c, b + j, {}, Callees(body) + {}, rw, c, b' + j);
    assert {} + (Callees(body) + {}) == Callees(body);
  }
}
