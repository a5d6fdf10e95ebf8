/** Control stays inside a segment: every jump, branch and fall-through of generated code ends at
    an instruction of the same segment. */
module ControlFlow {
  import opened Words
  import opened Tree
  import opened Shapes
  import opened Bytecode
  import opened CodeGen
  import opened StmtCode
  import opened Relocation

  /** Position p is where an instruction starts, or the end of the code. */
  predicate Boundary(code: seq<word>, p: int)
    decreases |code|
  {
    p == 0 || (code != [] && WordSize(code[0]) <= |code| && p >= WordSize(code[0])
               && Boundary(code[WordSize(code[0])..], p - WordSize(code[0])))
  }

  /** How far control may go from the instruction at p. */
  function Moves(code: seq<word>, p: int): set<int>
    requires 0 <= p < |code|
  {
    var w := code[p];
    if Opcode(w) == STOP || Opcode(w) == SUB_RET then {}
    else if Opcode(w) == JUMP then {SignExtend12(Operand(w))}
    else if Opcode(w) == CONDITIONAL_BRANCH then {2} + if p + 1 < |code| then {Wrap16(code[p + 1])} else {}
    else {WordSize(w) as int}
  }

  lemma {:induction false} BoundaryRange(code: seq<word>, p: int)
    requires Whole(code) && Boundary(code, p)
    ensures 0 <= p <= |code|
    ensures p < |code| ==> p + WordSize(code[p]) <= |code|
    decreases |code|
  {
    hide WordSize;
    if code != [] && p != 0 {
      var n := WordSize(code[0]);
      BoundaryRange(code[n..], p - n);
    }
  }

  /** The boundaries of two pieces of code put together. */
  lemma {:induction false} BoundarySplit(a: seq<word>, b: seq<word>, p: int)
    requires Whole(a)
    ensures Boundary(a + b, p) <==> (Boundary(a, p) && p < |a|) || (p >= |a| && Boundary(b, p - |a|))
    decreases |a|
  {
    hide WordSize;
    if a == [] {
      assert a + b == b;
    } else {
      var n := WordSize(a[0]);
      assert (a + b)[n..] == a[n..] + b && (a + b)[0] == a[0];
      BoundarySplit(a[n..], b, p - n);
    }
  }

  lemma {:induction false} BoundaryEnd(code: seq<word>)
    requires Whole(code)
    ensures Boundary(code, |code|)
    decreases |code|
  {
    hide WordSize;
    if code != [] {
      BoundaryEnd(code[WordSize(code[0])..]);
    }
  }

  lemma BoundaryJoin(a: seq<word>, b: seq<word>, p: int)
    requires Whole(a) && Boundary(b, p) && p >= 0
    ensures Boundary(a + b, |a| + p)
  {
    BoundarySplit(a, b, |a| + p);
  }

  lemma BoundaryPrefix(a: seq<word>, b: seq<word>, p: int)
    requires Whole(a) && Boundary(a, p)
    ensures Boundary(a + b, p)
  {
    BoundaryRange(a, p);
    BoundarySplit(a, b, p);
  }

  /** Standing at `base` in `whole`, the code c only moves to boundaries of `whole`. */
  ghost predicate Into(c: seq<word>, base: nat, whole: seq<word>)
  {
    forall p, d | 0 <= p < |c| && Boundary(c, p) && d in Moves(c, p) :: Boundary(whole, base + p + d)
  }

  /** Whole instructions that only move inside the code or to its end. */
  ghost predicate Contained(c: seq<word>) { Whole(c) && Into(c, 0, c) }

  lemma MovesSplit(a: seq<word>, b: seq<word>, p: int)
    requires Whole(a) && 0 <= p < |a + b| && Boundary(a + b, p)
    ensures p < |a| ==> Boundary(a, p) && Moves(a + b, p) == Moves(a, p)
    ensures p >= |a| ==> Boundary(b, p - |a|) && Moves(a + b, p) == Moves(b, p - |a|)
  {
    BoundarySplit(a, b, p);
    if p < |a| {
      BoundaryRange(a, p);
    }
  }

  lemma IntoConcat(a: seq<word>, b: seq<word>, base: nat, whole: seq<word>)
    requires Whole(a) && Into(a, base, whole) && Into(b, base + |a|, whole)
    ensures Into(a + b, base, whole)
  {
    hide Moves, Boundary, Whole;
    forall p, d | 0 <= p < |a + b| && Boundary(a + b, p) && d in Moves(a + b, p)
      ensures Boundary(whole, base + p + d)
    {
      MovesSplit(a, b, p);
      if p >= |a| {
        assert Boundary(whole, base + |a| + (p - |a|) + d);
      }
    }
  }

  lemma ContainedInto(x: seq<word>, c: seq<word>, y: seq<word>)
    requires Whole(x) && Contained(c)
    ensures Into(c, |x|, x + c + y)
  {
    hide Moves, Boundary;
    forall p, d | 0 <= p < |c| && Boundary(c, p) && d in Moves(c, p)
      ensures Boundary(x + c + y, |x| + p + d)
    {
      assert Boundary(c, 0 + p + d);
      BoundaryRange(c, p + d);
      BoundaryJoin(x, c, p + d);
      WholeConcat(x, c);
      BoundaryPrefix(x + c, y, |x| + p + d);
    }
  }

  lemma ContainedConcat(a: seq<word>, b: seq<word>)
    requires Contained(a) && Contained(b)
    ensures Contained(a + b)
  {
    hide Moves, Boundary, Into, Whole;
    WholeConcat(a, b);
    EmptyIsWhole();
    ContainedInto([], a, b);
    assert [] + a + b == a + b;
    ContainedInto(a, b, []);
    assert a + b + [] == a + b;
    IntoConcat(a, b, 0, a + b);
  }

  lemma EmptyIsWhole()
    ensures Whole([]) && Contained([])
  {
  }

  /** One instruction whose moves are known. */
  lemma OneInto(c: seq<word>, base: nat, whole: seq<word>)
    requires c != [] && WordSize(c[0]) == |c|
    requires forall d | d in Moves(c, 0) :: Boundary(whole, base + d)
    ensures Whole(c) && Into(c, base, whole)
  {
    assert c[|c|..] == [];
    forall p, d | 0 <= p < |c| && Boundary(c, p) && d in Moves(c, p)
      ensures Boundary(whole, base + p + d)
    {
      assert p == 0;
    }
  }

  lemma OneContained(c: seq<word>)
    requires c != [] && WordSize(c[0]) == |c| && Opcode(c[0]) != JUMP && Opcode(c[0]) != CONDITIONAL_BRANCH
    ensures Contained(c)
  {
    assert c[|c|..] == [];
    assert Boundary(c, |c|);
    OneInto(c, 0, c);
  }

  lemma PackContained(opcode: nat, operand: nat, rest: seq<word>)
    requires opcode < 16 && operand < 4096 && opcode != JUMP && opcode != CONDITIONAL_BRANCH
    requires WordSize(opcode * 4096) == 1 + |rest|
    ensures Contained([Pack(opcode, operand)] + rest)
  {
    hide Contained, Pack;
    PackFits(opcode, operand);
    SizeByOpcode(Pack(opcode, operand), opcode * 4096);
    OneContained([Pack(opcode, operand)] + rest);
  }

  lemma WordContained(opcode: nat, operand: nat)
    requires operand < 4096 && opcode in {SMALL_IMMEDIATE, LOAD, STORE, UNARY_ARITHMETIC, BINARY_ARITHMETIC}
    ensures Contained([Pack(opcode, operand)])
  {
    hide Contained, Pack;
    PackContained(opcode, operand, []);
    assert [Pack(opcode, operand)] + [] == [Pack(opcode, operand)];
  }

  lemma PairContained(opcode: nat, operand: nat, w: word)
    requires operand < 4096 && opcode in {LARGE_IMMEDIATE, LOAD_INDIRECT, STORE_INDIRECT}
    ensures Contained([Pack(opcode, operand), w])
  {
    hide Contained, Pack;
    PackContained(opcode, operand, [w]);
    assert [Pack(opcode, operand)] + [w] == [Pack(opcode, operand), w];
  }

  lemma {:induction false} ExprContained(e: Expr)
    requires FitsExpr(e)
    ensures Contained(EmitExpr(e))
  {
    hide Contained, Pack, WordSize;
    match e
    case Imm(v) =>
      if -2048 < v < 2048 {
        WordContained(SMALL_IMMEDIATE, v % 4096);
      } else {
        PairContained(LARGE_IMMEDIATE, 0, v % 65536);
      }
    case Load(addr) => WordContained(LOAD, addr);
    case ArrayRead(base, size, index) =>
      ExprContained(index);
      PairContained(LOAD_INDIRECT, base, size % 65536);
      ContainedConcat(EmitExpr(index), [Pack(LOAD_INDIRECT, base), size % 65536]);
    case Unary(op, a) =>
      ExprContained(a);
      WordContained(UNARY_ARITHMETIC, UnaryCode(op));
      ContainedConcat(EmitExpr(a), [Pack(UNARY_ARITHMETIC, UnaryCode(op))]);
    case Binary(op, l, r) =>
      ExprContained(l);
      ExprContained(r);
      WordContained(BINARY_ARITHMETIC, BinaryCode(op));
      ContainedConcat(EmitExpr(l), EmitExpr(r));
      ContainedConcat(EmitExpr(l) + EmitExpr(r), [Pack(BINARY_ARITHMETIC, BinaryCode(op))]);
  }

  lemma TargetContained(t: Target)
    requires FitsTarget(t)
    ensures Contained(EmitTarget(t))
  {
    hide Contained, Pack;
    match t
    case Store(addr) => WordContained(STORE, addr);
    case ArrayWrite(base, size, index) =>
      ExprContained(index);
      PairContained(STORE_INDIRECT, base, size % 65536);
      ContainedConcat(EmitExpr(index), [Pack(STORE_INDIRECT, base), size % 65536]);
  }

  // ----- branches -----

  lemma BranchInto(edge: bool, op: BinOp, skip: nat, base: nat, whole: seq<word>)
    requires skip < 32768 && Boundary(whole, base + 2) && Boundary(whole, base + skip)
    ensures Whole(EmitBranch(edge, op, skip)) && Into(EmitBranch(edge, op, skip), base, whole)
  {
    hide Pack, Boundary, Wrap16;
    var c := EmitBranch(edge, op, skip);
    PackFits(CONDITIONAL_BRANCH, BinaryCode(op) + if edge then 256 else 0);
    WrapOfWord(skip);
    OneInto(c, base, whole);
  }

  lemma JumpInto(w: word, n: int, base: nat, whole: seq<word>)
    requires Opcode(w) == JUMP && SignExtend12(Operand(w)) == n && Boundary(whole, base + n)
    ensures Whole([w]) && Into([w], base, whole)
  {
    hide Boundary, SignExtend12;
    OneInto([w], base, whole);
  }

  lemma IfContained(edge: bool, op: BinOp, l: Expr, r: Expr, t: seq<word>, f: Option<seq<word>>)
    requires FitsExpr(l) && FitsExpr(r) && Contained(t) && |t| + 3 < 32768
    requires f.Some? ==> Contained(f.value) && |f.value| + 1 < 2048
    ensures Contained(EmitIf(edge, op, l, r, t, f))
  {
    hide Boundary, Moves, Into, Whole, EmitExpr, FitsExpr, Pack;
    var c := EmitExpr(l) + EmitExpr(r);
    ExprContained(l);
    ExprContained(r);
    ContainedConcat(EmitExpr(l), EmitExpr(r));
    if f.None? {
      IfThenContained(edge, op, c, t);
    } else {
      IfElseContained(edge, op, c, t, f.value);
    }
  }

  lemma IfThenContained(edge: bool, op: BinOp, c: seq<word>, t: seq<word>)
    requires Contained(c) && Contained(t) && |t| + 2 < 32768
    ensures Contained(c + EmitBranch(edge, op, 2 + |t|) + t)
  {
    hide Boundary, Moves, Into, Whole, EmitBranch;
    var b := EmitBranch(edge, op, 2 + |t|);
    BranchWhole(edge, op, 2 + |t|);
    var whole := c + b + t;
    WholeConcat(c, b);
    WholeConcat(c + b, t);
    ContainedPrefix(c, b + t);
    Associative(c, b, t);
    BoundaryEnd(whole);
    BoundaryMiddle(c + b, t);
    BranchInto(edge, op, 2 + |t|, |c|, whole);
    ContainedSuffix(c + b, t);
    IntoConcat(c, b, 0, whole);
    IntoConcat(c + b, t, 0, whole);
  }

  lemma BranchWhole(edge: bool, op: BinOp, skip: nat)
    ensures Whole(EmitBranch(edge, op, skip))
  {
    hide Pack;
    PackFits(CONDITIONAL_BRANCH, BinaryCode(op) + if edge then 256 else 0);
    RewriteOne(EmitBranch(edge, op, skip), StopToRet);
  }

  lemma ContainedPrefix(c: seq<word>, y: seq<word>)
    requires Contained(c)
    ensures Into(c, 0, c + y)
  {
    hide Into, Whole;
    EmptyIsWhole();
    ContainedInto([], c, y);
    assert [] + c + y == c + y;
  }

  lemma ContainedSuffix(x: seq<word>, c: seq<word>)
    requires Whole(x) && Contained(c)
    ensures Into(c, |x|, x + c)
  {
    hide Into, Whole;
    ContainedInto(x, c, []);
    assert x + c + [] == x + c;
  }

  lemma BoundaryMiddle(x: seq<word>, y: seq<word>)
    requires Whole(x)
    ensures Boundary(x + y, |x|)
  {
    BoundaryJoin(x, y, 0);
  }

  lemma IfElseContained(edge: bool, op: BinOp, c: seq<word>, t: seq<word>, f: seq<word>)
    requires Contained(c) && Contained(t) && Contained(f) && |t| + 3 < 32768 && |f| + 1 < 2048
    ensures Contained(c + EmitBranch(edge, op, 2 + |t| + 1) + (t + [Pack(JUMP, |f| + 1)] + f))
  {
    hide Boundary, Moves, Into, Whole, EmitBranch, Pack;
    var b, j := EmitBranch(edge, op, 2 + |t| + 1), [Pack(JUMP, |f| + 1)];
    BranchWhole(edge, op, 2 + |t| + 1);
    LeafInert(JUMP, |f| + 1);
    ForwardJumpExact(|f| + 1);
    var cb := c + b;
    var cbt := cb + t;
    var cbtj := cbt + j;
    var whole := cbtj + f;
    assert c + b + (t + j + f) == whole;
    WholeConcat(c, b);
    WholeConcat(cb, t);
    InertWhole(j);
    WholeConcat(cbt, j);
    WholeConcat(cbtj, f);
    assert whole == c + (b + t + j + f) && whole == cb + (t + j + f) && whole == cb + t + (j + f);
    ContainedPrefix(c, b + t + j + f);
    BoundaryMiddle(cb, t + j + f);
    BoundaryMiddle(cbtj, f);
    BoundaryEnd(whole);
    BranchInto(edge, op, 2 + |t| + 1, |c|, whole);
    ContainedInto(cb, t, j + f);
    JumpInto(j[0], |f| + 1, |cbt|, whole);
    ContainedSuffix(cbtj, f);
    IntoConcat(c, b, 0, whole);
    IntoConcat(cb, t, 0, whole);
    IntoConcat(cbt, j, 0, whole);
    IntoConcat(cbtj, f, 0, whole);
  }

  lemma InertWhole(c: seq<word>)
    requires Inert(c)
    ensures Whole(c)
  {
  }

  lemma WhileContained(op: BinOp, l: Expr, r: Expr, b: seq<word>)
    requires FitsExpr(l) && FitsExpr(r) && Contained(b)
    requires |EmitExpr(l)| + |EmitExpr(r)| + |b| + 2 <= 2048
    ensures Contained(EmitWhile(op, l, r, b))
  {
    hide Boundary, Moves, Into, Whole, EmitExpr, FitsExpr, Pack, EmitBranch;
    var c := EmitExpr(l) + EmitExpr(r);
    ExprContained(l);
    ExprContained(r);
    ContainedConcat(EmitExpr(l), EmitExpr(r));
    LoopContained(op, c, b, |c| + |b| + 2);
  }

  lemma LoopContained(op: BinOp, c: seq<word>, b: seq<word>, back: int)
    requires Contained(c) && Contained(b) && back == |c| + |b| + 2 <= 2048
    ensures Contained(c + EmitBranch(false, op, 2 + |b| + 1) + (b + [Pack(JUMP, (-back) % 4096)]))
  {
    hide Boundary, Moves, Into, Whole, EmitBranch, Pack;
    var br, j := EmitBranch(false, op, 2 + |b| + 1), [Pack(JUMP, (-back) % 4096)];
    BranchWhole(false, op, 2 + |b| + 1);
    LeafInert(JUMP, (-back) % 4096);
    InertWhole(j);
    BackwardJumpExact(back);
    PackFits(JUMP, (-back) % 4096);
    var cb := c + br;
    var cbb := cb + b;
    var whole := cbb + j;
    assert c + br + (b + j) == whole;
    WholeConcat(c, br);
    WholeConcat(cb, b);
    WholeConcat(cbb, j);
    assert whole == c + (br + b + j) && whole == cb + (b + j) && whole == cb + b + j;
    ContainedPrefix(c, br + b + j);
    BoundaryMiddle(cb, b + j);
    BoundaryEnd(whole);
    BoundaryStart(whole);
    BranchInto(false, op, 2 + |b| + 1, |c|, whole);
    ContainedInto(cb, b, j);
    JumpInto(j[0], -back, |cbb|, whole);
    IntoConcat(c, br, 0, whole);
    IntoConcat(cb, b, 0, whole);
    IntoConcat(cbb, j, 0, whole);
  }

  lemma BoundaryStart(code: seq<word>)
    ensures Boundary(code, 0)
  {
  }

  // ----- statements and segments -----

  /** Every move of generated code ends at an instruction of the code or at its end. */
  lemma {:induction false} StmtContained(s: Stmt, p: Placement)
    requires Fits(s) && Emittable(s)
    ensures Contained(EmitStmt(s, p))
  {
    hide Contained, Pack, EmitExpr, FitsExpr, BoolNode, EmitBranch, EmitIf, EmitWhile;
    match s
    case Block(stmts) => StmtsContained(stmts, p);
    case Assign(target, value) =>
      ExprContained(value);
      TargetContained(target);
      ContainedConcat(EmitExpr(value), EmitTarget(target));
    case FoldedIf(edge, op, l, r, thn, els) =>
      StmtContained(thn, p);
      EmitLength(thn, p);
      if els.Some? {
        StmtContained(els.value, p);
        EmitLength(els.value, p);
      }
      IfContained(edge, op, l, r, EmitStmt(thn, p), if els.Some? then Some(EmitStmt(els.value, p)) else None);
    case FoldedWhile(op, l, r, body) =>
      StmtContained(body, p);
      EmitLength(body, p);
      WhileContained(op, l, r, EmitStmt(body, p));
    case Emit(event, base, size, pre) =>
      StmtsContained(pre, p);
      var e := [Pack(EMIT, event), base % 65536, size % 65536];
      PackContained(EMIT, event, [base % 65536, size % 65536]);
      assert [Pack(EMIT, event)] + [base % 65536, size % 65536] == e;
      ContainedConcat(EmitAll(pre, p), e);
    case CallSub(id) => CallContained(id, p);
    case Return => StopContained(p);
  }

  lemma {:induction false} StmtsContained(stmts: seq<Stmt>, p: Placement)
    requires forall t | t in stmts :: Fits(t) && Emittable(t)
    ensures Contained(EmitAll(stmts, p))
  {
    hide Contained, Fits, Emittable;
    if stmts == [] {
      EmptyIsWhole();
    } else {
      StmtContained(stmts[0], p);
      StmtsContained(stmts[1..], p);
      ContainedConcat(EmitStmt(stmts[0], p), EmitAll(stmts[1..], p));
    }
  }

  lemma CallContained(id: nat, p: Placement)
    ensures Contained([p.CallWord(id)])
  {
    hide Contained;
    var address := if p.table.Some? && id < |p.table.value| then p.table.value[id] else id;
    ResolvedCallSize(address);
    ResolvedCallOpcode(address);
    OneContained([p.CallWord(id)]);
  }

  lemma ResolvedCallOpcode(address: nat)
    ensures Opcode(Pack(SUB_CALL, address)) == SUB_CALL || Opcode(Pack(SUB_CALL, address)) == 15
  {
    hide Bitwise, Pow2;
    Pow2At16();
    OrHighBits(SUB_CALL, address, 12);
    OrThirteen(address / 4096);
    var v := Bitwise(OrBits, SUB_CALL * 4096, address);
    assert v % 65536 / 4096 == v / 4096 % 16;
  }

  lemma StopContained(p: Placement)
    ensures Contained([p.StopWord()])
  {
    hide Contained, Pack;
    PackFits(STOP, 0);
    OneContained([p.StopWord()]);
  }

  /** Every move from every instruction of the segment ends at an instruction of the segment. */
  ghost predicate Closed(code: seq<word>)
  {
    && Whole(code)
    && forall p, d | 0 <= p < |code| && Boundary(code, p) && d in Moves(code, p) ::
         Boundary(code, p + d) && p + d < |code|
  }

  /** A segment that ends in the closing word of its kind is closed: only STOP, or RET in a
      subroutine, leaves it. */
  lemma ClosedSegment(body: seq<Stmt>, p: Placement)
    requires forall t | t in body :: Fits(t) && Emittable(t)
    ensures Closed(EmitAll(body, p) + [p.StopWord()])
  {
    hide Moves, Boundary, Whole, EmitAll, Fits, Emittable;
    var code, stop := EmitAll(body, p), [p.StopWord()];
    StmtsContained(body, p);
    StopContained(p);
    WholeConcat(code, stop);
    forall q, d | 0 <= q < |code + stop| && Boundary(code + stop, q) && d in Moves(code + stop, q)
      ensures Boundary(code + stop, q + d) && q + d < |code + stop|
    {
      MovesSplit(code, stop, q);
      if q < |code| {
        assert Boundary(code, 0 + q + d);
        BoundaryRange(code, q + d);
        BoundaryPrefix(code, stop, q + d);
      } else {
        StopMoves(p, q - |code|);
      }
    }
  }

  lemma StopMoves(p: Placement, q: int)
    requires q == 0
    ensures Moves([p.StopWord()], q) == {}
  {
    hide Pack;
    PackFits(STOP, 0);
  }
}
