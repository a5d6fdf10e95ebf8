/** Exactly when control can reach the end of generated code. */
module FallThrough {
  import opened Words
  import opened Tree
  import opened Shapes
  import opened Bytecode
  import opened CodeGen
  import opened StmtCode
  import opened Relocation
  import opened ControlFlow

  /** n moves lead from p to q. */
  ghost predicate Leads(code: seq<word>, p: int, q: int, n: nat)
    decreases n
  {
    if n == 0 then p == q
    else 0 <= p < |code| && exists d | d in Moves(code, p) :: Leads(code, p + d, q, n - 1)
  }

  ghost predicate Passes(code: seq<word>, p: int, q: int) { exists n: nat :: Leads(code, p, q, n) }

  /** Control that enters at the start can come to the end. */
  ghost predicate Falls(code: seq<word>) { Passes(code, 0, |code|) }

  // ----- paths -----

  lemma {:induction false} LeadsOn(code: seq<word>, p: int, q: int, r: int, m: nat, n: nat)
    requires Leads(code, p, q, m) && Leads(code, q, r, n)
    ensures Leads(code, p, r, m + n)
    decreases m
  {
    hide Moves;
    if m > 0 {
      var d :| d in Moves(code, p) && Leads(code, p + d, q, m - 1);
      LeadsOn(code, p + d, q, r, m - 1, n);
    }
  }

  lemma LeadsOne(code: seq<word>, p: int, d: int)
    requires 0 <= p < |code| && d in Moves(code, p)
    ensures Leads(code, p, p + d, 1)
  {
    assert Leads(code, p + d, p + d, 0);
  }

  /** In the middle of other code, code moves as it does alone. */
  lemma MovesMiddle(x: seq<word>, t: seq<word>, y: seq<word>, p: int)
    requires Whole(t) && Boundary(t, p) && p < |t|
    ensures 0 <= p && Moves(x + t + y, |x| + p) == Moves(t, p)
  {
    BoundaryRange(t, p);
    var whole := x + t + y;
    assert whole[|x| + p] == t[p];
    if Opcode(t[p]) == CONDITIONAL_BRANCH {
      assert whole[|x| + p + 1] == t[p + 1];
    }
  }

  /** Whatever path contained code allows, the code around it allows as well. */
  lemma {:induction false} LeadsLifts(x: seq<word>, t: seq<word>, y: seq<word>, p: int, q: int, n: nat)
    requires Contained(t) && Boundary(t, p) && Leads(t, p, q, n)
    ensures Leads(x + t + y, |x| + p, |x| + q, n)
    decreases n
  {
    hide Moves, Boundary, Whole;
    if n > 0 {
      var d :| d in Moves(t, p) && Leads(t, p + d, q, n - 1);
      MovesMiddle(x, t, y, p);
      assert Boundary(t, 0 + p + d);
      LeadsLifts(x, t, y, p + d, q, n - 1);
      assert Leads(x + t + y, |x| + p + d, |x| + q, n - 1);
    }
  }

  /** A path out of contained code goes through its end. */
  lemma {:induction false} LeadsThrough(x: seq<word>, t: seq<word>, y: seq<word>, p: int, e: int, n: nat)
    returns (k: nat)
    requires Contained(t) && Boundary(t, p) && Leads(x + t + y, |x| + p, e, n) && e >= |x| + |t|
    ensures k <= n && Leads(t, p, |t|, k) && Leads(x + t + y, |x| + |t|, e, n - k)
    decreases n
  {
    hide Moves, Boundary, Whole;
    BoundaryRange(t, p);
    if p == |t| {
      k := 0;
    } else {
      var d :| d in Moves(x + t + y, |x| + p) && Leads(x + t + y, |x| + p + d, e, n - 1);
      MovesMiddle(x, t, y, p);
      assert Boundary(t, 0 + p + d);
      k := LeadsThrough(x, t, y, p + d, e, n - 1);
      k := k + 1;
    }
  }

  /** Control can come from the start of contained code to its end in the middle of other code
      exactly if it falls through the code alone. */
  lemma FallsInto(x: seq<word>, t: seq<word>, y: seq<word>)
    requires Contained(t)
    ensures Falls(t) <==> Passes(x + t + y, |x|, |x| + |t|)
  {
    BoundaryStart(t);
    if n: nat :| Leads(t, 0, |t|, n) {
      LeadsLifts(x, t, y, 0, |t|, n);
    }
    if Passes(x + t + y, |x|, |x| + |t|) {
      var whole := x + t + y;
      var n: nat :| Leads(whole, |x|, |x| + |t|, n);
      var k := LeadsThrough(x, t, y, 0, |x| + |t|, n);
    }
  }

  /** Control falls through two pieces exactly if it falls through both. */
  lemma FallsConcat(a: seq<word>, b: seq<word>)
    requires Contained(a) && Contained(b)
    ensures Falls(a + b) <==> Falls(a) && Falls(b)
  {
    hide Moves, Boundary, Contained;
    var whole := a + b;
    assert [] + a + b == whole && a + b + [] == whole;
    BoundaryStart(a);
    BoundaryStart(b);
    if Falls(a) && Falls(b) {
      var m: nat :| Leads(a, 0, |a|, m);
      var n: nat :| Leads(b, 0, |b|, n);
      LeadsLifts([], a, b, 0, |a|, m);
      LeadsLifts(a, b, [], 0, |b|, n);
      LeadsOn(whole, 0, |a|, |whole|, m, n);
    }
    if n: nat :| Leads(whole, 0, |whole|, n) {
      var k := LeadsThrough([], a, b, 0, |whole|, n);
      var l := LeadsThrough(a, b, [], 0, |whole|, n - k);
    }
  }

  lemma FallsNothing()
    ensures Falls([])
  {
    assert Leads([], 0, 0, 0);
  }

  // ----- single instructions and expressions -----

  /** An instruction that goes on to the next one. */
  lemma FallsOne(c: seq<word>)
    requires c != [] && WordSize(c[0]) == |c|
    requires Opcode(c[0]) !in {STOP, SUB_RET, JUMP, CONDITIONAL_BRANCH}
    ensures Contained(c) && Falls(c)
  {
    OneContained(c);
    LeadsOne(c, 0, |c|);
  }

  lemma FallsPack(opcode: nat, operand: nat, rest: seq<word>)
    requires opcode < 16 && operand < 4096 && opcode !in {STOP, SUB_RET, JUMP, CONDITIONAL_BRANCH}
    requires WordSize(opcode * 4096) == 1 + |rest|
    ensures Contained([Pack(opcode, operand)] + rest) && Falls([Pack(opcode, operand)] + rest)
  {
    hide Contained, Pack, Falls;
    PackFits(opcode, operand);
    SizeByOpcode(Pack(opcode, operand), opcode * 4096);
    FallsOne([Pack(opcode, operand)] + rest);
  }

  lemma FallsWord(opcode: nat, operand: nat)
    requires operand < 4096 && opcode in {SMALL_IMMEDIATE, LOAD, STORE, UNARY_ARITHMETIC, BINARY_ARITHMETIC}
    ensures Contained([Pack(opcode, operand)]) && Falls([Pack(opcode, operand)])
  {
    hide Contained, Pack, Falls;
    FallsPack(opcode, operand, []);
    assert [Pack(opcode, operand)] + [] == [Pack(opcode, operand)];
  }

  lemma FallsPair(opcode: nat, operand: nat, w: word)
    requires operand < 4096 && opcode in {LARGE_IMMEDIATE, LOAD_INDIRECT, STORE_INDIRECT}
    ensures Contained([Pack(opcode, operand), w]) && Falls([Pack(opcode, operand), w])
  {
    hide Contained, Pack, Falls;
    FallsPack(opcode, operand, [w]);
    assert [Pack(opcode, operand)] + [w] == [Pack(opcode, operand), w];
  }

  lemma {:induction false} ExprFalls(e: Expr)
    requires FitsExpr(e)
    ensures Contained(EmitExpr(e)) && Falls(EmitExpr(e))
  {
    hide Contained, Pack, WordSize, Falls;
    match e
    case Imm(v) =>
      if -2048 < v < 2048 {
        FallsWord(SMALL_IMMEDIATE, v % 4096);
      } else {
        FallsPair(LARGE_IMMEDIATE, 0, v % 65536);
      }
    case Load(addr) => FallsWord(LOAD, addr);
    case ArrayRead(base, size, index) =>
      ExprFalls(index);
      FallsPair(LOAD_INDIRECT, base, size % 65536);
      BothFall(EmitExpr(index), [Pack(LOAD_INDIRECT, base), size % 65536]);
    case Unary(op, a) =>
      ExprFalls(a);
      FallsWord(UNARY_ARITHMETIC, UnaryCode(op));
      BothFall(EmitExpr(a), [Pack(UNARY_ARITHMETIC, UnaryCode(op))]);
    case Binary(op, l, r) =>
      ExprFalls(l);
      ExprFalls(r);
      FallsWord(BINARY_ARITHMETIC, BinaryCode(op));
      BothFall(EmitExpr(l), EmitExpr(r));
      BothFall(EmitExpr(l) + EmitExpr(r), [Pack(BINARY_ARITHMETIC, BinaryCode(op))]);
  }

  lemma BothFall(a: seq<word>, b: seq<word>)
    requires Contained(a) && Contained(b) && Falls(a) && Falls(b)
    ensures Contained(a + b) && Falls(a + b)
  {
    hide Contained, Falls;
    ContainedConcat(a, b);
    FallsConcat(a, b);
  }

  lemma TargetFalls(t: Target)
    requires FitsTarget(t)
    ensures Contained(EmitTarget(t)) && Falls(EmitTarget(t))
  {
    hide Contained, Pack, Falls;
    match t
    case Store(addr) => FallsWord(STORE, addr);
    case ArrayWrite(base, size, index) =>
      ExprFalls(index);
      FallsPair(STORE_INDIRECT, base, size % 65536);
      BothFall(EmitExpr(index), [Pack(STORE_INDIRECT, base), size % 65536]);
  }

  // ----- branches -----

  /** The two ways on from a branch. */
  lemma BranchMoves(x: seq<word>, edge: bool, op: BinOp, skip: nat, y: seq<word>)
    requires skip < 32768
    ensures Moves(x + EmitBranch(edge, op, skip) + y, |x|) == {2, skip}
  {
    hide Pack, Wrap16;
    var whole := x + EmitBranch(edge, op, skip) + y;
    PackFits(CONDITIONAL_BRANCH, BinaryCode(op) + if edge then 256 else 0);
    WrapOfWord(skip);
    assert whole[|x|] == EmitBranch(edge, op, skip)[0] && whole[|x| + 1] == skip % 65536;
  }

  /** The branch skips to the end. */
  lemma IfThenFalls(edge: bool, op: BinOp, c: seq<word>, t: seq<word>)
    requires Contained(c) && Falls(c) && |t| + 2 < 32768
    ensures Falls(c + EmitBranch(edge, op, 2 + |t|) + t)
  {
    hide Moves, Boundary, Whole, EmitBranch, Contained;
    var b := EmitBranch(edge, op, 2 + |t|);
    var whole := c + b + t;
    assert [] + c + (b + t) == whole;
    FallsInto([], c, b + t);
    var n: nat :| Leads(whole, 0, |c|, n);
    BranchMoves(c, edge, op, 2 + |t|, t);
    LeadsOne(whole, |c|, 2 + |t|);
    LeadsOn(whole, 0, |c|, |whole|, n, 1);
  }

  lemma LoopFalls(op: BinOp, c: seq<word>, rest: seq<word>)
    requires Contained(c) && Falls(c) && |rest| + 2 < 32768
    ensures Falls(c + EmitBranch(false, op, 2 + |rest|) + rest)
  {
    IfThenFalls(false, op, c, rest);
  }

  /** One of the two blocks has to let control through. */
  lemma IfElseFalls(edge: bool, op: BinOp, c: seq<word>, t: seq<word>, f: seq<word>)
    requires Contained(c) && Falls(c) && Contained(t) && Contained(f) && |t| + 3 < 32768 && |f| + 1 < 2048
    ensures Falls(c + EmitBranch(edge, op, 2 + |t| + 1) + (t + [Pack(JUMP, |f| + 1)] + f)) <==> Falls(t) || Falls(f)
  {
    hide Moves, Boundary, Whole, EmitBranch, Contained, Pack, Leads;
    var b, j := EmitBranch(edge, op, 2 + |t| + 1), [Pack(JUMP, |f| + 1)];
    var whole := c + b + (t + j + f);
    assert [] + c + (b + (t + j + f)) == whole && (c + b) + t + (j + f) == whole && (c + b + t + j) + f + [] == whole;
    assert (c + b + t) + j + f == whole;
    if Falls(t) || Falls(f) {
      IfElseReaches(edge, op, c, t, f, whole);
    }
    if Falls(whole) {
      IfElseNeeds(edge, op, c, t, f, whole);
    }
  }

  lemma JumpMoves(x: seq<word>, n: nat, y: seq<word>)
    requires n < 2048
    ensures Moves(x + [Pack(JUMP, n)] + y, |x|) == {n as int}
  {
    hide Pack;
    ForwardJumpExact(n);
    PackFits(JUMP, n);
    assert (x + [Pack(JUMP, n)] + y)[|x|] == Pack(JUMP, n);
  }

  lemma IfElseReaches(edge: bool, op: BinOp, c: seq<word>, t: seq<word>, f: seq<word>, whole: seq<word>)
    requires Contained(c) && Falls(c) && Contained(t) && Contained(f) && |t| + 3 < 32768 && |f| + 1 < 2048
    requires whole == c + EmitBranch(edge, op, 2 + |t| + 1) + (t + [Pack(JUMP, |f| + 1)] + f)
    requires Falls(t) || Falls(f)
    ensures Falls(whole)
  {
    hide Moves, Boundary, Whole, EmitBranch, Contained, Pack, Leads;
    var b, j := EmitBranch(edge, op, 2 + |t| + 1), [Pack(JUMP, |f| + 1)];
    assert [] + c + (b + (t + j + f)) == whole && (c + b) + t + (j + f) == whole && (c + b + t + j) + f + [] == whole;
    assert (c + b + t) + j + f == whole;
    FallsInto([], c, b + (t + j + f));
    var n: nat :| Leads(whole, 0, |c|, n);
    BranchMoves(c, edge, op, 2 + |t| + 1, t + j + f);
    var p := |c| + 2 + |t|;
    if Falls(t) {
      FallsInto(c + b, t, j + f);
      var m: nat :| Leads(whole, |c| + 2, p, m);
      LeadsOne(whole, |c|, 2);
      JumpMoves(c + b + t, |f| + 1, f);
      LeadsOne(whole, p, |f| + 1);
      LeadsOn(whole, 0, |c|, |c| + 2, n, 1);
      LeadsOn(whole, 0, |c| + 2, p, n + 1, m);
      LeadsOn(whole, 0, p, |whole|, n + 1 + m, 1);
    } else {
      FallsInto(c + b + t + j, f, []);
      var m: nat :| Leads(whole, p + 1, |whole|, m);
      LeadsOne(whole, |c|, 2 + |t| + 1);
      LeadsOn(whole, 0, |c|, p + 1, n, 1);
      LeadsOn(whole, 0, p + 1, |whole|, n + 1, m);
    }
  }

  lemma IfElseNeeds(edge: bool, op: BinOp, c: seq<word>, t: seq<word>, f: seq<word>, whole: seq<word>)
    requires Contained(c) && Contained(t) && Contained(f) && |t| + 3 < 32768 && |f| + 1 < 2048
    requires whole == c + EmitBranch(edge, op, 2 + |t| + 1) + (t + [Pack(JUMP, |f| + 1)] + f)
    requires Falls(whole)
    ensures Falls(t) || Falls(f)
  {
    hide Moves, Boundary, Whole, EmitBranch, Contained, Pack;
    var b, j := EmitBranch(edge, op, 2 + |t| + 1), [Pack(JUMP, |f| + 1)];
    assert [] + c + (b + (t + j + f)) == whole && (c + b) + t + (j + f) == whole && (c + b + t + j) + f + [] == whole;
    var n: nat :| Leads(whole, 0, |whole|, n);
    BoundaryStart(c);
    BoundaryStart(t);
    BoundaryStart(f);
    var k := LeadsThrough([], c, b + (t + j + f), 0, |whole|, n);
    BranchMoves(c, edge, op, 2 + |t| + 1, t + j + f);
    var d :| d in Moves(whole, |c|) && Leads(whole, |c| + d, |whole|, n - k - 1);
    if d == 2 {
      var l := LeadsThrough(c + b, t, j + f, 0, |whole|, n - k - 1);
    } else {
      var l := LeadsThrough(c + b + t + j, f, [], 0, |whole|, n - k - 1);
    }
  }

  // ----- statements -----

  lemma StopFalls(p: Placement)
    ensures !Falls([p.StopWord()])
  {
    hide Pack;
    PackFits(STOP, 0);
    forall n: nat
      ensures !Leads([p.StopWord()], 0, 1, n)
    {
      assert Moves([p.StopWord()], 0) == {};
    }
  }

  lemma CallFalls(id: nat, p: Placement)
    ensures Falls([p.CallWord(id)])
  {
    hide Pack, Falls;
    var address := if p.table.Some? && id < |p.table.value| then p.table.value[id] else id;
    ResolvedCallSize(address);
    ResolvedCallOpcode(address);
    FallsOne([p.CallWord(id)]);
  }

  lemma IfFalls(edge: bool, op: BinOp, l: Expr, r: Expr, t: seq<word>, f: Option<seq<word>>)
    requires FitsExpr(l) && FitsExpr(r) && Contained(t) && |t| + 3 < 32768
    requires f.Some? ==> Contained(f.value) && |f.value| + 1 < 2048
    ensures Falls(EmitIf(edge, op, l, r, t, f)) <==> f.None? || Falls(t) || Falls(f.value)
  {
    hide Contained, EmitExpr, FitsExpr, Pack, EmitBranch, Falls;
    var c := EmitExpr(l) + EmitExpr(r);
    ExprFalls(l);
    ExprFalls(r);
    BothFall(EmitExpr(l), EmitExpr(r));
    if f.None? {
      IfThenFalls(edge, op, c, t);
    } else {
      IfElseFalls(edge, op, c, t, f.value);
    }
  }

  /** Control can reach the end of the code of a statement if and only if the tree says so. */
  lemma {:induction false} StmtFalls(s: Stmt, p: Placement)
    requires Fits(s) && Emittable(s)
    ensures Falls(EmitStmt(s, p)) <==> MayFall(s)
  {
    hide Contained, Pack, EmitExpr, FitsExpr, BoolNode, EmitBranch, EmitIf, Falls;
    match s
    case Block(stmts) => StmtsFall(stmts, p);
    case Assign(target, value) =>
      ExprFalls(value);
      TargetFalls(target);
      BothFall(EmitExpr(value), EmitTarget(target));
    case FoldedIf(edge, op, l, r, thn, els) =>
      StmtFalls(thn, p);
      StmtContained(thn, p);
      EmitLength(thn, p);
      if els.Some? {
        StmtFalls(els.value, p);
        StmtContained(els.value, p);
        EmitLength(els.value, p);
      }
      IfFalls(edge, op, l, r, EmitStmt(thn, p), if els.Some? then Some(EmitStmt(els.value, p)) else None);
    case FoldedWhile(op, l, r, body) =>
      EmitLength(body, p);
      ExprFalls(l);
      ExprFalls(r);
      BothFall(EmitExpr(l), EmitExpr(r));
      var b := EmitStmt(body, p);
      LoopFalls(op, EmitExpr(l) + EmitExpr(r),
                b + [Pack(JUMP, (-(|EmitExpr(l)| + |EmitExpr(r)| + |b| + 2)) % 4096)]);
    case Emit(event, base, size, pre) =>
      StmtsFall(pre, p);
      StmtsContained(pre, p);
      var rest := [base % 65536, size % 65536];
      FallsPack(EMIT, event, rest);
      assert [Pack(EMIT, event)] + rest == [Pack(EMIT, event), base % 65536, size % 65536];
      FallsConcat(EmitAll(pre, p), [Pack(EMIT, event)] + rest);
    case CallSub(id) => CallFalls(id, p);
    case Return => StopFalls(p);
  }

  lemma {:induction false} StmtsFall(stmts: seq<Stmt>, p: Placement)
    requires forall t | t in stmts :: Fits(t) && Emittable(t)
    ensures Falls(EmitAll(stmts, p)) <==> forall t | t in stmts :: MayFall(t)
  {
    hide Contained, Fits, Emittable, Falls, MayFall;
    if stmts == [] {
      FallsNothing();
    } else {
      StmtFalls(stmts[0], p);
      StmtsFall(stmts[1..], p);
      StmtContained(stmts[0], p);
      StmtsContained(stmts[1..], p);
      FallsConcat(EmitStmt(stmts[0], p), EmitAll(stmts[1..], p));
      assert forall t | t in stmts :: t == stmts[0] || t in stmts[1..];
    }
  }

  // ----- staying inside -----

  /** Every place that control comes to from the start is an instruction of the code. */
  ghost predicate Stays(code: seq<word>) {
    forall q, n: nat | Leads(code, 0, q, n) :: Boundary(code, q) && q < |code|
  }

  lemma {:induction false} LeadsToBoundary(code: seq<word>, p: int, q: int, n: nat)
    requires Contained(code) && Boundary(code, p) && Leads(code, p, q, n)
    ensures Boundary(code, q)
    decreases n
  {
    hide Moves, Boundary, Whole;
    if n > 0 {
      var d :| d in Moves(code, p) && Leads(code, p + d, q, n - 1);
      assert Boundary(code, 0 + p + d);
      LeadsToBoundary(code, p + d, q, n - 1);
    }
  }

  /** Control stays in contained code if and only if it cannot come to the end. */
  lemma StaysExact(code: seq<word>)
    requires Contained(code)
    ensures Stays(code) <==> !Falls(code)
  {
    hide Moves, Boundary, Leads;
    BoundaryStart(code);
    if !Falls(code) {
      forall q, n: nat | Leads(code, 0, q, n)
        ensures Boundary(code, q) && q < |code|
      {
        LeadsToBoundary(code, 0, q, n);
        BoundaryRange(code, q);
      }
    }
  }
}
