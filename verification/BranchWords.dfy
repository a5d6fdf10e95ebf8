/** Edge triggers and comparisons all the way: from the conditions of the source to the bits of the
    branch instructions. */
module BranchWords {
  import opened Words
  import opened Tree
  import opened VectorTree
  import opened VectorProgram
  import Expansion
  import opened Allocator
  import opened Shapes
  import Opt = Optimizer
  import opened Bytecode
  import opened CodeGen
  import opened Machine
  import opened StmtCode
  import opened Relocation
  import opened ControlFlow
  import opened PreLink
  import opened Compiler

  // ----- reading branch instructions -----

  /** A condition: how it compares, and whether only its becoming true counts. */
  datatype Condition = Condition(op: Option<BinOp>, edge: bool)

  /** The low eight bits of a branch hold the operator, the next one marks a `when`. */
  function ReadBranch(w: word): Condition { Condition(DecodeBinary(w % 256), w / 256 % 2 == 1) }

  /** The branches among the whole instructions of the code, in order. */
  function Branches(code: seq<word>): seq<Condition>
    decreases |code|
  {
    if code == [] then [] else
    var n := if WordSize(code[0]) <= |code| then WordSize(code[0]) else |code|;
    BranchAt(code[0]) + Branches(code[n..])
  }

  function BranchAt(w: word): seq<Condition> { if Opcode(w) == 0xA then [ReadBranch(w)] else [] }

  /** The conditions of a tree that is ready for code generation, in order. */
  function Conditions(s: Stmt): seq<Condition>
  {
    match s
    case Block(stmts) => ConditionsAll(stmts)
    case FoldedIf(edge, op, _, _, thn, els) =>
      [Condition(Some(op), edge)] + Conditions(thn) + if els.Some? then Conditions(els.value) else []
    case FoldedWhile(op, _, _, body) => [Condition(Some(op), false)] + Conditions(body)
    case Emit(_, _, _, pre) => ConditionsAll(pre)
    case _ => []
  }

  function ConditionsAll(stmts: seq<Stmt>): seq<Condition>
  {
    if stmts == [] then [] else Conditions(stmts[0]) + ConditionsAll(stmts[1..])
  }

  // ----- code with given branches -----

  predicate Carries(code: seq<word>, conditions: seq<Condition>) { Whole(code) && Branches(code) == conditions }

  lemma {:induction false} BranchesConcat(a: seq<word>, b: seq<word>)
    requires Whole(a)
    ensures Branches(a + b) == Branches(a) + Branches(b)
    decreases |a|
  {
    hide WordSize, BranchAt;
    if a == [] {
      assert a + b == b && [] + Branches(b) == Branches(b);
    } else {
      var n := WordSize(a[0]);
      assert (a + b)[n..] == a[n..] + b && (a + b)[0] == a[0];
      BranchesConcat(a[n..], b);
      Associative(BranchAt(a[0]), Branches(a[n..]), Branches(b));
    }
  }

  lemma CarriesConcat(a: seq<word>, b: seq<word>, c: seq<Condition>, d: seq<Condition>)
    requires Carries(a, c) && Carries(b, d)
    ensures Carries(a + b, c + d)
  {
    hide Whole, Branches;
    WholeConcat(a, b);
    BranchesConcat(a, b);
  }

  lemma CarriesNone(a: seq<word>, b: seq<word>)
    requires Carries(a, []) && Carries(b, [])
    ensures Carries(a + b, [])
  {
    hide Carries;
    CarriesConcat(a, b, [], []);
    var none: seq<Condition> := [];
    assert none + none == none;
  }

  /** One instruction, whatever its operands. */
  lemma OneInstruction(code: seq<word>)
    requires code != [] && WordSize(code[0]) == |code|
    ensures Carries(code, BranchAt(code[0]))
  {
    hide WordSize, BranchAt;
    var own := BranchAt(code[0]);
    assert code[|code|..] == [] && Branches([]) == [] && Whole([]);
    assert Branches(code) == own + Branches(code[|code|..]);
    assert own + [] == own;
  }

  lemma Plain(opcode: nat, operand: nat, rest: seq<word>)
    requires opcode < 16 && operand < 4096 && opcode != 0xA && WordSize(opcode * 4096) == 1 + |rest|
    ensures Carries([Pack(opcode, operand)] + rest, [])
  {
    hide Pack, Carries;
    PackFits(opcode, operand);
    SizeByOpcode(Pack(opcode, operand), opcode * 4096);
    OneInstruction([Pack(opcode, operand)] + rest);
  }

  lemma PlainWord(opcode: nat, operand: nat)
    requires operand < 4096 && opcode in {SMALL_IMMEDIATE, LOAD, STORE, UNARY_ARITHMETIC, BINARY_ARITHMETIC, JUMP}
    ensures Carries([Pack(opcode, operand)], [])
  {
    hide Pack, Carries;
    Plain(opcode, operand, []);
    assert [Pack(opcode, operand)] + [] == [Pack(opcode, operand)];
  }

  lemma PlainPair(opcode: nat, operand: nat, w: word)
    requires operand < 4096 && opcode in {LARGE_IMMEDIATE, LOAD_INDIRECT, STORE_INDIRECT}
    ensures Carries([Pack(opcode, operand), w], [])
  {
    hide Pack, Carries;
    Plain(opcode, operand, [w]);
    assert [Pack(opcode, operand)] + [w] == [Pack(opcode, operand), w];
  }

  lemma {:induction false} ExprCarries(e: Expr)
    requires FitsExpr(e)
    ensures Carries(EmitExpr(e), [])
  {
    hide Carries, Pack;
    match e
    case Imm(v) =>
      if -2048 < v < 2048 {
        PlainWord(SMALL_IMMEDIATE, v % 4096);
      } else {
        PlainPair(LARGE_IMMEDIATE, 0, v % 65536);
      }
    case Load(addr) => PlainWord(LOAD, addr);
    case ArrayRead(base, size, index) =>
      ExprCarries(index);
      PlainPair(LOAD_INDIRECT, base, size % 65536);
      CarriesNone(EmitExpr(index), [Pack(LOAD_INDIRECT, base), size % 65536]);
    case Unary(op, a) =>
      ExprCarries(a);
      PlainWord(UNARY_ARITHMETIC, UnaryCode(op));
      CarriesNone(EmitExpr(a), [Pack(UNARY_ARITHMETIC, UnaryCode(op))]);
    case Binary(op, l, r) =>
      ExprCarries(l);
      ExprCarries(r);
      PlainWord(BINARY_ARITHMETIC, BinaryCode(op));
      CarriesNone(EmitExpr(l), EmitExpr(r));
      CarriesNone(EmitExpr(l) + EmitExpr(r), [Pack(BINARY_ARITHMETIC, BinaryCode(op))]);
  }

  lemma TargetCarries(t: Target)
    requires FitsTarget(t)
    ensures Carries(EmitTarget(t), [])
  {
    hide Carries, Pack, EmitExpr;
    match t
    case Store(addr) => PlainWord(STORE, addr);
    case ArrayWrite(base, size, index) =>
      ExprCarries(index);
      PlainPair(STORE_INDIRECT, base, size % 65536);
      CarriesNone(EmitExpr(index), [Pack(STORE_INDIRECT, base), size % 65536]);
  }

  /** The branch of one condition. */
  lemma BranchCarries(edge: bool, op: BinOp, skip: nat)
    ensures Carries(EmitBranch(edge, op, skip), [Condition(Some(op), edge)])
  {
    hide Pack, WordSize;
    var operand := BinaryCode(op) + if edge then 256 else 0;
    PackFits(0xA, operand);
    SizeByOpcode(Pack(0xA, operand), 0xA * 4096);
    BranchSize();
    OneInstruction(EmitBranch(edge, op, skip));
    assert DecodeBinary(BinaryCode(op)) == Some(op);
  }

  lemma BranchSize()
    ensures WordSize(0xA * 4096) == 2
  {
  }

  lemma ConditionCarries(edge: bool, op: BinOp, l: Expr, r: Expr, skip: nat)
    requires FitsExpr(l) && FitsExpr(r)
    ensures Carries(EmitExpr(l) + EmitExpr(r) + EmitBranch(edge, op, skip), [Condition(Some(op), edge)])
  {
    hide Carries, EmitExpr, EmitBranch, FitsExpr;
    ExprCarries(l);
    ExprCarries(r);
    CarriesNone(EmitExpr(l), EmitExpr(r));
    BranchCarries(edge, op, skip);
    CarriesConcat(EmitExpr(l) + EmitExpr(r), EmitBranch(edge, op, skip), [], [Condition(Some(op), edge)]);
    assert [] + [Condition(Some(op), edge)] == [Condition(Some(op), edge)];
  }

  /** The words that end a subroutine, or stop, or call. */
  lemma EndCarries(p: Placement, id: nat)
    ensures Carries([p.StopWord()], []) && Carries([p.CallWord(id)], [])
  {
    hide Pack;
    PackFits(STOP, 0);
    var address := if p.table.Some? && id < |p.table.value| then p.table.value[id] else id;
    ResolvedCallSize(address);
    CallIsNoBranch(address);
    OneInstruction([p.StopWord()]);
    OneInstruction([p.CallWord(id)]);
  }

  lemma CallIsNoBranch(address: nat)
    ensures Opcode(Pack(SUB_CALL, address)) != 0xA
  {
    hide Pack;
    ResolvedCallOpcode(address);
  }


  // ----- statements -----

  /** The code of a statement carries the conditions of its tree: each branch instruction, in order,
      the operator and the edge flag of its `if`, `when` or `while`. */
  lemma {:induction false} StmtCarries(s: Stmt, p: Placement)
    requires Fits(s) && Emittable(s)
    ensures Carries(EmitStmt(s, p), Conditions(s))
    decreases s, 1
  {
    hide Carries, Pack, EmitExpr, FitsExpr, BoolNode, EmitBranch;
    match s
    case Block(stmts) => StmtsCarry(stmts, p);
    case Assign(target, value) =>
      ExprCarries(value);
      TargetCarries(target);
      CarriesNone(EmitExpr(value), EmitTarget(target));
    case FoldedIf(_, _, _, _, _, _) => IfCarries(s, p);
    case FoldedWhile(_, _, _, _) => WhileCarries(s, p);
    case Emit(event, base, size, pre) =>
      StmtsCarry(pre, p);
      var rest := [base % 65536, size % 65536];
      Plain(EMIT, event, rest);
      assert [Pack(EMIT, event)] + rest == [Pack(EMIT, event), base % 65536, size % 65536];
      CarriesConcat(EmitAll(pre, p), [Pack(EMIT, event)] + rest, ConditionsAll(pre), []);
      assert ConditionsAll(pre) + [] == ConditionsAll(pre);
    case CallSub(id) => EndCarries(p, id);
    case Return => EndCarries(p, 0);
  }

  lemma {:induction false} StmtsCarry(stmts: seq<Stmt>, p: Placement)
    requires forall t | t in stmts :: Fits(t) && Emittable(t)
    ensures Carries(EmitAll(stmts, p), ConditionsAll(stmts))
    decreases stmts, 0
  {
    if stmts != [] {
      hide Carries, Fits, Emittable;
      StmtCarries(stmts[0], p);
      StmtsCarry(stmts[1..], p);
      CarriesConcat(EmitStmt(stmts[0], p), EmitAll(stmts[1..], p), Conditions(stmts[0]), ConditionsAll(stmts[1..]));
    }
  }

  lemma {:induction false} IfCarries(s: Stmt, p: Placement)
    requires s.FoldedIf? && Fits(s) && Emittable(s)
    ensures Carries(EmitStmt(s, p), Conditions(s))
    decreases s, 0
  {
    hide Carries, Pack, EmitExpr, FitsExpr, BoolNode, EmitBranch;
    var t := EmitStmt(s.thn, p);
    var own, tc := [Condition(Some(s.op), s.edge)], Conditions(s.thn);
    var skip := 2 + |t| + if s.els.Some? then 1 else 0;
    var c := EmitExpr(s.left) + EmitExpr(s.right) + EmitBranch(s.edge, s.op, skip);
    ConditionCarries(s.edge, s.op, s.left, s.right, skip);
    StmtCarries(s.thn, p);
    CarriesConcat(c, t, own, tc);
    if s.els.None? {
      assert own + tc + [] == own + tc;
    } else {
      var f := EmitStmt(s.els.value, p);
      var j := [Pack(JUMP, |f| + 1)];
      EmitLength(s.els.value, p);
      StmtCarries(s.els.value, p);
      PlainWord(JUMP, |f| + 1);
      CarriesConcat(c + t, j, own + tc, []);
      CarriesConcat(c + t + j, f, own + tc + [], Conditions(s.els.value));
      assert c + t + j + f == c + (t + j + f);
      assert own + tc + [] == own + tc;
    }
  }

  lemma {:induction false} WhileCarries(s: Stmt, p: Placement)
    requires s.FoldedWhile? && Fits(s) && Emittable(s)
    ensures Carries(EmitStmt(s, p), Conditions(s))
    decreases s, 0
  {
    hide Carries, Pack, EmitExpr, FitsExpr, BoolNode, EmitBranch;
    var b := EmitStmt(s.body, p);
    var own, bc := [Condition(Some(s.op), false)], Conditions(s.body);
    var c := EmitExpr(s.left) + EmitExpr(s.right) + EmitBranch(false, s.op, 2 + |b| + 1);
    var back := (-(|EmitExpr(s.left)| + |EmitExpr(s.right)| + |b| + 2)) % 4096;
    ConditionCarries(false, s.op, s.left, s.right, 2 + |b| + 1);
    StmtCarries(s.body, p);
    PlainWord(JUMP, back);
    CarriesConcat(c, b, own, bc);
    CarriesConcat(c + b, [Pack(JUMP, back)], own + bc, []);
    assert c + b + [Pack(JUMP, back)] == c + (b + [Pack(JUMP, back)]);
    assert own + bc + [] == own + bc;
  }

  /** The same for the finished segments of a program. */
  lemma SegmentCarries(children: seq<TopLevel>, tableSize: nat, k: Key)
    requires Compilable(children, tableSize) && k in SegmentsOf(children)
    ensures Branches(SegmentsOf(children)[k].code) == ConditionsAll(Body(children, k))
  {
    hide SegmentsOf, EmitAll, Body, StackDepthAll, CalleesAll, Rewrite, Pack, Emittable, Fits, Carries, Whole, Branches,
         TypeOfLast;
    var body := Body(children, k);
    SegmentOf(children, k);
    BodyReady(children, tableSize, k);
    ReadyStmts(body);
    if k.SubKey? {
      SubFixed(body, []);
      SegmentEnds(body, Placement(true, None), Closing(body));
    } else {
      SegmentEnds(body, Raw, [Raw.StopWord()]);
    }
  }

  lemma ReadyStmts(body: seq<Stmt>)
    requires ReadyStmt(Block(body))
    ensures forall t | t in body :: Fits(t) && Emittable(t)
  {
  }

  lemma SegmentEnds(body: seq<Stmt>, p: Placement, end: seq<word>)
    requires (forall t | t in body :: Fits(t) && Emittable(t)) && (end == [] || end == [p.StopWord()])
    ensures Branches(EmitAll(body, p) + end) == ConditionsAll(body)
  {
    hide EmitAll, Pack, Emittable, Fits;
    StmtsCarry(body, p);
    EndCarries(p, 0);
    BranchesConcat(EmitAll(body, p), end);
    assert ConditionsAll(body) + [] == ConditionsAll(body);
  }

  // ----- optimization -----

  /** The conditions that optimization leaves: of an `if`, `when` or `while` whose condition does not
      fold to a constant and whose branches are not all empty, its own edge flag and the operator its
      condition has by then; of one with a constant condition what the chosen branch leaves. */
  function Kept(s: Stmt): seq<Condition>
    requires Opt.OptStmt(s).Ok?
  {
    match s
    case Block(stmts) => KeptAll(stmts)
    case IfWhen(edge, cond, thn, els) =>
      var c := Opt.OptExpr(cond).value;
      var f := if els.Some? then Kept(els.value) else [];
      if Empty(thn) && (els.Some? ==> Empty(els.value)) then []
      else if c.Imm? then (if c.value != 0 then Kept(thn) else f)
      else [Condition(Some(c.op), edge)] + Kept(thn) + f
    case While(cond, body) =>
      var c := Opt.OptExpr(cond).value;
      if c.Imm? || Empty(body) then [] else [Condition(Some(c.op), false)] + Kept(body)
    case Emit(_, _, _, pre) => KeptEach(pre)
    case _ => []
  }

  /** Nothing is left of the statement. */
  predicate Empty(s: Stmt)
    requires Opt.OptStmt(s).Ok?
  {
    var o := Opt.OptStmt(s).value;
    o.None? || o.value == Block([])
  }

  function KeptAll(stmts: seq<Stmt>): seq<Condition>
    requires Opt.OptAll(stmts).Ok?
  {
    if stmts == [] then [] else Kept(stmts[0]) + KeptAll(stmts[1..])
  }

  function KeptEach(stmts: seq<Stmt>): seq<Condition>
    requires Opt.OptEach(stmts).Ok?
  {
    if stmts == [] then [] else Kept(stmts[0]) + KeptEach(stmts[1..])
  }

  function ConditionsOf(s: Option<Stmt>): seq<Condition> { if s.None? then [] else Conditions(s.value) }

  /** A `when` that is not folded away stays a `when`, an `if` an `if`. */
  lemma {:induction false} OptKeepsConditions(s: Stmt)
    requires Opt.OptStmt(s).Ok?
    ensures ConditionsOf(Opt.OptStmt(s).value) == Kept(s)
    decreases s, 1
  {
    hide Opt.OptExpr, Opt.OptTarget;
    match s
    case Block(stmts) => OptAllKeepsConditions(stmts);
    case IfWhen(_, _, _, _) => OptIfKeepsConditions(s);
    case While(_, body) => OptKeepsConditions(body);
    case Emit(_, _, _, pre) => OptEachKeepsConditions(pre);
    case _ =>
  }

  lemma {:induction false} OptIfKeepsConditions(s: Stmt)
    requires s.IfWhen? && Opt.OptStmt(s).Ok?
    ensures ConditionsOf(Opt.OptStmt(s).value) == Kept(s)
    decreases s, 0
  {
    hide Opt.OptExpr;
    OptKeepsConditions(s.thn);
    if s.els.Some? {
      OptKeepsConditions(s.els.value);
    }
    NoConditions();
    var t := Opt.OptStmt(s.thn).value;
    var f := if s.els.Some? then Opt.OptStmt(s.els.value).value else None;
    var c := Opt.OptExpr(s.cond).value;
    if !(Opt.NoCode(t) && Opt.NoCode(f)) && !c.Imm? {
      var block := if t.None? then Block([]) else t.value;
      assert Opt.OptStmt(s).value == Some(FoldedIf(s.edge, c.op, c.left, c.right, block, f));
      assert Conditions(block) == Kept(s.thn);
    }
  }

  lemma NoConditions()
    ensures Conditions(Block([])) == []
  {
    assert ConditionsAll([]) == [];
  }

  lemma {:induction false} OptAllKeepsConditions(stmts: seq<Stmt>)
    requires Opt.OptAll(stmts).Ok?
    ensures ConditionsAll(Opt.OptAll(stmts).value) == KeptAll(stmts)
    decreases stmts
  {
    hide Opt.OptStmt, Kept, Conditions;
    if stmts != [] {
      OptKeepsConditions(stmts[0]);
      OptAllKeepsConditions(stmts[1..]);
      var s, rest := Opt.OptStmt(stmts[0]).value, Opt.OptAll(stmts[1..]).value;
      NoConditions();
      if s.Some? {
        assert ([s.value] + rest)[1..] == rest;
      }
    }
  }

  lemma {:induction false} OptEachKeepsConditions(stmts: seq<Stmt>)
    requires Opt.OptEach(stmts).Ok?
    ensures ConditionsAll(Opt.OptEach(stmts).value) == KeptEach(stmts)
    decreases stmts
  {
    hide Opt.OptStmt, Kept, Conditions;
    if stmts != [] {
      OptKeepsConditions(stmts[0]);
      OptEachKeepsConditions(stmts[1..]);
      var s, rest := Opt.OptStmt(stmts[0]).value, Opt.OptEach(stmts[1..]).value;
      assert ([s.value] + rest)[1..] == rest;
    }
  }

  // ----- expansion -----

  /** The edge flags of the `if`, `when` and `while` statements of a vector program, in order. */
  function VEdges(s: VStmt): seq<bool>
  {
    match s
    case VBlock(stmts) => VEdgesAll(stmts)
    case VIfWhen(edge, _, thn, els) => [edge] + VEdges(thn) + if els.Some? then VEdges(els.value) else []
    case VWhile(_, body) => [false] + VEdges(body)
    case _ => []
  }

  function VEdgesAll(stmts: seq<VStmt>): seq<bool>
  {
    if stmts == [] then [] else VEdges(stmts[0]) + VEdgesAll(stmts[1..])
  }

  /** The same of a scalar program before optimization. */
  function Edges(s: Stmt): seq<bool>
  {
    match s
    case Block(stmts) => EdgesAll(stmts)
    case IfWhen(edge, _, thn, els) => [edge] + Edges(thn) + if els.Some? then Edges(els.value) else []
    case While(_, body) => [false] + Edges(body)
    case _ => []
  }

  function EdgesAll(stmts: seq<Stmt>): seq<bool>
  {
    if stmts == [] then [] else Edges(stmts[0]) + EdgesAll(stmts[1..])
  }

  lemma {:induction false} ExpandKeepsEdges(s: VStmt, sp: Space, temp: string)
    requires ExpandStmt(s, sp, temp).Ok?
    ensures Edges(ExpandStmt(s, sp, temp).value.0) == VEdges(s)
  {
    hide Expansion.ExpandAssign, ExpandAt;
    match s
    case VBlock(stmts) => ListKeepsEdges(stmts, sp, temp);
    case VAssign(left, right) => AssignHasNoEdges(left, right, sp, temp);
    case VIfWhen(_, _, thn, els) =>
      ExpandKeepsEdges(thn, sp, temp);
      if els.Some? {
        ExpandKeepsEdges(els.value, ExpandStmt(thn, sp, temp).value.1, temp);
      }
    case VWhile(_, body) => ExpandKeepsEdges(body, sp, temp);
    case _ =>
  }

  lemma {:induction false} ListKeepsEdges(stmts: seq<VStmt>, sp: Space, temp: string)
    requires ExpandList(stmts, sp, temp).Ok?
    ensures EdgesAll(ExpandList(stmts, sp, temp).value.0) == VEdgesAll(stmts)
  {
    hide ExpandStmt, Edges, VEdges;
    if stmts != [] {
      var first := ExpandStmt(stmts[0], sp, temp).value;
      ExpandKeepsEdges(stmts[0], sp, temp);
      ListKeepsEdges(stmts[1..], first.1, temp);
      var rest := ExpandList(stmts[1..], first.1, temp).value.0;
      assert ([first.0] + rest)[1..] == rest;
    }
  }

  lemma AssignHasNoEdges(left: VExpr, right: VExpr, sp: Space, temp: string)
    requires left.Mem? && Expansion.ExpandAssign(left, right, sp, temp).Ok?
    ensures Edges(Expansion.ExpandAssign(left, right, sp, temp).value.0) == []
  {
    hide Expansion.Assigns, VectorSize, Expansion.Mentions;
    if !Expansion.NeedsTemporary(left, right) {
      AssignsHaveNoEdges(left, right, 0, VectorSize(left).value);
    } else {
      var n := VectorSize(right).value;
      var place := Mem(Allocate(sp, n).value.1, n, temp, None);
      var first, second := Expansion.ExpandDirect(place, right).value, Expansion.ExpandDirect(left, place).value;
      AssignsHaveNoEdges(place, right, 0, VectorSize(place).value);
      AssignsHaveNoEdges(left, place, 0, VectorSize(left).value);
      assert [first, second][1..] == [second] && [second][1..] == [];
      assert EdgesAll([second]) == [] && EdgesAll([first, second]) == [];
    }
  }

  lemma {:induction false} AssignsHaveNoEdges(left: VExpr, right: VExpr, i: nat, n: nat)
    requires left.Mem? && Expansion.Assigns(left, right, i, n).Ok?
    ensures EdgesAll(Expansion.Assigns(left, right, i, n).value) == []
    decreases n - i
  {
    hide ExpandTarget, ExpandAt;
    if i < n {
      AssignsHaveNoEdges(left, right, i + 1, n);
      var s := Assign(ExpandTarget(left, i).value, ExpandAt(right, i).value);
      var rest := Expansion.Assigns(left, right, i + 1, n).value;
      assert ([s] + rest)[1..] == rest && Edges(s) == [];
    }
  }
}
