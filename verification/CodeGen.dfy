/** Code generation: the words a tree appends to the current bytecode, and the stack depth the
    compiler reports for it. */
module CodeGen {
  import opened Words
  import opened Tree
  import opened Shapes
  import opened Bytecode

  function BinaryCode(op: BinOp): (n: nat)
    ensures n < 18
  {
    match op
    case ShiftLeft => 0
    case ShiftRight => 1
    case Add => 2
    case Sub => 3
    case Mult => 4
    case Div => 5
    case Mod => 6
    case BitOr => 7
    case BitXor => 8
    case BitAnd => 9
    case Equal => 10
    case NotEqual => 11
    case Bigger => 12
    case BiggerEqual => 13
    case Smaller => 14
    case SmallerEqual => 15
    case Or => 16
    case And => 17
  }

  function UnaryCode(op: UnOp): (n: nat)
    ensures n < 4
  {
    match op
    case Neg => 0
    case Abs => 1
    case BitNot => 2
    case Not => 3
  }

  /** Where the code will end up. Code generation itself produces `Placement(false, None)`: the
      end of a subroutine and the addresses of calls are filled in later. */
  datatype Placement = Placement(sub: bool, table: Option<seq<nat>>)
  {
    function StopWord(): word { if sub then SUB_RET * 4096 else Pack(STOP, 0) }

    function CallWord(id: nat): word {
      Pack(SUB_CALL, if table.Some? && id < |table.value| then table.value[id] else id)
    }
  }

  const Raw := Placement(false, None)

  function EmitImm(v: int32): (c: seq<word>)
    ensures c != []
  {
    if -2048 < v < 2048 then [Pack(SMALL_IMMEDIATE, v % 4096)]
    else [Pack(LARGE_IMMEDIATE, 0), v % 65536]
  }

  function EmitExpr(e: Expr): (c: seq<word>)
    ensures c != []
  {
    match e
    case Imm(v) => EmitImm(v)
    case Load(addr) => [Pack(LOAD, addr)]
    case ArrayRead(base, size, index) => EmitExpr(index) + [Pack(LOAD_INDIRECT, base), size % 65536]
    case Unary(op, a) => EmitExpr(a) + [Pack(UNARY_ARITHMETIC, UnaryCode(op))]
    case Binary(op, l, r) => EmitExpr(l) + EmitExpr(r) + [Pack(BINARY_ARITHMETIC, BinaryCode(op))]
  }

  function EmitTarget(t: Target): (c: seq<word>)
    ensures c != []
  {
    match t
    case Store(addr) => [Pack(STORE, addr)]
    case ArrayWrite(base, size, index) => EmitExpr(index) + [Pack(STORE_INDIRECT, base), size % 65536]
  }

  /** The branch instruction that skips `skip` words when the comparison is false. */
  function EmitBranch(edge: bool, op: BinOp, skip: nat): (c: seq<word>)
    ensures |c| == 2
  {
    [Pack(CONDITIONAL_BRANCH, BinaryCode(op) + if edge then 256 else 0), skip % 65536]
  }

  /** The tail of a folded if: the true block, and around the false block a jump. */
  function EmitBranches(t: seq<word>, f: Option<seq<word>>): seq<word>
  {
    if f.None? then t else t + [Pack(JUMP, |f.value| + 1)] + f.value
  }

  function EmitIf(edge: bool, op: BinOp, l: Expr, r: Expr, t: seq<word>, f: Option<seq<word>>): seq<word>
  {
    EmitExpr(l) + EmitExpr(r) + EmitBranch(edge, op, 2 + |t| + if f.Some? then 1 else 0) + EmitBranches(t, f)
  }

  function EmitWhile(op: BinOp, l: Expr, r: Expr, b: seq<word>): seq<word>
  {
    EmitExpr(l) + EmitExpr(r) + EmitBranch(false, op, 2 + |b| + 1) +
    (b + [Pack(JUMP, (-(|EmitExpr(l)| + |EmitExpr(r)| + |b| + 2)) % 4096)])
  }

  /** The code of a statement. Unfolded conditions never reach code generation. */
  function EmitStmt(s: Stmt, p: Placement): seq<word>
  {
    match s
    case Block(stmts) => EmitAll(stmts, p)
    case Assign(target, value) => EmitExpr(value) + EmitTarget(target)
    case IfWhen(_, _, _, _) => []
    case While(_, _) => []
    case FoldedIf(edge, op, l, r, thn, els) =>
      EmitIf(edge, op, l, r, EmitStmt(thn, p), if els.Some? then Some(EmitStmt(els.value, p)) else None)
    case FoldedWhile(op, l, r, body) => EmitWhile(op, l, r, EmitStmt(body, p))
    case Emit(event, base, size, pre) => EmitAll(pre, p) + [Pack(EMIT, event), base % 65536, size % 65536]
    case CallSub(id) => [p.CallWord(id)]
    case Return => [p.StopWord()]
  }

  function EmitAll(stmts: seq<Stmt>, p: Placement): seq<word>
  {
    if stmts == [] then [] else EmitStmt(stmts[0], p) + EmitAll(stmts[1..], p)
  }

  // ----- fields wide enough -----

  /** Every operand fits the bits that hold it. */
  predicate FitsExpr(e: Expr)
  {
    match e
    case Imm(_) => true
    case Load(addr) => addr < 4096
    case ArrayRead(base, size, index) => base < 4096 && size < 65536 && FitsExpr(index)
    case Unary(_, a) => FitsExpr(a)
    case Binary(_, l, r) => FitsExpr(l) && FitsExpr(r)
  }

  predicate FitsTarget(t: Target) {
    match t
    case Store(addr) => addr < 4096
    case ArrayWrite(base, size, index) => base < 4096 && size < 65536 && FitsExpr(index)
  }

  /** Every operand and displacement fits: jumps are twelve bits signed, branches sixteen. */
  predicate Fits(s: Stmt)
  {
    match s
    case Block(stmts) => forall t | t in stmts :: Fits(t)
    case Assign(target, value) => FitsTarget(target) && FitsExpr(value)
    case IfWhen(_, _, _, _) => true
    case While(_, _) => true
    case FoldedIf(_, _, l, r, thn, els) =>
      && FitsExpr(l) && FitsExpr(r) && Fits(thn)
      && |EmitStmt(thn, Raw)| + 3 < 32768
      && (els.Some? ==> Fits(els.value) && |EmitStmt(els.value, Raw)| + 1 < 2048)
    case FoldedWhile(_, l, r, body) =>
      && FitsExpr(l) && FitsExpr(r) && Fits(body)
      && |EmitExpr(l)| + |EmitExpr(r)| + |EmitStmt(body, Raw)| + 2 <= 2048
    case Emit(event, base, size, pre) =>
      event < 4096 && base < 65536 && size < 65536 && forall t | t in pre :: Fits(t)
    case CallSub(id) => id < 4096
    case Return => true
  }

  /** A jump decodes to its displacement exactly when it is a signed twelve-bit number. The forward
      jump is not masked by the compiler: an oversized one also spoils the opcode. */
  lemma ForwardJumpExact(n: nat)
    ensures Opcode(Pack(JUMP, n)) == JUMP && SignExtend12(Operand(Pack(JUMP, n))) == n <==> n < 2048
  {
    if n < 4096 {
      PackFits(JUMP, n);
    }
  }

  lemma BackwardJumpExact(n: int)
    requires n >= 0
    ensures SignExtend12(Operand(Pack(JUMP, (-n) % 4096))) == -n <==> n <= 2048
  {
    PackFits(JUMP, (-n) % 4096);
    SignExtend12Field(-n);
  }

  // ----- the size of code -----

  /** Words of an expression: constants of twelve bits take one, others two, and an access to an array
      two besides its index. */
  function ExprSize(e: Expr): nat
  {
    match e
    case Imm(v) => if -2048 < v < 2048 then 1 else 2
    case Load(_) => 1
    case ArrayRead(_, _, index) => ExprSize(index) + 2
    case Unary(_, a) => ExprSize(a) + 1
    case Binary(_, l, r) => ExprSize(l) + ExprSize(r) + 1
  }

  /** Words of a statement. An `else` costs a jump, a loop a jump back, an event three words. */
  function StmtSize(s: Stmt): nat
  {
    match s
    case Block(stmts) => StmtsSize(stmts)
    case Assign(target, value) => ExprSize(value) + if target.Store? then 1 else ExprSize(target.index) + 2
    case IfWhen(_, _, _, _) => 0
    case While(_, _) => 0
    case FoldedIf(_, _, l, r, thn, els) =>
      ExprSize(l) + ExprSize(r) + 2 + StmtSize(thn) + if els.Some? then 1 + StmtSize(els.value) else 0
    case FoldedWhile(_, l, r, body) => ExprSize(l) + ExprSize(r) + 2 + StmtSize(body) + 1
    case Emit(_, _, _, pre) => StmtsSize(pre) + 3
    case CallSub(_) => 1
    case Return => 1
  }

  function StmtsSize(stmts: seq<Stmt>): nat { if stmts == [] then 0 else StmtSize(stmts[0]) + StmtsSize(stmts[1..]) }

  lemma {:induction false} ExprSizeExact(e: Expr)
    ensures |EmitExpr(e)| == ExprSize(e)
  {
    hide Pack;
    match e
    case Imm(_) =>
    case Load(_) =>
    case ArrayRead(_, _, index) => ExprSizeExact(index);
    case Unary(_, a) => ExprSizeExact(a);
    case Binary(_, l, r) =>
      ExprSizeExact(l);
      ExprSizeExact(r);
  }

  /** Generated code has exactly this size, wherever it goes. */
  lemma {:induction false} StmtSizeExact(s: Stmt, p: Placement)
    ensures |EmitStmt(s, p)| == StmtSize(s)
  {
    hide Pack, EmitExpr, ExprSize;
    match s
    case Block(stmts) => StmtsSizeExact(stmts, p);
    case Assign(target, value) =>
      ExprSizeExact(value);
      if target.ArrayWrite? {
        ExprSizeExact(target.index);
      }
    case FoldedIf(_, _, l, r, thn, els) =>
      ExprSizeExact(l);
      ExprSizeExact(r);
      StmtSizeExact(thn, p);
      if els.Some? {
        StmtSizeExact(els.value, p);
      }
    case FoldedWhile(_, l, r, body) =>
      ExprSizeExact(l);
      ExprSizeExact(r);
      StmtSizeExact(body, p);
    case Emit(_, _, _, pre) => StmtsSizeExact(pre, p);
    case _ =>
  }

  lemma {:induction false} StmtsSizeExact(stmts: seq<Stmt>, p: Placement)
    ensures |EmitAll(stmts, p)| == StmtsSize(stmts)
  {
    hide EmitStmt, StmtSize;
    if stmts != [] {
      StmtSizeExact(stmts[0], p);
      StmtsSizeExact(stmts[1..], p);
    }
  }

  lemma EmitLength(s: Stmt, p: Placement)
    ensures |EmitStmt(s, p)| == |EmitStmt(s, Raw)|
  {
    StmtSizeExact(s, p);
    StmtSizeExact(s, Raw);
  }

  // ----- the reported stack depth -----

  function Max(a: nat, b: nat): nat { if a < b then b else a }

  function ExprDepth(e: Expr): (d: nat)
    ensures d >= 1
  {
    match e
    case Imm(_) => 1
    case Load(_) => 1
    case ArrayRead(_, _, index) => ExprDepth(index)
    case Unary(_, a) => ExprDepth(a)
    case Binary(_, l, r) => ExprDepth(l) + ExprDepth(r)
  }

  function TargetDepth(t: Target): nat { if t.Store? then 0 else ExprDepth(t.index) }

  function StackDepth(s: Stmt): nat
  {
    match s
    case Block(stmts) => StackDepthAll(stmts)
    case Assign(target, value) => Max(TargetDepth(target), ExprDepth(value))
    case IfWhen(_, cond, thn, els) =>
      Max(ExprDepth(cond), Max(StackDepth(thn), if els.Some? then StackDepth(els.value) else 0))
    case While(cond, body) => Max(ExprDepth(cond), StackDepth(body))
    case FoldedIf(_, _, l, r, thn, els) =>
      Max(ExprDepth(l) + ExprDepth(r), Max(StackDepth(thn), if els.Some? then StackDepth(els.value) else 0))
    case FoldedWhile(_, l, r, body) => Max(ExprDepth(l) + ExprDepth(r), StackDepth(body))
    case Emit(_, _, _, pre) => StackDepthAll(pre)
    case CallSub(_) => 0
    case Return => 0
  }

  function StackDepthAll(stmts: seq<Stmt>): nat
  {
    if stmts == [] then 0 else Max(StackDepth(stmts[0]), StackDepthAll(stmts[1..]))
  }

  // ----- the slots the machine needs -----

  function ExprPeak(e: Expr): (d: nat)
    ensures d >= 1
  {
    match e
    case Imm(_) => 1
    case Load(_) => 1
    case ArrayRead(_, _, index) => ExprPeak(index)
    case Unary(_, a) => ExprPeak(a)
    case Binary(_, l, r) => Max(ExprPeak(l), 1 + ExprPeak(r))
  }

  /** When the index of an array write is evaluated, the value is on the stack already. */
  function TargetPeak(t: Target): nat { if t.Store? then 1 else 1 + ExprPeak(t.index) }

  function Peak(s: Stmt): nat
  {
    match s
    case Block(stmts) => PeakAll(stmts)
    case Assign(target, value) => Max(TargetPeak(target), ExprPeak(value))
    case IfWhen(_, _, _, _) => 0
    case While(_, _) => 0
    case FoldedIf(_, op, l, r, thn, els) =>
      Max(ExprPeak(Binary(op, l, r)), Max(Peak(thn), if els.Some? then Peak(els.value) else 0))
    case FoldedWhile(op, l, r, body) => Max(ExprPeak(Binary(op, l, r)), Peak(body))
    case Emit(_, _, _, pre) => PeakAll(pre)
    case CallSub(_) => 0
    case Return => 0
  }

  function PeakAll(stmts: seq<Stmt>): nat
  {
    if stmts == [] then 0 else Max(Peak(stmts[0]), PeakAll(stmts[1..]))
  }

  predicate HasArrayWrite(s: Stmt)
  {
    match s
    case Block(stmts) => exists t | t in stmts :: HasArrayWrite(t)
    case Assign(target, _) => target.ArrayWrite?
    case IfWhen(_, _, thn, els) => HasArrayWrite(thn) || (els.Some? && HasArrayWrite(els.value))
    case While(_, body) => HasArrayWrite(body)
    case FoldedIf(_, _, _, _, thn, els) => HasArrayWrite(thn) || (els.Some? && HasArrayWrite(els.value))
    case FoldedWhile(_, _, _, body) => HasArrayWrite(body)
    case Emit(_, _, _, pre) => exists t | t in pre :: HasArrayWrite(t)
    case CallSub(_) => false
    case Return => false
  }

  lemma {:induction false} ExprPeakBound(e: Expr)
    ensures ExprPeak(e) <= ExprDepth(e)
  {
    match e
    case ArrayRead(_, _, index) => ExprPeakBound(index);
    case Unary(_, a) => ExprPeakBound(a);
    case Binary(_, l, r) =>
      ExprPeakBound(l);
      ExprPeakBound(r);
    case _ =>
  }

  /** The machine never needs more slots than reported, plus one where an array is written. */
  lemma {:induction false} PeakBound(s: Stmt)
    ensures Peak(s) <= StackDepth(s) + if HasArrayWrite(s) then 1 else 0
  {
    match s
    case Block(stmts) => PeakAllBound(stmts);
    case Assign(target, value) =>
      ExprPeakBound(value);
      if target.ArrayWrite? {
        ExprPeakBound(target.index);
      }
    case FoldedIf(_, op, l, r, thn, els) =>
      ExprPeakBound(Binary(op, l, r));
      PeakBound(thn);
      if els.Some? {
        PeakBound(els.value);
      }
    case FoldedWhile(op, l, r, body) =>
      ExprPeakBound(Binary(op, l, r));
      PeakBound(body);
    case Emit(_, _, _, pre) => PeakAllBound(pre);
    case _ =>
  }

  lemma {:induction false} PeakAllBound(stmts: seq<Stmt>)
    ensures PeakAll(stmts) <= StackDepthAll(stmts) + if exists t | t in stmts :: HasArrayWrite(t) then 1 else 0
  {
    if stmts != [] {
      PeakBound(stmts[0]);
      PeakAllBound(stmts[1..]);
    }
  }
}
