/** Vectorial expressions: sizes, addresses, element-wise expansion to scalars, and their meaning. */
module VectorTree {
  import opened Words
  import opened Tree
  import opened Semantics

  datatype VExpr =
    | VImm(value: int32)
    | Tuple(elems: seq<VExpr>)
    | Mem(base: nat, size: nat, name: string, index: Option<VExpr>)
    | VUnary(uop: UnOp, arg: VExpr)
    | VBinary(op: BinOp, left: VExpr, right: VExpr)

  /** AssertFailed stands for an assertion of the compiler that does not hold. */
  datatype ExpandError =
    SizeMismatch | OutOfBound | IllegalAccess | IncorrectLeftValue | NoTemporarySpace | AssertFailed

  datatype VResult<+T> = Ok(value: T) | Err(error: ExpandError)
  {
    predicate IsFailure() { Err? }
    function PropagateFailure<U>(): VResult<U> requires Err? { Err(error) }
    function Extract(): T requires Ok? { value }
  }

  // ----- sizes and addresses -----

  predicate Immediate(elems: seq<VExpr>) { forall e | e in elems :: e.VImm? }

  /** The n-th constant of an index. */
  function ImmediateValue(elems: seq<VExpr>, n: nat): VResult<int>
  {
    if n < |elems| && Immediate(elems) then Ok(elems[n].value) else Err(AssertFailed)
  }

  function VectorSize(e: VExpr): VResult<nat>
  {
    match e
    case VImm(_) => Ok(1)
    case Tuple(elems) => TotalSize(elems)
    case Mem(_, size, _, None) => Ok(size)
    case Mem(_, size, _, Some(Tuple(elems))) =>
      var n :- TotalSize(elems);
      if n == 1 then Ok(1)
      else if n != 2 then Err(IllegalAccess)
      else
        var first :- ImmediateValue(elems, 0);
        var last :- ImmediateValue(elems, 1);
        if last < 0 || last >= size then Err(OutOfBound) else Ok((last - first + 1) % 0x1_0000_0000)
    case Mem(_, _, _, Some(_)) => Ok(1)
    case VUnary(_, a) => VectorSize(a)
    case VBinary(_, l, r) =>
      var m :- VectorSize(l);
      var n :- VectorSize(r);
      if m == n then Ok(m) else Err(SizeMismatch)
  }

  function TotalSize(elems: seq<VExpr>): VResult<nat>
  {
    if elems == [] then Ok(0) else
    var m :- VectorSize(elems[0]);
    var n :- TotalSize(elems[1..]);
    Ok(m + n)
  }

  /** The index is fixed at compile time, or there is none. */
  predicate StaticIndex(e: VExpr)
    requires e.Mem?
  {
    e.index.None? || e.index.value.Tuple?
  }

  /** The address of the first accessed word. */
  function VectorAddr(e: VExpr): VResult<nat>
    requires e.Mem? && StaticIndex(e)
  {
    var shift :- if e.index.None? then Ok(0) else ImmediateValue(e.index.value.elems, 0);
    if shift < 0 || shift >= e.size then Err(OutOfBound) else Ok(e.base + shift)
  }

  // ----- expansion -----

  /** The scalar expression for element i. */
  function ExpandAt(e: VExpr, i: nat): VResult<Expr>
  {
    match e
    case VImm(v) => if i == 0 then Ok(Imm(v)) else Err(AssertFailed)
    case Tuple(elems) => ExpandIn(elems, i)
    case Mem(base, size, _, index) =>
      var n :- VectorSize(e);
      if i >= n then Err(AssertFailed)
      else if StaticIndex(e) then
        var addr :- StaticWord(e, i);
        Ok(Load(addr))
      else
        var x :- ExpandAt(index.value, i);
        Ok(ArrayRead(base, size, x))
    case VUnary(op, a) =>
      var x :- ExpandAt(a, i);
      Ok(Unary(op, x))
    case VBinary(op, l, r) =>
      var x :- ExpandAt(l, i);
      var y :- ExpandAt(r, i);
      Ok(Binary(op, x, y))
  }

  /** Element i of several vectors in a row. */
  function ExpandIn(elems: seq<VExpr>, i: nat): VResult<Expr>
  {
    if elems == [] then Err(AssertFailed) else
    var n :- VectorSize(elems[0]);
    if i < n then ExpandAt(elems[0], i) else ExpandIn(elems[1..], i - n)
  }

  /** The word of element i, which has to lie inside the array. */
  function StaticWord(e: VExpr, i: nat): VResult<nat>
    requires e.Mem? && StaticIndex(e)
  {
    var addr :- VectorAddr(e);
    if addr + i >= e.base + e.size then Err(OutOfBound) else Ok(addr + i)
  }

  function ExpandTarget(e: VExpr, i: nat): VResult<Target>
    requires e.Mem?
  {
    var n :- VectorSize(e);
    if i >= n then Err(AssertFailed)
    else if StaticIndex(e) then
      var addr :- StaticWord(e, i);
      Ok(Store(addr))
    else
      var x :- ExpandAt(e.index.value, i);
      Ok(ArrayWrite(e.base, e.size, x))
  }

  /** The loop that looks for the child of a tuple which holds element i. */
  method FindElement(elems: seq<VExpr>, i: nat) returns (r: VResult<Expr>)
    ensures r == ExpandIn(elems, i)
  {
    var total, prevTotal, k := 0, 0, 0;
    assert elems[0..] == elems;
    while k < |elems|
      invariant 0 <= k <= |elems| && 0 <= total <= i
      invariant ExpandIn(elems, i) == ExpandIn(elems[k..], i - total)
    {
      assert elems[k..][0] == elems[k] && elems[k..][1..] == elems[k + 1..];
      prevTotal := total;
      var n := VectorSize(elems[k]);
      if n.Err? {
        return Err(n.error);
      }
      total := total + n.value;
      if i < total {
        return ExpandAt(elems[k], i - prevTotal);
      }
      k := k + 1;
    }
    assert elems[k..] == [];
    r := Err(AssertFailed);
  }

  // ----- meaning -----

  /** One element of a vector, None where its evaluation faults. */
  type Cell = Option<int16>

  function Lift1(op: UnOp, a: Cell): Cell { if a.None? then None else Some(Unary16(op, a.value)) }

  function Lift2(op: BinOp, a: Cell, b: Cell): Cell {
    if a.None? || b.None? then None else Binary16(op, a.value, b.value)
  }

  function Word(mem: seq<int16>, addr: int): Cell { if 0 <= addr < |mem| then Some(mem[addr]) else None }

  function Lookup(base: nat, size: nat, i: Cell, mem: seq<int16>): Cell
  {
    if i.None? then None else
    var p := Element(base, size, i.value, mem);
    if p.None? then None else Some(mem[p.value])
  }

  /** The access to the element that a computed index designates. */
  function Access(base: nat, size: nat, index: seq<Cell>, mem: seq<int16>): seq<Cell>
  {
    if index == [] then [] else [Lookup(base, size, index[0], mem)]
  }

  /** The n words from `addr` on. */
  function Stretch(mem: seq<int16>, addr: int, n: nat): (v: seq<Cell>)
    ensures |v| == n && forall i | 0 <= i < n :: v[i] == Word(mem, addr + i)
  {
    if n == 0 then [] else Stretch(mem, addr, n - 1) + [Word(mem, addr + n - 1)]
  }

  function Zip(op: BinOp, a: seq<Cell>, b: seq<Cell>): (v: seq<Cell>)
    ensures |v| == if |a| <= |b| then |a| else |b|
    ensures forall i | 0 <= i < |v| :: v[i] == Lift2(op, a[i], b[i])
  {
    if a == [] || b == [] then [] else [Lift2(op, a[0], b[0])] + Zip(op, a[1..], b[1..])
  }

  function Each(op: UnOp, a: seq<Cell>): (v: seq<Cell>)
    ensures |v| == |a| && forall i | 0 <= i < |a| :: v[i] == Lift1(op, a[i])
  {
    if a == [] then [] else [Lift1(op, a[0])] + Each(op, a[1..])
  }

  /** The value of a vectorial expression: tuples put vectors in a row, a slice is a stretch of
      memory, operators work element by element, and a computed index is its first element. */
  function Vector(e: VExpr, mem: seq<int16>): seq<Cell>
  {
    match e
    case VImm(v) => [Some(Wrap16(v))]
    case Tuple(elems) => Vectors(elems, mem)
    case Mem(base, size, _, None) => Stretch(mem, base, size)
    case Mem(base, size, _, Some(Tuple(elems))) =>
      if elems == [] || !Immediate(elems) then []
      else if |elems| == 1 then Stretch(mem, base + elems[0].value, 1)
      else Stretch(mem, base + elems[0].value,
                 if elems[0].value <= elems[1].value then elems[1].value - elems[0].value + 1 else 0)
    case Mem(base, size, _, Some(index)) => Access(base, size, Vector(index, mem), mem)
    case VUnary(op, a) => Each(op, Vector(a, mem))
    case VBinary(op, l, r) => Zip(op, Vector(l, mem), Vector(r, mem))
  }

  function Vectors(elems: seq<VExpr>, mem: seq<int16>): seq<Cell>
  {
    if elems == [] then [] else Vector(elems[0], mem) + Vectors(elems[1..], mem)
  }

  // ----- well-formed trees -----

  /** Trees as the parser builds them: no empty vector, constant indexes of one or two ordered
      values. A tuple as index has to be constant, which the parser does not make sure of. */
  predicate WellFormed(e: VExpr)
  {
    match e
    case VImm(_) => true
    case Tuple(elems) => elems != [] && forall x | x in elems :: WellFormed(x)
    case Mem(_, size, _, None) => size >= 1
    case Mem(_, size, _, Some(Tuple(elems))) =>
      && 1 <= size < 0x8000_0000 && Immediate(elems) && 1 <= |elems| <= 2
      && (|elems| == 2 ==> elems[0].value <= elems[1].value)
    case Mem(_, size, _, Some(index)) => size >= 1 && WellFormed(index)
    case VUnary(_, a) => WellFormed(a)
    case VBinary(_, l, r) => WellFormed(l) && WellFormed(r)
  }

  lemma {:induction false} VectorNonEmpty(e: VExpr, mem: seq<int16>)
    requires WellFormed(e)
    ensures |Vector(e, mem)| >= 1
  {
    match e
    case VImm(_) =>
    case Tuple(elems) => VectorNonEmpty(elems[0], mem);
    case Mem(_, _, _, None) =>
    case Mem(_, _, _, Some(Tuple(elems))) =>
    case Mem(_, _, _, Some(index)) => VectorNonEmpty(index, mem);
    case VUnary(_, a) => VectorNonEmpty(a, mem);
    case VBinary(_, l, r) =>
      VectorNonEmpty(l, mem);
      VectorNonEmpty(r, mem);
  }

  lemma {:induction false} ImmediateTotal(elems: seq<VExpr>)
    requires Immediate(elems)
    ensures TotalSize(elems) == Ok(|elems|)
  {
    if elems != [] {
      ImmediateTotal(elems[1..]);
    }
  }

  /** The size the compiler computes is the length of the value. */
  lemma {:induction false} SizeIsLength(e: VExpr, mem: seq<int16>)
    requires WellFormed(e) && VectorSize(e).Ok?
    ensures VectorSize(e).value == |Vector(e, mem)|
  {
    match e
    case VImm(_) =>
    case Tuple(elems) => TotalIsLength(elems, mem);
    case Mem(_, _, _, None) =>
    case Mem(_, _, _, Some(Tuple(elems))) => ImmediateTotal(elems);
    case Mem(_, _, _, Some(index)) => VectorNonEmpty(index, mem);
    case VUnary(_, a) => SizeIsLength(a, mem);
    case VBinary(_, l, r) =>
      SizeIsLength(l, mem);
      SizeIsLength(r, mem);
  }

  lemma {:induction false} TotalIsLength(elems: seq<VExpr>, mem: seq<int16>)
    requires (forall x | x in elems :: WellFormed(x)) && TotalSize(elems).Ok?
    ensures TotalSize(elems).value == |Vectors(elems, mem)|
  {
    if elems != [] {
      SizeIsLength(elems[0], mem);
      TotalIsLength(elems[1..], mem);
    }
  }

  lemma StaticMeaning(e: VExpr, i: nat, mem: seq<int16>)
    requires e.Mem? && StaticIndex(e) && WellFormed(e) && i < |Vector(e, mem)|
    ensures ExpandAt(e, i) != Err(AssertFailed)
    ensures ExpandAt(e, i).Ok? ==> Eval(ExpandAt(e, i).value, mem) == Vector(e, mem)[i]
  {
    if e.index.Some? {
      ImmediateTotal(e.index.value.elems);
    }
  }

  /** Expansion of element i fails no assertion, and its scalar means element i of the value. */
  lemma {:induction false} ExpandMeaning(e: VExpr, i: nat, mem: seq<int16>)
    requires WellFormed(e) && i < |Vector(e, mem)|
    ensures ExpandAt(e, i) != Err(AssertFailed)
    ensures ExpandAt(e, i).Ok? ==> Eval(ExpandAt(e, i).value, mem) == Vector(e, mem)[i]
  {
    hide Binary16, Unary16, Wrap16;
    match e
    case VImm(_) =>
    case Tuple(elems) => ExpandInMeaning(elems, i, mem);
    case Mem(_, _, _, index) =>
      if StaticIndex(e) {
        StaticMeaning(e, i, mem);
      } else {
        VectorNonEmpty(index.value, mem);
        ExpandMeaning(index.value, 0, mem);
      }
    case VUnary(_, a) => ExpandMeaning(a, i, mem);
    case VBinary(_, l, r) =>
      ExpandMeaning(l, i, mem);
      ExpandMeaning(r, i, mem);
  }

  lemma {:induction false} ExpandInMeaning(elems: seq<VExpr>, i: nat, mem: seq<int16>)
    requires (forall x | x in elems :: WellFormed(x)) && i < |Vectors(elems, mem)|
    ensures ExpandIn(elems, i) != Err(AssertFailed)
    ensures ExpandIn(elems, i).Ok? ==> Eval(ExpandIn(elems, i).value, mem) == Vectors(elems, mem)[i]
  {
    hide Eval, Vector;
    SizeNoAssert(elems[0]);
    if VectorSize(elems[0]).Ok? {
      SizeIsLength(elems[0], mem);
      var n := |Vector(elems[0], mem)|;
      if i < n {
        ExpandMeaning(elems[0], i, mem);
      } else {
        ExpandInMeaning(elems[1..], i - n, mem);
      }
    }
  }

  /** Computing a size fails no assertion either. */
  lemma {:induction false} SizeNoAssert(e: VExpr)
    requires WellFormed(e)
    ensures VectorSize(e) != Err(AssertFailed)
  {
    match e
    case VImm(_) =>
    case Tuple(elems) => TotalNoAssert(elems);
    case Mem(_, _, _, None) =>
    case Mem(_, _, _, Some(Tuple(elems))) => ImmediateTotal(elems);
    case Mem(_, _, _, Some(index)) =>
    case VUnary(_, a) => SizeNoAssert(a);
    case VBinary(_, l, r) =>
      SizeNoAssert(l);
      SizeNoAssert(r);
  }

  lemma {:induction false} TotalNoAssert(elems: seq<VExpr>)
    requires forall x | x in elems :: WellFormed(x)
    ensures TotalSize(elems) != Err(AssertFailed)
  {
    if elems != [] {
      SizeNoAssert(elems[0]);
      TotalNoAssert(elems[1..]);
    }
  }
}
