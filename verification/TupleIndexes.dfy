/** Tuples as indexes: exactly when the compiler fails an assertion on one of them. */
module TupleIndexes {
  import opened Words
  import opened Tree
  import opened VectorTree
  import opened Allocator
  import opened Expansion

  /** Trees as the parser builds them. Unlike in a well-formed tree, a tuple as index need not be
      constant. */
  predicate Parsed(e: VExpr)
  {
    match e
    case VImm(_) => true
    case Tuple(elems) => elems != [] && forall x | x in elems :: Parsed(x)
    case Mem(_, size, _, None) => size >= 1
    case Mem(_, size, _, Some(Tuple(elems))) => 1 <= size < 0x8000_0000 && (Immediate(elems) ==> Ordered(elems))
    case Mem(_, size, _, Some(index)) => size >= 1 && Parsed(index)
    case VUnary(_, a) => Parsed(a)
    case VBinary(_, l, r) => Parsed(l) && Parsed(r)
  }

  /** A constant index has one value, or two in order. */
  predicate Ordered(elems: seq<VExpr>)
    requires Immediate(elems)
  {
    1 <= |elems| <= 2 && (|elems| == 2 ==> elems[0].value <= elems[1].value)
  }

  // ----- tuples whose constants are asked for -----

  predicate AllConstant(tuples: set<seq<VExpr>>) { forall t | t in tuples :: Immediate(t) }

  /** While the size is computed: the bounds of a slice. Nothing after the first error. */
  function SizeTuples(e: VExpr): set<seq<VExpr>>
  {
    match e
    case VImm(_) => {}
    case Tuple(elems) => TotalTuples(elems)
    case Mem(_, _, _, None) => {}
    case Mem(_, _, _, Some(Tuple(elems))) =>
      TotalTuples(elems) + if TotalSize(elems) == VResult.Ok(2) then {elems} else {}
    case Mem(_, _, _, Some(_)) => {}
    case VUnary(_, a) => SizeTuples(a)
    case VBinary(_, l, r) => SizeTuples(l) + if VectorSize(l).Ok? then SizeTuples(r) else {}
  }

  function TotalTuples(elems: seq<VExpr>): set<seq<VExpr>>
  {
    if elems == [] then {}
    else SizeTuples(elems[0]) + if VectorSize(elems[0]).Ok? then TotalTuples(elems[1..]) else {}
  }

  /** While element i is expanded: the first word of a static access as well. */
  function ElementTuples(e: VExpr, i: nat): set<seq<VExpr>>
  {
    match e
    case VImm(_) => {}
    case Tuple(elems) => InTuples(elems, i)
    case Mem(_, _, _, None) => {}
    case Mem(_, _, _, Some(Tuple(elems))) => SizeTuples(e) + if VectorSize(e).Ok? then {elems} else {}
    case Mem(_, _, _, Some(index)) => ElementTuples(index, i)
    case VUnary(_, a) => ElementTuples(a, i)
    case VBinary(_, l, r) => ElementTuples(l, i) + if ExpandAt(l, i).Ok? then ElementTuples(r, i) else {}
  }

  function InTuples(elems: seq<VExpr>, i: nat): set<seq<VExpr>>
  {
    if elems == [] then {} else
    var n := VectorSize(elems[0]);
    SizeTuples(elems[0]) +
    if n.Err? then {} else if i < n.value then ElementTuples(elems[0], i) else InTuples(elems[1..], i - n.value)
  }

  // ----- sizes -----

  /** Computing a size fails an assertion if and only if it comes to a slice with bounds that are
      not constant. */
  lemma {:induction false} SizeAssertExact(e: VExpr)
    ensures VectorSize(e) == VResult.Err(AssertFailed) <==> !AllConstant(SizeTuples(e))
  {
    match e
    case VImm(_) =>
    case Tuple(elems) => TotalAssertExact(elems);
    case Mem(_, _, _, None) =>
    case Mem(_, _, _, Some(Tuple(elems))) =>
      TotalAssertExact(elems);
      if Immediate(elems) {
        ImmediateTotal(elems);
      }
    case Mem(_, _, _, Some(_)) =>
    case VUnary(_, a) => SizeAssertExact(a);
    case VBinary(_, l, r) =>
      SizeAssertExact(l);
      SizeAssertExact(r);
  }

  lemma {:induction false} TotalAssertExact(elems: seq<VExpr>)
    ensures TotalSize(elems) == VResult.Err(AssertFailed) <==> !AllConstant(TotalTuples(elems))
  {
    if elems != [] {
      SizeAssertExact(elems[0]);
      TotalAssertExact(elems[1..]);
    }
  }

  lemma {:induction false} ParsedPositive(e: VExpr)
    requires Parsed(e) && VectorSize(e).Ok?
    ensures VectorSize(e).value >= 1
  {
    match e
    case VImm(_) =>
    case Tuple(elems) => ParsedPositive(elems[0]);
    case Mem(_, _, _, None) =>
    case Mem(_, _, _, Some(Tuple(elems))) =>
      if Immediate(elems) {
        ImmediateTotal(elems);
      }
    case Mem(_, _, _, Some(index)) =>
    case VUnary(_, a) => ParsedPositive(a);
    case VBinary(_, l, r) => ParsedPositive(l);
  }

  // ----- elements -----

  /** Element i is there, as far as the size is known. */
  predicate HasElement(size: VResult<nat>, i: nat) { i == 0 || (size.Ok? && i < size.value) }

  /** Expanding an element fails an assertion if and only if it comes to a tuple as index that is
      not constant. */
  lemma {:induction false} ElementAssertExact(e: VExpr, i: nat)
    requires Parsed(e) && HasElement(VectorSize(e), i)
    ensures ExpandAt(e, i) == VResult.Err(AssertFailed) <==> !AllConstant(ElementTuples(e, i))
  {
    match e
    case VImm(_) =>
    case Tuple(elems) => InAssertExact(elems, i);
    case Mem(_, _, _, None) =>
    case Mem(_, _, _, Some(Tuple(elems))) =>
      SizeAssertExact(e);
      if VectorSize(e).Ok? {
        StaticAssertExact(e, i);
      }
    case Mem(_, _, _, Some(index)) => ElementAssertExact(index, i);
    case VUnary(_, a) => ElementAssertExact(a, i);
    case VBinary(_, l, r) =>
      ElementAssertExact(l, i);
      ElementAssertExact(r, i);
  }

  /** Under a tuple as index. */
  lemma StaticAssertExact(e: VExpr, i: nat)
    requires e.Mem? && e.index.Some? && e.index.value.Tuple? && Parsed(e) && HasElement(VectorSize(e), i)
    requires VectorSize(e).Ok?
    ensures ExpandAt(e, i) == VResult.Err(AssertFailed) <==> !Immediate(e.index.value.elems)
  {
    ParsedPositive(e);
  }

  lemma {:induction false} InAssertExact(elems: seq<VExpr>, i: nat)
    requires elems != [] && (forall x | x in elems :: Parsed(x)) && HasElement(TotalSize(elems), i)
    ensures ExpandIn(elems, i) == VResult.Err(AssertFailed) <==> !AllConstant(InTuples(elems, i))
  {
    hide Parsed;
    SizeAssertExact(elems[0]);
    var n := VectorSize(elems[0]);
    if n.Ok? {
      ParsedPositive(elems[0]);
      if i < n.value {
        ElementAssertExact(elems[0], i);
      } else {
        InAssertExact(elems[1..], i - n.value);
      }
    }
  }

  lemma TargetAssertExact(e: VExpr, i: nat)
    requires e.Mem? && Parsed(e) && HasElement(VectorSize(e), i)
    ensures ExpandTarget(e, i) == VResult.Err(AssertFailed) <==> !AllConstant(ElementTuples(e, i))
  {
    ElementAssertExact(e, i);
    if !StaticIndex(e) {
      ElementAssertExact(e.index.value, i);
    }
  }

  // ----- assignments -----

  /** Element by element, from i on. */
  function AssignsTuples(left: VExpr, right: VExpr, i: nat, n: nat): set<seq<VExpr>>
    requires left.Mem?
    decreases n - i
  {
    if i >= n then {} else
    ElementTuples(left, i) +
    if ExpandTarget(left, i).Err? then {} else
    ElementTuples(right, i) +
    if ExpandAt(right, i).Err? then {} else AssignsTuples(left, right, i + 1, n)
  }

  lemma {:induction false} AssignsAssertExact(left: VExpr, right: VExpr, i: nat, n: nat)
    requires left.Mem? && Parsed(left) && Parsed(right)
    requires VectorSize(left) == VResult.Ok(n) && VectorSize(right) == VResult.Ok(n)
    ensures Assigns(left, right, i, n) == VResult.Err(AssertFailed) <==> !AllConstant(AssignsTuples(left, right, i, n))
    decreases n - i
  {
    hide Parsed, ExpandTarget, ExpandAt, ElementTuples, VectorSize;
    if i < n {
      TargetAssertExact(left, i);
      ElementAssertExact(right, i);
      AssignsAssertExact(left, right, i + 1, n);
    }
  }

  /** The size check and then the expansion. */
  function CheckAndExpand(left: VExpr, right: VExpr, sp: Space, tempName: string): VResult<(Stmt, Space)>
    requires left.Mem?
  {
    var m :- VectorSize(left);
    var n :- VectorSize(right);
    if m != n then VResult.Err(SizeMismatch) else ExpandAssign(left, right, sp, tempName)
  }

  /** Through a temporary, the right side goes to the temporary and the temporary to the left. */
  function ThroughTuples(left: VExpr, right: VExpr, sp: Space, tempName: string, n: nat): set<seq<VExpr>>
    requires left.Mem?
  {
    var a := Allocate(sp, n);
    if a.Err? then {} else
    var temp := Mem(a.value.1, n, tempName, None);
    AssignsTuples(temp, right, 0, n) +
    if Assigns(temp, right, 0, n).Err? then {} else AssignsTuples(left, temp, 0, n)
  }

  /** The tuples whose constants the compiler asks for, up to the first error. */
  function TuplesAskedFor(left: VExpr, right: VExpr, sp: Space, tempName: string): set<seq<VExpr>>
    requires left.Mem?
  {
    SizeTuples(left) +
    if VectorSize(left).Err? then {} else
    SizeTuples(right) +
    if VectorSize(right) != VectorSize(left) then {} else
    var n := VectorSize(left).value;
    if NeedsTemporary(left, right) then ThroughTuples(left, right, sp, tempName, n)
    else AssignsTuples(left, right, 0, n)
  }

  /** Checking and expanding an assignment fails an assertion of the compiler if and only if it
      comes to a tuple as index that is not constant. */
  lemma TupleIndexExact(left: VExpr, right: VExpr, sp: Space, tempName: string)
    requires left.Mem? && Parsed(left) && Parsed(right)
    ensures CheckAndExpand(left, right, sp, tempName) == VResult.Err(AssertFailed) <==>
            !AllConstant(TuplesAskedFor(left, right, sp, tempName))
  {
    hide VectorSize, Parsed, Assigns, AssignsTuples, SizeTuples, Mentions, ThroughTuples;
    SizeAssertExact(left);
    SizeAssertExact(right);
    if VectorSize(left).Ok? && VectorSize(right) == VectorSize(left) {
      var n := VectorSize(left).value;
      if NeedsTemporary(left, right) {
        ThroughAssertExact(left, right, sp, tempName, n);
      } else {
        AssignsAssertExact(left, right, 0, n);
      }
    }
  }

  lemma ThroughAssertExact(left: VExpr, right: VExpr, sp: Space, tempName: string, n: nat)
    requires left.Mem? && Parsed(left) && Parsed(right) && NeedsTemporary(left, right)
    requires VectorSize(left) == VResult.Ok(n) && VectorSize(right) == VResult.Ok(n)
    ensures ExpandAssign(left, right, sp, tempName) == VResult.Err(AssertFailed) <==>
            !AllConstant(ThroughTuples(left, right, sp, tempName, n))
  {
    hide Assigns, AssignsTuples, Mentions, Parsed, VectorSize;
    var a := Allocate(sp, n);
    if a.Ok? {
      var temp := Mem(a.value.1, n, tempName, None);
      TemporaryParsed(temp, n);
      ParsedPositive(left);
      AssignsAssertExact(temp, right, 0, n);
      AssignsAssertExact(left, temp, 0, n);
    }
  }

  lemma TemporaryParsed(temp: VExpr, n: nat)
    requires temp.Mem? && temp.index.None? && temp.size == n
    ensures VectorSize(temp) == VResult.Ok(n) && (n >= 1 ==> Parsed(temp))
  {
  }

  /** `v = a[[x]] + 1` passes the size check and then fails an assertion. */
  lemma TupleIndexCounterexample(sp: Space)
    ensures var v, e := Mem(5, 1, "v", None), Mem(0, 4, "a", Some(Tuple([Mem(4, 1, "x", None)])));
            var right := VBinary(Add, e, VImm(1));
            VectorSize(v) == VectorSize(right) && CheckAndExpand(v, right, sp, "temp0") == VResult.Err(AssertFailed)
  {
    var t := [Mem(4, 1, "x", None)];
    assert TotalSize(t[1..]) == VResult.Ok(0) && TotalSize(t) == VResult.Ok(1);
    assert !t[0].VImm?;
    var v, e := Mem(5, 1, "v", None), Mem(0, 4, "a", Some(Tuple(t)));
    assert ExpandAt(e, 0) == VResult.Err(AssertFailed);
    assert ExpandTarget(v, 0).Ok?;
    assert !Mentions(VBinary(Add, e, VImm(1)), "v");
    assert Assigns(v, VBinary(Add, e, VImm(1)), 0, 1) == VResult.Err(AssertFailed);
  }
}
