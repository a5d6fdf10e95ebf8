/** Exactly which vector programs are accepted: sizes that agree, accesses inside their arrays, and
    room for the temporaries. */
module Acceptance {
  import opened Words
  import opened Tree
  import opened VectorTree
  import opened Allocator
  import opened Expansion
  import opened VectorProgram

  /** First and last word of a constant index. */
  predicate InArray(elems: seq<VExpr>, size: nat)
    requires elems != [] && Immediate(elems)
  {
    0 <= elems[0].value && elems[|elems| - 1].value < size
  }

  // ----- sizes -----

  /** Slices that end inside their array and operands of the same length. A computed index is not
      looked at, nor where a slice starts. */
  predicate Sized(e: VExpr, mem: seq<int16>)
  {
    match e
    case VImm(_) => true
    case Tuple(elems) => forall x | x in elems :: Sized(x, mem)
    case Mem(_, _, _, None) => true
    case Mem(_, size, _, Some(Tuple(elems))) => |elems| == 2 && elems[1].VImm? ==> 0 <= elems[1].value < size
    case Mem(_, _, _, Some(_)) => true
    case VUnary(_, a) => Sized(a, mem)
    case VBinary(_, l, r) => Sized(l, mem) && Sized(r, mem) && |Vector(l, mem)| == |Vector(r, mem)|
  }

  /** The size check passes exactly on such trees. */
  lemma {:induction false} SizeOkExact(e: VExpr, mem: seq<int16>)
    requires WellFormed(e)
    ensures VectorSize(e).Ok? <==> Sized(e, mem)
  {
    match e
    case VImm(_) =>
    case Tuple(elems) => TotalOkExact(elems, mem);
    case Mem(_, _, _, None) =>
    case Mem(_, _, _, Some(Tuple(elems))) => ImmediateTotal(elems);
    case Mem(_, _, _, Some(index)) =>
    case VUnary(_, a) => SizeOkExact(a, mem);
    case VBinary(_, l, r) =>
      SizeOkExact(l, mem);
      SizeOkExact(r, mem);
      if Sized(l, mem) && Sized(r, mem) {
        SizeIsLength(l, mem);
        SizeIsLength(r, mem);
      }
  }

  lemma {:induction false} TotalOkExact(elems: seq<VExpr>, mem: seq<int16>)
    requires forall x | x in elems :: WellFormed(x)
    ensures TotalSize(elems).Ok? <==> forall x | x in elems :: Sized(x, mem)
  {
    if elems != [] {
      hide WellFormed, Sized;
      assert elems[0] in elems && forall x :: x in elems <==> x == elems[0] || x in elems[1..];
      SizeOkExact(elems[0], mem);
      TotalOkExact(elems[1..], mem);
    }
  }

  /** The nodes the size check comes to, before the first error. */
  function Checked(e: VExpr): set<VExpr>
  {
    match e
    case VImm(_) => {}
    case Tuple(elems) => AllChecked(elems)
    case Mem(_, _, _, _) => {e}
    case VUnary(_, a) => Checked(a)
    case VBinary(_, l, r) =>
      Checked(l) +
      if VectorSize(l).Err? then {} else Checked(r) + if VectorSize(r).Ok? then {e} else {}
  }

  function AllChecked(elems: seq<VExpr>): set<VExpr>
  {
    if elems == [] then {}
    else Checked(elems[0]) + if VectorSize(elems[0]).Ok? then AllChecked(elems[1..]) else {}
  }

  /** What the size check has against a node. */
  function SizeErrorOf(e: VExpr, mem: seq<int16>): Option<ExpandError>
  {
    match e
    case Mem(_, size, _, Some(Tuple(elems))) =>
      if |elems| == 2 && elems[1].VImm? && !(0 <= elems[1].value < size) then Some(OutOfBound) else None
    case VBinary(_, l, r) => if |Vector(l, mem)| != |Vector(r, mem)| then Some(SizeMismatch) else None
    case _ => None
  }

  predicate AnySizeError(nodes: set<VExpr>, mem: seq<int16>, error: ExpandError) {
    exists x | x in nodes :: SizeErrorOf(x, mem) == Some(error)
  }

  lemma SizeErrorUnion(a: set<VExpr>, b: set<VExpr>, mem: seq<int16>, error: ExpandError)
    ensures AnySizeError(a + b, mem, error) <==> AnySizeError(a, mem, error) || AnySizeError(b, mem, error)
  {
    hide SizeErrorOf;
    if x :| x in a && SizeErrorOf(x, mem) == Some(error) {
      assert x in a + b;
    }
    if x :| x in b && SizeErrorOf(x, mem) == Some(error) {
      assert x in a + b;
    }
  }

  lemma SizeErrorOne(e: VExpr, mem: seq<int16>, error: ExpandError)
    ensures AnySizeError({e}, mem, error) <==> SizeErrorOf(e, mem) == Some(error)
    ensures !AnySizeError({}, mem, error)
  {
    hide SizeErrorOf;
    assert e in {e};
  }

  /** The size check reports a slice past the end, or operands of different length, if and only if it
      comes to one. */
  lemma {:induction false} SizeErrorExact(e: VExpr, mem: seq<int16>, error: ExpandError)
    requires WellFormed(e)
    ensures VectorSize(e) == VResult.Err(error) <==> AnySizeError(Checked(e), mem, error)
  {
    hide AnySizeError, Vector;
    SizeErrorOne(e, mem, error);
    match e
    case VImm(_) =>
    case Tuple(elems) => TotalErrorExact(elems, mem, error);
    case Mem(_, _, _, None) =>
    case Mem(_, _, _, Some(Tuple(elems))) => ImmediateTotal(elems);
    case Mem(_, _, _, Some(index)) =>
    case VUnary(_, a) => SizeErrorExact(a, mem, error);
    case VBinary(_, l, r) =>
      SizeErrorExact(l, mem, error);
      SizeErrorExact(r, mem, error);
      var own := if VectorSize(r).Ok? then {e} else {};
      SizeErrorUnion(Checked(r), own, mem, error);
      SizeErrorUnion(Checked(l), if VectorSize(l).Err? then {} else Checked(r) + own, mem, error);
      if VectorSize(l).Ok? && VectorSize(r).Ok? {
        SizeIsLength(l, mem);
        SizeIsLength(r, mem);
      }
  }

  lemma {:induction false} TotalErrorExact(elems: seq<VExpr>, mem: seq<int16>, error: ExpandError)
    requires forall x | x in elems :: WellFormed(x)
    ensures TotalSize(elems) == VResult.Err(error) <==> AnySizeError(AllChecked(elems), mem, error)
  {
    hide AnySizeError, WellFormed, Checked;
    SizeErrorOne(VImm(0), mem, error);
    if elems != [] {
      SizeErrorExact(elems[0], mem, error);
      TotalErrorExact(elems[1..], mem, error);
      SizeErrorUnion(Checked(elems[0]), if VectorSize(elems[0]).Ok? then AllChecked(elems[1..]) else {}, mem, error);
    }
  }

  // ----- elements -----

  /** The static accesses that element i needs lie inside their arrays. Sizes matter where they
      decide which part of a tuple holds the element. */
  predicate Reads(e: VExpr, i: nat, mem: seq<int16>)
  {
    match e
    case VImm(_) => true
    case Tuple(elems) => ReadsIn(elems, i, mem)
    case Mem(_, _, _, None) => true
    case Mem(_, size, _, Some(Tuple(elems))) => elems != [] && Immediate(elems) && InArray(elems, size)
    case Mem(_, _, _, Some(index)) => Reads(index, 0, mem)
    case VUnary(_, a) => Reads(a, i, mem)
    case VBinary(_, l, r) => Reads(l, i, mem) && Reads(r, i, mem)
  }

  predicate ReadsIn(elems: seq<VExpr>, i: nat, mem: seq<int16>)
  {
    && elems != [] && Sized(elems[0], mem)
    && var n := |Vector(elems[0], mem)|;
       if i < n then Reads(elems[0], i, mem) else ReadsIn(elems[1..], i - n, mem)
  }

  /** Element i expands if and only if the accesses it needs are in range. */
  lemma {:induction false} ExpandOkExact(e: VExpr, i: nat, mem: seq<int16>)
    requires WellFormed(e) && i < |Vector(e, mem)|
    ensures ExpandAt(e, i).Ok? <==> Reads(e, i, mem)
  {
    match e
    case VImm(_) =>
    case Tuple(elems) => ExpandInOkExact(elems, i, mem);
    case Mem(_, _, _, None) =>
    case Mem(_, _, _, Some(Tuple(elems))) => ImmediateTotal(elems);
    case Mem(_, _, _, Some(index)) =>
      VectorNonEmpty(index, mem);
      ExpandOkExact(index, 0, mem);
    case VUnary(_, a) => ExpandOkExact(a, i, mem);
    case VBinary(_, l, r) =>
      ExpandOkExact(l, i, mem);
      ExpandOkExact(r, i, mem);
  }

  lemma {:induction false} ExpandInOkExact(elems: seq<VExpr>, i: nat, mem: seq<int16>)
    requires (forall x | x in elems :: WellFormed(x)) && i < |Vectors(elems, mem)|
    ensures ExpandIn(elems, i).Ok? <==> ReadsIn(elems, i, mem)
  {
    hide Vector, WellFormed, Sized, Reads;
    SizeOkExact(elems[0], mem);
    if VectorSize(elems[0]).Ok? {
      SizeIsLength(elems[0], mem);
      var n := |Vector(elems[0], mem)|;
      if i < n {
        ExpandOkExact(elems[0], i, mem);
      } else {
        ExpandInOkExact(elems[1..], i - n, mem);
      }
    }
  }

  /** All static accesses lie inside their arrays, and so do those that the first element of a
      computed index needs. */
  predicate InRange(e: VExpr, mem: seq<int16>)
  {
    match e
    case VImm(_) => true
    case Tuple(elems) => forall x | x in elems :: InRange(x, mem)
    case Mem(_, _, _, None) => true
    case Mem(_, size, _, Some(Tuple(elems))) => elems != [] && Immediate(elems) && InArray(elems, size)
    case Mem(_, _, _, Some(index)) => Reads(index, 0, mem)
    case VUnary(_, a) => InRange(a, mem)
    case VBinary(_, l, r) => InRange(l, mem) && InRange(r, mem)
  }

  /** The elements from i up to n have what they need. */
  predicate ReadsFrom(e: VExpr, i: nat, n: nat, mem: seq<int16>) { forall j: nat | i <= j < n :: Reads(e, j, mem) }

  predicate AllRead(e: VExpr, mem: seq<int16>) { ReadsFrom(e, 0, |Vector(e, mem)|, mem) }

  predicate AllReadIn(elems: seq<VExpr>, mem: seq<int16>) {
    forall i | 0 <= i < |Vectors(elems, mem)| :: ReadsIn(elems, i, mem)
  }

  lemma {:induction false} InRangeMeans(e: VExpr, mem: seq<int16>)
    requires WellFormed(e) && Sized(e, mem)
    ensures InRange(e, mem) <==> AllRead(e, mem)
  {
    hide AllRead, AllReadIn;
    VectorNonEmpty(e, mem);
    match e
    case VImm(_) => FirstOfMany(e, mem);
    case Tuple(elems) =>
      InRangeAll(elems, mem);
      TupleRead(e, mem);
    case Mem(_, _, _, _) => FirstOfMany(e, mem);
    case VUnary(_, a) =>
      InRangeMeans(a, mem);
      ArgumentRead(e, mem);
    case VBinary(_, l, r) =>
      InRangeMeans(l, mem);
      InRangeMeans(r, mem);
      BothRead(e, mem);
  }

  /** For an access to memory all elements need the same. */
  lemma FirstOfMany(e: VExpr, mem: seq<int16>)
    requires (e.Mem? || e.VImm?) && |Vector(e, mem)| >= 1
    ensures AllRead(e, mem) <==> Reads(e, 0, mem)
  {
    hide Vector;
  }

  lemma TupleRead(e: VExpr, mem: seq<int16>)
    requires e.Tuple?
    ensures AllRead(e, mem) <==> AllReadIn(e.elems, mem)
  {
    hide Vectors, ReadsIn;
    forall i: nat
      ensures Reads(e, i, mem) <==> ReadsIn(e.elems, i, mem)
    {
    }
  }

  lemma ArgumentRead(e: VExpr, mem: seq<int16>)
    requires e.VUnary?
    ensures AllRead(e, mem) <==> AllRead(e.arg, mem)
  {
    forall i: nat
      ensures Reads(e, i, mem) <==> Reads(e.arg, i, mem)
    {
    }
    assert |Vector(e, mem)| == |Vector(e.arg, mem)|;
  }

  lemma BothRead(e: VExpr, mem: seq<int16>)
    requires e.VBinary? && |Vector(e.left, mem)| == |Vector(e.right, mem)|
    ensures AllRead(e, mem) <==> AllRead(e.left, mem) && AllRead(e.right, mem)
  {
    forall i: nat
      ensures Reads(e, i, mem) <==> Reads(e.left, i, mem) && Reads(e.right, i, mem)
    {
    }
    assert |Vector(e, mem)| == |Vector(e.left, mem)|;
  }

  lemma {:induction false} InRangeAll(elems: seq<VExpr>, mem: seq<int16>)
    requires forall x | x in elems :: WellFormed(x) && Sized(x, mem)
    ensures (forall x | x in elems :: InRange(x, mem)) <==> AllReadIn(elems, mem)
  {
    hide Vector, WellFormed, Sized, Reads, InRange;
    if elems != [] {
      var n, rest := |Vector(elems[0], mem)|, elems[1..];
      assert elems[0] in elems && forall x :: x in elems <==> x == elems[0] || x in rest;
      InRangeMeans(elems[0], mem);
      InRangeAll(rest, mem);
      PartsRead(elems, mem);
    }
  }

  /** The elements of a tuple are those of its first part and those of the rest. */
  lemma PartsRead(elems: seq<VExpr>, mem: seq<int16>)
    requires elems != [] && Sized(elems[0], mem)
    ensures AllReadIn(elems, mem) <==> AllRead(elems[0], mem) && AllReadIn(elems[1..], mem)
  {
    hide Vector, Sized, Reads;
    var n, rest := |Vector(elems[0], mem)|, elems[1..];
    assert |Vectors(elems, mem)| == n + |Vectors(rest, mem)|;
    if AllReadIn(elems, mem) {
      forall i | 0 <= i < n
        ensures Reads(elems[0], i, mem)
      {
        assert ReadsIn(elems, i, mem);
      }
      forall i | 0 <= i < |Vectors(rest, mem)|
        ensures ReadsIn(rest, i, mem)
      {
        assert ReadsIn(elems, n + i, mem);
      }
    }
    if AllRead(elems[0], mem) && AllReadIn(rest, mem) {
      forall i | 0 <= i < |Vectors(elems, mem)|
        ensures ReadsIn(elems, i, mem)
      {
        assert i < n ==> Reads(elems[0], i, mem);
        assert i >= n ==> ReadsIn(rest, i - n, mem);
      }
    }
  }

  // ----- assignments -----

  lemma TargetOkExact(e: VExpr, i: nat, mem: seq<int16>)
    requires e.Mem? && WellFormed(e) && i < |Vector(e, mem)|
    ensures ExpandTarget(e, i).Ok? <==> ExpandAt(e, i).Ok?
  {
    if !StaticIndex(e) {
      VectorNonEmpty(e.index.value, mem);
    }
  }

  lemma {:induction false} AssignsOkExact(left: VExpr, right: VExpr, i: nat, n: nat, mem: seq<int16>)
    requires left.Mem? && WellFormed(left) && WellFormed(right)
    requires |Vector(left, mem)| == |Vector(right, mem)| == n
    ensures Assigns(left, right, i, n).Ok? <==>
            ReadsFrom(left, i, n, mem) && ReadsFrom(right, i, n, mem)
    decreases n - i
  {
    hide Vector, WellFormed, Reads, ExpandAt, ExpandTarget;
    if i < n {
      TargetOkExact(left, i, mem);
      ExpandOkExact(left, i, mem);
      ExpandOkExact(right, i, mem);
      AssignsOkExact(left, right, i + 1, n, mem);
    }
  }

  lemma DirectOkExact(left: VExpr, right: VExpr, mem: seq<int16>)
    requires Expansion.Checked(left, right)
    ensures ExpandDirect(left, right).Ok? <==> InRange(left, mem) && InRange(right, mem)
  {
    hide WellFormed, ExpandAt, ExpandTarget, VectorSize, InRange, Sized;
    SizeIsLength(left, mem);
    SizeIsLength(right, mem);
    SizeOkExact(left, mem);
    SizeOkExact(right, mem);
    InRangeMeans(left, mem);
    InRangeMeans(right, mem);
    AssignsOkExact(left, right, 0, VectorSize(left).value, mem);
  }

  /** The arrays a tree reads. */
  function Names(e: VExpr): set<string>
  {
    match e
    case VImm(_) => {}
    case Tuple(elems) => set x, n | x in elems && n in Names(x) :: n
    case Mem(_, _, name, index) => {name} + if index.Some? then Names(index.value) else {}
    case VUnary(_, a) => Names(a)
    case VBinary(_, l, r) => Names(l) + Names(r)
  }

  lemma {:induction false} MentionsExact(e: VExpr, name: string)
    ensures Mentions(e, name) <==> name in Names(e)
  {
    match e
    case VImm(_) =>
    case Tuple(elems) =>
      forall x | x in elems
        ensures Mentions(x, name) <==> name in Names(x)
      {
        MentionsExact(x, name);
      }
    case Mem(_, _, _, index) =>
      if index.Some? {
        MentionsExact(index.value, name);
      }
    case VUnary(_, a) => MentionsExact(a, name);
    case VBinary(_, l, r) =>
      MentionsExact(l, name);
      MentionsExact(r, name);
  }

  /** Words of temporary memory an assignment takes: as many as it has elements, if there are several
      and the assigned array is read. */
  function Taken(left: VExpr, right: VExpr, mem: seq<int16>): nat
    requires left.Mem?
  {
    if left.name in Names(right) && |Vector(left, mem)| > 1 then |Vector(left, mem)| else 0
  }

  /** There is room for so many more words of temporaries. */
  predicate Room(sp: Space, n: nat) { n > 0 ==> sp.free + sp.end + n <= sp.total }

  /** The memory after n more words of temporaries. */
  predicate After(sp: Space, n: nat, next: Space) {
    next.vars == sp.vars && next.free == sp.free && next.total == sp.total && next.end == sp.end + n
  }

  // ----- errors that expressions never give -----

  predicate OfAssignments(error: ExpandError) { error.NoTemporarySpace? || error.IncorrectLeftValue? }

  lemma {:induction false} SizeTakesNone(e: VExpr, error: ExpandError)
    requires OfAssignments(error)
    ensures VectorSize(e) != VResult.Err(error)
  {
    match e
    case VImm(_) =>
    case Tuple(elems) => TotalTakesNone(elems, error);
    case Mem(_, _, _, None) =>
    case Mem(_, _, _, Some(Tuple(elems))) => TotalTakesNone(elems, error);
    case Mem(_, _, _, Some(_)) =>
    case VUnary(_, a) => SizeTakesNone(a, error);
    case VBinary(_, l, r) =>
      SizeTakesNone(l, error);
      SizeTakesNone(r, error);
  }

  lemma {:induction false} TotalTakesNone(elems: seq<VExpr>, error: ExpandError)
    requires OfAssignments(error)
    ensures TotalSize(elems) != VResult.Err(error)
  {
    if elems != [] {
      SizeTakesNone(elems[0], error);
      TotalTakesNone(elems[1..], error);
    }
  }

  lemma {:induction false} ExpandTakesNone(e: VExpr, i: nat, error: ExpandError)
    requires OfAssignments(error)
    ensures ExpandAt(e, i) != VResult.Err(error)
  {
    hide VectorSize;
    match e
    case VImm(_) =>
    case Tuple(elems) => ExpandInTakesNone(elems, i, error);
    case Mem(_, _, _, index) =>
      SizeTakesNone(e, error);
      if !StaticIndex(e) {
        ExpandTakesNone(index.value, i, error);
      }
    case VUnary(_, a) => ExpandTakesNone(a, i, error);
    case VBinary(_, l, r) =>
      ExpandTakesNone(l, i, error);
      ExpandTakesNone(r, i, error);
  }

  lemma {:induction false} ExpandInTakesNone(elems: seq<VExpr>, i: nat, error: ExpandError)
    requires OfAssignments(error)
    ensures ExpandIn(elems, i) != VResult.Err(error)
  {
    hide VectorSize;
    if elems != [] {
      var n := VectorSize(elems[0]);
      SizeTakesNone(elems[0], error);
      if n.Ok? {
        if i < n.value {
          ExpandTakesNone(elems[0], i, error);
        } else {
          ExpandInTakesNone(elems[1..], i - n.value, error);
        }
      }
    }
  }

  lemma {:induction false} AssignsTakeNone(left: VExpr, right: VExpr, i: nat, n: nat, error: ExpandError)
    requires left.Mem?
    requires OfAssignments(error)
    ensures Assigns(left, right, i, n) != VResult.Err(error)
    decreases n - i
  {
    hide VectorSize, ExpandAt;
    if i < n {
      SizeTakesNone(left, error);
      if !StaticIndex(left) {
        ExpandTakesNone(left.index.value, i, error);
      }
      ExpandTakesNone(right, i, error);
      AssignsTakeNone(left, right, i + 1, n, error);
    }
  }

  lemma DirectTakesNone(left: VExpr, right: VExpr, error: ExpandError)
    requires left.Mem?
    requires OfAssignments(error)
    ensures ExpandDirect(left, right) != VResult.Err(error)
  {
    hide VectorSize, Assigns;
    SizeTakesNone(left, error);
    if VectorSize(left).Ok? {
      AssignsTakeNone(left, right, 0, VectorSize(left).value, error);
    }
  }

  /** A vector assignment that passes the size check expands if and only if its accesses are in range
      and its temporary fits, and it takes exactly the words of this temporary. */
  lemma AssignmentAccepted(left: VExpr, right: VExpr, sp: Space, temp: string, mem: seq<int16>)
    requires Expansion.Checked(left, right)
    ensures var r, n := ExpandAssign(left, right, sp, temp), Taken(left, right, mem);
            && (r == VResult.Err(NoTemporarySpace) <==> !Room(sp, n))
            && (r.Ok? <==> Room(sp, n) && InRange(left, mem) && InRange(right, mem))
            && (r.Ok? ==> After(sp, n, r.value.1))
  {
    hide Vector, WellFormed, ExpandDirect, InRange, Mentions, VectorSize, Names;
    MentionsExact(right, left.name);
    SizeIsLength(left, mem);
    SizePositive(left);
    DirectOkExact(left, right, mem);
    DirectTakesNone(left, right, NoTemporarySpace);
    if NeedsTemporary(left, right) {
      var n := VectorSize(right).value;
      if Allocate(sp, n).Ok? {
        var place := Mem(Allocate(sp, n).value.1, n, temp, None);
        ThroughPlace(left, right, place, mem);
        DirectTakesNone(place, right, NoTemporarySpace);
        DirectTakesNone(left, place, NoTemporarySpace);
      }
    }
  }

  /** Only a variable can be assigned to. */
  lemma LeftValueExact(left: VExpr, right: VExpr, sp: Space, temp: string)
    ensures ExpandStmt(VAssign(left, right), sp, temp) == VResult.Err(IncorrectLeftValue) <==> !left.Mem?
  {
    hide ExpandDirect, VectorSize, Mentions;
    if left.Mem? {
      SizeTakesNone(left, IncorrectLeftValue);
      SizeTakesNone(right, IncorrectLeftValue);
      DirectTakesNone(left, right, IncorrectLeftValue);
      if VectorSize(right).Ok? && Allocate(sp, VectorSize(right).value).Ok? {
        var n := VectorSize(right).value;
        var place := Mem(Allocate(sp, n).value.1, n, temp, None);
        DirectTakesNone(place, right, IncorrectLeftValue);
        DirectTakesNone(left, place, IncorrectLeftValue);
      }
    }
  }

  lemma ThroughPlace(left: VExpr, right: VExpr, place: VExpr, mem: seq<int16>)
    requires Expansion.Checked(left, right) && place.Mem? && place.index.None?
    requires VectorSize(left) == VResult.Ok(place.size)
    ensures ExpandDirect(place, right).Ok? <==> InRange(right, mem)
    ensures ExpandDirect(left, place).Ok? <==> InRange(left, mem)
  {
    hide Vector, ExpandDirect;
    TargetSize(left, place);
    assert Expansion.Checked(place, right);
    DirectOkExact(place, right, mem);
    DirectOkExact(left, place, mem);
  }

  // ----- programs -----

  /** Words of temporary memory that expansion takes. Payloads of events have theirs already. */
  function StmtTaken(s: VStmt, mem: seq<int16>): nat
  {
    match s
    case VBlock(stmts) => ListTaken(stmts, mem)
    case VAssign(left, right) => if left.Mem? then Taken(left, right, mem) else 0
    case VIfWhen(_, _, thn, els) => StmtTaken(thn, mem) + if els.Some? then StmtTaken(els.value, mem) else 0
    case VWhile(_, body) => StmtTaken(body, mem)
    case _ => 0
  }

  function ListTaken(stmts: seq<VStmt>, mem: seq<int16>): nat
  {
    if stmts == [] then 0 else StmtTaken(stmts[0], mem) + ListTaken(stmts[1..], mem)
  }

  /** The accesses of the statement are in range. Of a condition the first element counts. */
  predicate StmtInRange(s: VStmt, mem: seq<int16>)
  {
    match s
    case VBlock(stmts) => forall t | t in stmts :: StmtInRange(t, mem)
    case VAssign(left, right) => InRange(left, mem) && InRange(right, mem)
    case VIfWhen(_, cond, thn, els) =>
      Reads(cond, 0, mem) && StmtInRange(thn, mem) && (els.Some? ==> StmtInRange(els.value, mem))
    case VWhile(cond, body) => Reads(cond, 0, mem) && StmtInRange(body, mem)
    case VEmit(_, _, _, payload) => payload.Some? ==> InRange(payload.value, mem)
    case VCallSub(_) => true
    case VReturn => true
  }

  /** What a statement that passed the size check needs in order to expand, and the memory it leaves. */
  predicate Expansible(r: VResult<(Stmt, Space)>, sp: Space, n: nat, inRange: bool) {
    (r.Ok? <==> Room(sp, n) && inRange) && (r.Ok? ==> After(sp, n, r.value.1))
  }

  lemma AfterAgain(sp: Space, m: nat, next: Space, n: nat)
    requires After(sp, m, next) && Room(sp, m)
    ensures Room(sp, m + n) <==> Room(next, n)
    ensures forall end | After(next, n, end) :: After(sp, m + n, end)
  {
  }

  lemma MoreRoom(sp: Space, m: nat, n: nat)
    requires !Room(sp, m)
    ensures !Room(sp, m + n)
  {
  }

  lemma {:induction false} AcceptedAfter(s: VStmt, sp: Space, n: nat, next: Space)
    requires Accepted(s, sp) && After(sp, n, next)
    ensures Accepted(s, next)
  {
    match s
    case VBlock(stmts) =>
      forall t | t in stmts
        ensures Accepted(t, next)
      {
        AcceptedAfter(t, sp, n, next);
      }
    case VIfWhen(_, _, thn, els) =>
      AcceptedAfter(thn, sp, n, next);
      if els.Some? {
        AcceptedAfter(els.value, sp, n, next);
      }
    case VWhile(_, body) => AcceptedAfter(body, sp, n, next);
    case _ =>
  }

  /** A program whose sizes agree is accepted if and only if its accesses are in range and all its
      temporaries fit together. */
  lemma {:induction false} ProgramAcceptedExact(s: VStmt, sp: Space, temp: string, mem: seq<int16>)
    requires Accepted(s, sp) && temp !in sp.vars
    ensures Expansible(ExpandStmt(s, sp, temp), sp, StmtTaken(s, mem), StmtInRange(s, mem))
    decreases s, 1
  {
    hide Vector, WellFormed, VectorSize, FromSpace, ExpandAssign, ExpandAt, Taken, InRange, Reads;
    match s
    case VBlock(stmts) => ListAcceptedExact(stmts, sp, temp, mem);
    case VAssign(left, right) => AssignmentAccepted(left, right, sp, temp, mem);
    case VIfWhen(_, _, _, _) => IfAcceptedExact(s, sp, temp, mem);
    case VWhile(cond, body) =>
      ConditionAccepted(cond, mem);
      ProgramAcceptedExact(body, sp, temp, mem);
    case VEmit(_, _, _, None) =>
    case VEmit(_, base, size, Some(payload)) => PayloadAccepted(base, size, payload, sp, temp, mem);
    case VCallSub(_) =>
    case VReturn =>
  }

  lemma ConditionAccepted(cond: VExpr, mem: seq<int16>)
    requires WellFormed(cond)
    ensures ExpandAt(cond, 0).Ok? <==> Reads(cond, 0, mem)
  {
    VectorNonEmpty(cond, mem);
    ExpandOkExact(cond, 0, mem);
  }

  lemma PayloadAccepted(base: nat, size: nat, payload: VExpr, sp: Space, temp: string, mem: seq<int16>)
    requires WellFormed(payload) && VectorSize(payload) == VResult.Ok(size) && FromSpace(payload, sp.vars)
    requires temp !in sp.vars
    ensures Expansible(ExpandAssign(Mem(base, size, temp, None), payload, sp, temp), sp, 0, InRange(payload, mem))
  {
    hide Vector, ExpandAssign;
    var place := Mem(base, size, temp, None);
    PlaceChecked(place, payload);
    Unmentioned(payload, sp.vars, temp);
    MentionsExact(payload, temp);
    AssignmentAccepted(place, payload, sp, temp, mem);
  }

  lemma {:induction false} IfAcceptedExact(s: VStmt, sp: Space, temp: string, mem: seq<int16>)
    requires s.VIfWhen? && Accepted(s, sp) && temp !in sp.vars
    ensures Expansible(ExpandStmt(s, sp, temp), sp, StmtTaken(s, mem), StmtInRange(s, mem))
    decreases s, 0
  {
    hide Vector, WellFormed, VectorSize, FromSpace, ExpandAssign, ExpandAt, Reads;
    ConditionAccepted(s.cond, mem);
    ProgramAcceptedExact(s.thn, sp, temp, mem);
    if s.els.Some? {
      var t, m, n := ExpandStmt(s.thn, sp, temp), StmtTaken(s.thn, mem), StmtTaken(s.els.value, mem);
      if t.Ok? {
        AcceptedAfter(s.els.value, sp, m, t.value.1);
        ProgramAcceptedExact(s.els.value, t.value.1, temp, mem);
        AfterAgain(sp, m, t.value.1, n);
      } else if !Room(sp, m) {
        MoreRoom(sp, m, n);
      }
    }
  }

  lemma {:induction false} ListAcceptedExact(stmts: seq<VStmt>, sp: Space, temp: string, mem: seq<int16>)
    requires (forall t | t in stmts :: Accepted(t, sp)) && temp !in sp.vars
    ensures var r := ExpandList(stmts, sp, temp);
            && (r.Ok? <==> Room(sp, ListTaken(stmts, mem)) && forall t | t in stmts :: StmtInRange(t, mem))
            && (r.Ok? ==> After(sp, ListTaken(stmts, mem), r.value.1))
    decreases stmts, 0
  {
    hide ExpandStmt, Accepted, StmtInRange, StmtTaken;
    if stmts != [] {
      var t, m, n := ExpandStmt(stmts[0], sp, temp), StmtTaken(stmts[0], mem), ListTaken(stmts[1..], mem);
      assert stmts[0] in stmts && forall t :: t in stmts <==> t == stmts[0] || t in stmts[1..];
      ProgramAcceptedExact(stmts[0], sp, temp, mem);
      if t.Ok? {
        forall u | u in stmts[1..]
          ensures Accepted(u, t.value.1)
        {
          AcceptedAfter(u, sp, m, t.value.1);
        }
        ListAcceptedExact(stmts[1..], t.value.1, temp, mem);
        AfterAgain(sp, m, t.value.1, n);
      } else if !Room(sp, m) {
        MoreRoom(sp, m, n);
      }
    }
  }
}
