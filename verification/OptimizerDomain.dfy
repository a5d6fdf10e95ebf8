/** Where the optimizer's arithmetic agrees with the sixteen-bit machine, operator by operator. */
module OptimizerDomain {
  import opened Words
  import opened PowerOfTwo
  import opened Tree
  import opened Semantics
  import opened Optimizer

  // ----- constant folding -----

  lemma WrapMulLeft(a: int, c: int)
    ensures Wrap16(Wrap16(a) * c) == Wrap16(a * c)
  {
    var q := WrapQuotient(a);
    assert a * c == Wrap16(a) * c + 65536 * (q * c);
    WrapBy(Wrap16(a) * c, q * c);
  }

  lemma WrapSum(a: int, b: int)
    ensures Wrap16(Wrap16(a) + Wrap16(b)) == Wrap16(a + b)
    ensures Wrap16(Wrap16(a) - Wrap16(b)) == Wrap16(a - b)
  {
    var p := WrapQuotient(a);
    var q := WrapQuotient(b);
    WrapBy(Wrap16(a) + Wrap16(b), p + q);
    WrapBy(Wrap16(a) - Wrap16(b), p - q);
  }

  /** The constants on which a width-sensitive operator may be folded. Outside of them the fold goes
      wrong for some other operand, see the lemmas ending in Exact. */
  predicate Foldable(op: BinOp, a: int, b: int)
  {
    match op
    case ShiftRight => Int16(a)
    case Div => Int16(a) && Int16(b)
    case Mod => Int16(a) && (Int16(b) || b == 32768)
    case _ => op.IsComparison() ==> Int16(a) && Int16(b)
  }

  /** Folding at the width of int gives what the machine computes, if the operators that look at
      high bits get operands they may be folded on. */
  lemma FoldAgrees(op: BinOp, a: int32, b: int32)
    requires Fold(op, a, b).Ok? && Binary16(op, Wrap16(a), Wrap16(b)).Some?
    requires Foldable(op, a, b)
    requires op.IsLogic() ==> 0 <= a <= 1 && 0 <= b <= 1
    ensures Binary16(op, Wrap16(a), Wrap16(b)).value == Wrap16(Fold(op, a, b).value)
  {
    hide Bitwise, Pow2, TruncDiv, TruncMod, Wrap16;
    if Int16(a) && Int16(b) {
      assert Wrap16(a) == a && Wrap16(b) == b by { WrapFits(a); WrapFits(b); }
    } else {
      match op
      case ShiftLeft => ShiftAgrees(a, b);
      case ShiftRight => ShiftAmount(a, b);
      case Add => WrapSum(a, b);
      case Sub => WrapSum(a, b);
      case Mult => WrapMul(a, b);
      case Mod => ModByMinimum(a, b);
      case BitOr => BitwiseWrap(OrBits, a, b);
      case BitXor => BitwiseWrap(XorBits, a, b);
      case BitAnd => BitwiseWrap(AndBits, a, b);
    }
  }

  lemma WrapFits(a: int)
    ensures Wrap16(a) == a <==> Int16(a)
  {
  }

  /** A shift amount that C accepts fits sixteen bits. */
  lemma ShiftAmount(a: int32, b: int32)
    requires IntOp(ShiftRight, a, b).Some? || IntOp(ShiftLeft, a, b).Some?
    ensures Wrap16(b) == b
  {
    WrapFits(b);
  }

  lemma ShiftAgrees(a: int32, b: int32)
    requires IntOp(ShiftLeft, a, b).Some?
    ensures Binary16(ShiftLeft, Wrap16(a), Wrap16(b)) == Some(Wrap16(IntOp(ShiftLeft, a, b).value))
  {
    ShiftAmount(a, b);
    WrapMulLeft(a, Pow2(b));
  }

  /** Modulo 32768 and modulo the word that reads as -32768 are the same. */
  lemma ModByMinimum(a: int, b: int)
    requires Int16(a) && b == 32768
    ensures Wrap16(a) == a && Wrap16(b) == -32768 && TruncMod(a, -32768) == TruncMod(a, b)
  {
    TruncOf(a, b);
    TruncOf(a, -32768);
  }

  lemma TruncOf(a: int, b: int)
    requires -32768 <= a <= 32767 && (b == 32768 || b == -32768)
    ensures TruncDiv(a, b) == if a == -32768 then (if b > 0 then -1 else 1) else 0
  {
  }

  /** Folding `abs` is right exactly if the constant and its word have the same sign, or the word has
      no bits but its sign. */
  predicate AbsFoldable(a: int) { (a < 0 <==> Wrap16(a) < 0) || Wrap16(a) % 32768 == 0 }

  lemma FoldUnaryAgrees(op: UnOp, a: int32)
    requires FoldUnary(op, a).Ok?
    requires op == Abs ==> AbsFoldable(a)
    requires op == Not ==> 0 <= a <= 1
    ensures Unary16(op, Wrap16(a)) == Wrap16(FoldUnary(op, a).value)
  {
    match op
    case Neg => WrapSum(0, a);
    case Abs => AbsExact(a);
    case BitNot => WrapSum(-1, a);
    case Not => WrapFits(a);
  }

  // ----- exactly which constants fold -----

  lemma AbsExact(a: int32)
    ensures Unary16(Abs, Wrap16(a)) == Wrap16(IntUnary(Abs, a)) <==> AbsFoldable(a)
  {
    var q := WrapQuotient(a);
    assert a == Wrap16(a) + 65536 * q;
    WrapBy(-Wrap16(a), -q);
  }

  /** A word and the constant it stands for, which differ in the bits above. */
  lemma HighPart(a: int32) returns (q: int)
    ensures a == Wrap16(a) + 65536 * q && -32768 <= q <= 32768 && (q == 0 <==> Int16(a))
    ensures q == -32768 ==> Wrap16(a) >= 0
    ensures q == 32768 ==> Wrap16(a) < 0
  {
    q := WrapQuotient(a);
    WrapFits(a);
  }

  /** Shifting a folded constant right is right for every amount exactly if it fits sixteen bits. */
  lemma ShiftRightExact(a: int32)
    ensures (forall n: int16 | 0 <= n < 32 ::
               Binary16(ShiftRight, Wrap16(a), n) == Some(Wrap16(IntOp(ShiftRight, a, n).value)))
            <==> Int16(a)
  {
    WrapFits(a);
    if !Int16(a) {
      var q := HighPart(a);
      Pow2At16();
      assert a / 65536 == q + Wrap16(a) / 65536;
      assert Binary16(ShiftRight, Wrap16(a), 16) != Some(Wrap16(IntOp(ShiftRight, a, 16).value));
    }
  }

  /** Both results of an operator on a folded constant and a divisor. */
  predicate DividesAlike(op: BinOp, a: int, b: int)
    requires op == Div || op == Mod
  {
    Wrap16(b) != 0 && b != 0 ==> Binary16(op, Wrap16(a), Wrap16(b)) == Some(Wrap16(IntOp(op, a, b).value))
  }

  lemma AlikeInside(op: BinOp, a: int, b: int)
    requires (op == Div || op == Mod) && Int16(a) && Int16(b)
    ensures DividesAlike(op, a, b)
  {
    WrapFits(a);
    WrapFits(b);
  }

  /** A folded dividend is divided right by every divisor of sixteen bits exactly if it fits. */
  lemma DividendExact(a: int32)
    ensures (forall b: int16 :: DividesAlike(Div, a, b)) <==> Int16(a)
  {
    hide DividesAlike;
    if Int16(a) {
      forall b: int16
        ensures DividesAlike(Div, a, b)
      {
        AlikeInside(Div, a, b);
      }
    } else if a == -0x8000_0000 || a == 0x7fff_8000 {
      DividedByThree();
    } else {
      DividedByMinimum(a);
    }
  }

  lemma DividedByThree()
    ensures !DividesAlike(Div, -0x8000_0000, 3) && !DividesAlike(Div, 0x7fff_8000, 3)
  {
    assert Wrap16(-0x8000_0000) == 0 && TruncDiv(-0x8000_0000, 3) == -715827882;
    assert Wrap16(0x7fff_8000) == -32768 && TruncDiv(0x7fff_8000, 3) == 715816960;
  }

  lemma DividedByMinimum(a: int32)
    requires !Int16(a) && a != -0x8000_0000 && a != 0x7fff_8000
    ensures !DividesAlike(Div, a, -32768)
  {
    var q := HighPart(a);
    var w := Wrap16(a);
    TruncOf(w, -32768);
    if q > 0 {
      assert a / 32768 == 2 * q + w / 32768;
      assert a / -32768 == -(a / 32768);
    } else {
      assert (-a) / 32768 == -2 * q + (-w) / 32768;
      assert (-a) / -32768 == -((-a) / 32768);
    }
  }

  /** A folded divisor divides every dividend of sixteen bits right exactly if it fits. */
  lemma DivisorExact(b: int32)
    requires Wrap16(b) != 0
    ensures (forall a: int16 :: DividesAlike(Div, a, b)) <==> Int16(b)
  {
    hide DividesAlike;
    if Int16(b) {
      forall a: int16
        ensures DividesAlike(Div, a, b)
      {
        AlikeInside(Div, a, b);
      }
    } else {
      DividedByItself(b);
    }
  }

  lemma DividedByItself(b: int32)
    requires Wrap16(b) != 0 && !Int16(b)
    ensures !DividesAlike(Div, Wrap16(b), b)
  {
    hide TruncDiv, Wrap16;
    WrapFits(1);
    WrapFits(0);
    WrapFits(-1);
    var w := Wrap16(b);
    WrapFits(w);
    SmallQuotient(w, b);
    SelfQuotient(w);
  }

  lemma SelfQuotient(w: int)
    requires w != 0
    ensures TruncDiv(w, w) == 1
  {
    if w > 0 {
      QuotientUnique(w, w, 1, 0);
    } else {
      assert -w / w == -((-w) / (-w));
      QuotientUnique(-w, -w, 1, 0);
    }
  }

  /** A quotient of magnitude below one, or minus one where -32768 meets 32768. */
  lemma SmallQuotient(w: int, b: int)
    requires Int16(w) && !Int16(b)
    ensures TruncDiv(w, b) == if w == -32768 && b == 32768 then -1 else 0
  {
    var m, d := if w < 0 then -w else w, if b < 0 then -b else b;
    if m < d {
      QuotientUnique(m, d, 0, m);
      assert m / b == if b < 0 then -(m / d) else m / d;
    }
  }

  /** The remainders of a folded dividend are right for every divisor exactly if it fits. */
  lemma ModDividendExact(a: int32)
    ensures (forall b: int16 :: DividesAlike(Mod, a, b)) <==> Int16(a)
  {
    hide DividesAlike;
    if Int16(a) {
      forall b: int16
        ensures DividesAlike(Mod, a, b)
      {
        AlikeInside(Mod, a, b);
      }
    } else {
      var q := HighPart(a);
      RemaindersDiffer(a, q, if q == 32767 || q == -32767 then 32765 else 32767);
    }
  }

  lemma RemaindersDiffer(a: int32, q: int, b: int)
    requires a == Wrap16(a) + 65536 * q && q != 0 && -32768 <= q <= 32768
    requires b == if q == 32767 || q == -32767 then 32765 else 32767
    ensures !DividesAlike(Mod, a, b)
  {
    var w := Wrap16(a);
    var k := TruncDiv(a, b) - TruncDiv(w, b);
    TruncModBound(a, b);
    TruncModBound(w, b);
    WrapFits(b);
    WrapFits(TruncMod(a, b));
    WrapFits(TruncMod(w, b));
    NoMultiple(q, b, k);
    assert b * TruncDiv(a, b) - b * TruncDiv(w, b) == b * k;
  }

  lemma TruncModBound(a: int, b: int)
    requires b > 0
    ensures -b < TruncMod(a, b) < b
  {
    assert a >= 0 ==> a == b * (a / b) + a % b;
    assert a < 0 ==> -a == b * ((-a) / b) + (-a) % b;
  }

  lemma NoMultiple(q: int, b: int, k: int)
    requires q != 0 && -32768 <= q <= 32768 && b == if q == 32767 || q == -32767 then 32765 else 32767
    ensures 65536 * q != b * k
  {
    var j := k - 2 * q;
    assert b == 32767 ==> b * k == 32767 * j + 65534 * q;
  }

  /** The remainders by a folded divisor are right for every dividend exactly if it fits, or is the
      one constant whose word only differs in sign. */
  lemma ModDivisorExact(b: int32)
    requires Wrap16(b) != 0
    ensures (forall a: int16 :: DividesAlike(Mod, a, b)) <==> Int16(b) || b == 32768
  {
    hide DividesAlike;
    if Int16(b) {
      forall a: int16
        ensures DividesAlike(Mod, a, b)
      {
        AlikeInside(Mod, a, b);
      }
    } else if b == 32768 {
      forall a: int16
        ensures DividesAlike(Mod, a, b)
      {
        AlikeAtMinimum(a);
      }
    } else {
      RemainderByItself(b);
    }
  }

  lemma AlikeAtMinimum(a: int16)
    ensures DividesAlike(Mod, a, 32768)
  {
    ModByMinimum(a, 32768);
  }

  lemma RemainderByItself(b: int32)
    requires Wrap16(b) != 0 && !Int16(b) && b != 32768
    ensures !DividesAlike(Mod, Wrap16(b), b)
  {
    hide TruncDiv, Wrap16;
    var w := Wrap16(b);
    assert Int16(w) && Wrap16(0) == 0 by { WrapFits(0); }
    WrapFits(w);
    SmallQuotient(w, b);
    SelfQuotient(w);
  }

  const Sum: Expr := Binary(Add, Imm(30000), Imm(30000))

  lemma SumFolds(mem: seq<int16>)
    ensures OptExpr(Sum) == Ok(Imm(60000)) && Eval(Sum, mem) == Some(-5536)
  {
    assert OptExpr(Imm(30000)) == Ok(Imm(30000)) && Eval(Imm(30000), mem) == Some(30000);
  }

  lemma OperatorOnSum(op: BinOp, b: int16, mem: seq<int16>)
    ensures Fold(op, 60000, b).Ok? ==> OptExpr(Binary(op, Sum, Imm(b))) == Ok(Imm(Fold(op, 60000, b).value))
    ensures Eval(Binary(op, Sum, Imm(b)), mem) == Binary16(op, -5536, b)
  {
    hide Fold, Binary16, Neutral, Absorbed, Strength;
    SumFolds(mem);
    WrapFits(b);
    assert OptExpr(Imm(b)) == Ok(Imm(b)) && Eval(Imm(b), mem) == Some(b);
  }

  /** `30000 + 30000` is 60000 to the compiler and -5536 to the machine: its half, its quotient and
      remainder by seven and its magnitude all differ. */
  lemma FoldedOperatorsCounterexample(mem: seq<int16>)
    ensures OptExpr(Binary(ShiftRight, Sum, Imm(1))) == Ok(Imm(30000))
    ensures Eval(Binary(ShiftRight, Sum, Imm(1)), mem) == Some(-2768)
    ensures OptExpr(Binary(Div, Sum, Imm(7))) == Ok(Imm(8571)) && Eval(Binary(Div, Sum, Imm(7)), mem) == Some(-790)
    ensures OptExpr(Binary(Mod, Sum, Imm(7))) == Ok(Imm(3)) && Eval(Binary(Mod, Sum, Imm(7)), mem) == Some(-6)
    ensures OptExpr(Unary(Abs, Sum)) == Ok(Imm(60000)) && Wrap16(60000) == -5536
    ensures Eval(Unary(Abs, Sum), mem) == Some(5536)
  {
    hide OptBinary, Eval;
    OperatorOnSum(ShiftRight, 1, mem);
    OperatorOnSum(Div, 7, mem);
    OperatorOnSum(Mod, 7, mem);
    SumNumbers();
    AbsOnSum(mem);
  }

  lemma AbsOnSum(mem: seq<int16>)
    ensures OptExpr(Unary(Abs, Sum)) == Ok(Imm(60000)) && Eval(Unary(Abs, Sum), mem) == Some(5536)
  {
    SumFolds(mem);
  }

  lemma SumNumbers()
    ensures Fold(ShiftRight, 60000, 1) == Ok(30000) && Binary16(ShiftRight, -5536, 1) == Some(-2768)
    ensures Fold(Div, 60000, 7) == Ok(8571) && Binary16(Div, -5536, 7) == Some(-790)
    ensures Fold(Mod, 60000, 7) == Ok(3) && Binary16(Mod, -5536, 7) == Some(-6)
  {
    assert Pow2(1) == 2;
  }

  /** Comparing a folded constant agrees with the machine, whatever it is compared with, exactly
      for the constants that fit sixteen bits. */
  lemma FoldedComparisonExact(a: int32)
    ensures (forall op: BinOp, b: int16 | op.IsComparison() :: IntOp(op, a, b) == Binary16(op, Wrap16(a), b))
            <==> Int16(a)
  {
    if Int16(a) {
      WrapOfWord(a);
      forall op: BinOp, b: int16 | op.IsComparison()
        ensures IntOp(op, a, b) == Binary16(op, a, b)
      {
        TruthFits(op, a, b);
      }
    } else {
      assert IntOp(Equal, a, Wrap16(a)) == Some(0) && Binary16(Equal, Wrap16(a), Wrap16(a)) == Some(1);
    }
  }

  lemma TruthFits(op: BinOp, a: int, b: int)
    requires op.IsComparison()
    ensures IntOp(op, a, b) == Some(0) || IntOp(op, a, b) == Some(1)
  {
  }

  /** `30000 + 30000 > 0` folds to true, while the machine finds it false. */
  lemma FoldedComparisonCounterexample()
    ensures OptExpr(Binary(Bigger, Binary(Add, Imm(30000), Imm(30000)), Imm(0))) == Ok(Imm(1))
    ensures forall mem :: Eval(Binary(Bigger, Binary(Add, Imm(30000), Imm(30000)), Imm(0)), mem) == Some(0)
  {
    forall mem
      ensures Eval(Binary(Bigger, Binary(Add, Imm(30000), Imm(30000)), Imm(0)), mem) == Some(0)
    {
      assert Eval(Binary(Add, Imm(30000), Imm(30000)), mem) == Some(-5536);
    }
  }

  // ----- division by a power of two -----

  /** The arithmetic shift by n rounds like the division by 2^n. The last bit of a word is its
      sign, so that 2^15 itself reads as a negative divisor. */
  predicate ShiftExact(a: int, n: nat) { a >= 0 || (n < 15 && a % Pow2(n) == 0) }

  lemma FloorIsTruncation(a: int, d: int)
    requires d > 0
    ensures a / d == TruncDiv(a, d) <==> a >= 0 || a % d == 0
  {
    if a < 0 {
      var q, r := a / d, a % d;
      assert a == d * q + r && 0 <= r < d;
      if r == 0 {
        assert -a == d * (-q);
        QuotientUnique(-a, d, -q, 0);
      } else {
        assert -a == d * (-q - 1) + (d - r) by {
          assert d * (-q - 1) == -(d * q) - d;
        }
        QuotientUnique(-a, d, -q - 1, d - r);
      }
    }
  }

  lemma {:induction false} Pow2Below(n: nat, m: nat)
    requires n <= m
    ensures Pow2(n) <= Pow2(m)
  {
    if n < m {
      Pow2Below(n, m - 1);
    }
  }

  lemma Pow2At15()
    ensures Pow2(14) == 16384 && Pow2(15) == 32768
  {
    assert Pow2(7) == 128;
    Pow2Add(7, 7);
  }

  /** Replacing a division by a shift is right exactly for non-negative dividends and, below the
      sign bit, for multiples of the divisor. */
  lemma ShiftDivisionExact(a: int16, n: nat)
    requires 0 < n <= 15
    ensures Binary16(ShiftRight, a, n) == Binary16(Div, a, Wrap16(Pow2(n))) <==> ShiftExact(a, n)
  {
    Pow2At15();
    if n < 15 {
      Pow2Below(n, 14);
      FloorIsTruncation(a, Pow2(n));
      QuotientInt16(a, Pow2(n));
      WrapOfWord(Pow2(n));
      WrapOfWord(a / Pow2(n));
      WrapOfWord(TruncDiv(a, Pow2(n)));
    } else {
      SignDivision(a);
    }
  }

  lemma SignDivision(a: int16)
    ensures Wrap16(a / 32768) == Wrap16(TruncDiv(a, -32768)) <==> a >= 0
  {
    var v: int := a;
    if v >= 0 {
      assert v / -32768 == 0;
    } else {
      assert (-v) / -32768 == if v == -32768 then -1 else 0;
    }
  }

  lemma QuotientInt16(a: int16, d: int)
    requires d > 0
    ensures Int16(a / d) && Int16(TruncDiv(a, d))
  {
    var v: int := a;
    FloorBound(v, d);
    FloorBound(-v, d);
  }

  lemma FloorBound(a: int, d: int)
    requires d > 0
    ensures a >= 0 ==> 0 <= a / d <= a
    ensures a < 0 ==> a <= a / d < 0
  {
    var q, r := a / d, a % d;
    assert a == d * q + r && 0 <= r < d;
    assert d * (q + 1) == d * q + d;
    MulBounds(d, q);
    MulBounds(d, q + 1);
  }

  /** Minus three halves: the shift gives -2, the division -1. */
  lemma ShiftDivisionCounterexample()
    ensures OptExpr(Binary(Div, Load(0), Imm(2))) == Ok(Binary(ShiftRight, Load(0), Imm(1)))
    ensures Eval(Binary(Div, Load(0), Imm(2)), [-3]) == Some(-1)
    ensures Eval(Binary(ShiftRight, Load(0), Imm(1)), [-3]) == Some(-2)
  {
    assert Pow2(1) == 2;
    assert IsPOT(2) && ShiftFromPOT(2) == 1;
    assert OptExpr(Load(0)) == Ok(Load(0)) && OptExpr(Imm(2)) == Ok(Imm(2));
    assert OptBinary(Div, Load(0), Imm(2)) == Strength(Div, Load(0), Imm(2));
  }

  // ----- multiplication by a power of two -----

  lemma PowerBounds(v: int32)
    requires IsPOT(v)
    ensures v == Pow2(ShiftFromPOT(v)) && ShiftFromPOT(v) <= 30
  {
    PowerOfShift(v);
    Pow2At15();
    Pow2Add(15, 16);
    Pow2At16();
    assert Pow2(31) == 0x8000_0000;
    if ShiftFromPOT(v) >= 31 {
      Pow2Below(31, ShiftFromPOT(v));
    }
  }

  lemma ShiftMultiplies(a: int16, v: int32)
    requires IsPOT(v)
    ensures ShiftFromPOT(v) <= 30
    ensures Binary16(ShiftLeft, a, ShiftFromPOT(v)) == Binary16(Mult, a, Wrap16(v))
  {
    PowerBounds(v);
    WrapMul(a, v);
    WrapOfWord(a);
  }

  /** When dividing by the word of a power of two is defined, the power is at most 2^15. */
  lemma DivisorPower(v: int32)
    requires IsPOT(v) && v != 1 && Wrap16(v) != 0
    ensures 0 < ShiftFromPOT(v) <= 15 && v == Pow2(ShiftFromPOT(v))
  {
    PowerBounds(v);
    var n := ShiftFromPOT(v);
    if n >= 16 {
      Pow2Add(16, n - 16);
      Pow2At16();
      WrapBy(0, Pow2(n - 16));
    }
  }

  // ----- edge-triggered conditions -----

  /** How often the body of a `when` runs while its condition is evaluated again and again: each
      time the condition turns from false to true. */
  function Firings(before: bool, conds: seq<bool>): nat
    decreases |conds|
  {
    if conds == [] then 0 else (if conds[0] && !before then 1 else 0) + Firings(conds[0], conds[1..])
  }

  lemma {:induction false} SteadyFirings(before: bool, c: bool, conds: seq<bool>)
    requires forall i | 0 <= i < |conds| :: conds[i] == c
    ensures Firings(before, conds) == if c && !before && conds != [] then 1 else 0
    decreases |conds|
  {
    if conds != [] {
      SteadyFirings(c, c, conds[1..]);
    }
  }

  /** A `when` with a constant condition becomes its body, which then runs at every evaluation. That
      is right if and only if the condition is false, or there is at most one evaluation and the
      condition counts as false before it. */
  lemma ConstantWhenExact(v: int32, t: Stmt, before: bool, n: nat)
    requires t != Block([])
    ensures OptIf(true, Imm(v), Some(t), None) == Ok(if v != 0 then Some(t) else None)
    ensures Firings(before, seq(n, _ => v != 0)) == (if v != 0 then n else 0) <==>
            v == 0 || n == 0 || (n == 1 && !before)
  {
    SteadyFirings(before, v != 0, seq(n, _ => v != 0));
  }
}
