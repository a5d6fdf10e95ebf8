/** Sixteen-bit machine words, their two's complement reading, and the bit operations
    that the compiler applies to plain integers. */
module Words {

  datatype Option<+T> = None | Some(value: T)

  type byte = b: int | 0 <= b < 256

  type word = w: int | 0 <= w < 65536

  function Pow2(n: nat): (p: nat)
    ensures p > 0
  {
    if n == 0 then 1 else 2 * Pow2(n - 1)
  }

  lemma {:induction false} Pow2Add(m: nat, n: nat)
    ensures Pow2(m + n) == Pow2(m) * Pow2(n)
  {
    if m > 0 {
      Pow2Add(m - 1, n);
    }
  }

  lemma Pow2At16()
    ensures Pow2(12) == 4096 && Pow2(16) == 65536
  {
    assert Pow2(4) == 16;
    Pow2Add(4, 4);
    Pow2Add(8, 4);
    Pow2Add(8, 8);
  }

  lemma Associative<T>(x: seq<T>, y: seq<T>, z: seq<T>)
    ensures x + (y + z) == (x + y) + z
  {
  }

  lemma QuotientUnique(a: int, d: int, q: int, r: int)
    requires d > 0 && a == d * q + r && 0 <= r < d
    ensures a / d == q && a % d == r
  {
    var q', r' := a / d, a % d;
    assert a == d * q' + r' && 0 <= r' < d;
    assert d * (q - q') == r' - r by {
      assert d * (q - q') == d * q - d * q';
    }
    MulBounds(d, q - q');
  }

  lemma MulBounds(d: int, k: int)
    requires d > 0
    ensures k >= 1 ==> d * k >= d
    ensures k <= -1 ==> d * k <= -d
    ensures k >= 0 ==> d * k >= k
    ensures k <= 0 ==> d * k <= k
  {
  }

  // ----- two's complement -----

  predicate Int16(v: int) { -32768 <= v <= 32767 }

  predicate Int32(v: int) { -0x8000_0000 <= v <= 0x7fff_ffff }

  type int16 = v: int | -32768 <= v <= 32767

  type int32 = v: int | -0x8000_0000 <= v <= 0x7fff_ffff

  /** The signed reading of the low sixteen bits of v. */
  function Wrap16(v: int): (r: int)
    ensures Int16(r)
  {
    (v + 32768) % 65536 - 32768
  }

  /** The signed reading of a twelve-bit field. */
  function SignExtend12(v: int): (r: int)
    ensures -2048 <= r <= 2047
  {
    (v + 2048) % 4096 - 2048
  }

  lemma SignExtend12Field(n: int)
    ensures SignExtend12(n % 4096) == n <==> -2048 <= n <= 2047
  {
  }

  lemma WrapOfWord(v: int)
    ensures Wrap16(v % 65536) == Wrap16(v)
    ensures Int16(v) ==> Wrap16(v) == v
  {
  }

  lemma WrapBy(a: int, q: int)
    ensures Wrap16(a + 65536 * q) == Wrap16(a)
  {
  }

  lemma WrapMul(a: int, b: int)
    ensures Wrap16(Wrap16(a) * Wrap16(b)) == Wrap16(a * b)
  {
    var p, q := (a - Wrap16(a)) / 65536, (b - Wrap16(b)) / 65536;
    var x, y := Wrap16(a), Wrap16(b);
    assert a == x + 65536 * p && b == y + 65536 * q;
    assert a * b == x * y + 65536 * (x * q + p * y + 65536 * (p * q)) by {
      assert a * b == (x + 65536 * p) * (y + 65536 * q);
      assert (x + 65536 * p) * (y + 65536 * q) == x * y + x * (65536 * q) + 65536 * p * y + 65536 * p * (65536 * q);
    }
    WrapBy(x * y, x * q + p * y + 65536 * (p * q));
  }

  // ----- C division -----

  function TruncDiv(a: int, b: int): int
    requires b != 0
  {
    if a >= 0 then a / b else -((-a) / b)
  }

  function TruncMod(a: int, b: int): int
    requires b != 0
  {
    a - b * TruncDiv(a, b)
  }

  // ----- bit operations on integers in two's complement -----

  datatype BitKind = OrBits | XorBits | AndBits

  function Magnitude(a: int): nat { if a >= 0 then a else -1 - a }

  function OneBit(k: BitKind, x: int, y: int): int
  {
    match k
    case OrBits => if x == 1 || y == 1 then 1 else 0
    case XorBits => if x == y then 0 else 1
    case AndBits => if x == 1 && y == 1 then 1 else 0
  }

  function Bitwise(k: BitKind, a: int, b: int): int
    decreases Magnitude(a) + Magnitude(b)
  {
    if Magnitude(a) == 0 && Magnitude(b) == 0 then -OneBit(k, -a, -b)
    else 2 * Bitwise(k, a / 2, b / 2) + OneBit(k, a % 2, b % 2)
  }

  lemma BitwiseUnfold(k: BitKind, a: int, b: int)
    ensures Bitwise(k, a, b) == 2 * Bitwise(k, a / 2, b / 2) + OneBit(k, a % 2, b % 2)
  {
    if Magnitude(a) == 0 && Magnitude(b) == 0 {
      assert a / 2 == a && b / 2 == b;
    }
  }

  /** The low n bits of a result depend on the low n bits of the operands only. */
  lemma {:induction false} BitwiseCongruent(k: BitKind, a: int, b: int, p: int, q: int, n: nat) returns (r: int)
    ensures Bitwise(k, a + p * Pow2(n), b + q * Pow2(n)) == Bitwise(k, a, b) + r * Pow2(n)
    decreases n
  {
    hide Bitwise, OneBit;
    if n == 0 {
      r := Bitwise(k, a + p, b + q) - Bitwise(k, a, b);
    } else {
      r := BitwiseCongruent(k, a / 2, b / 2, p, q, n - 1);
      DoublePow2(p, n);
      DoublePow2(q, n);
      DoublePow2(r, n);
      BitwiseUnfold(k, a, b);
      BitwiseHalves(k, a, b, p * Pow2(n - 1), q * Pow2(n - 1));
    }
  }

  lemma DoublePow2(p: int, n: nat)
    requires n > 0
    ensures p * Pow2(n) == 2 * (p * Pow2(n - 1))
  {
  }

  lemma BitwiseHalves(k: BitKind, a: int, b: int, x: int, y: int)
    ensures Bitwise(k, a + 2 * x, b + 2 * y) == 2 * Bitwise(k, a / 2 + x, b / 2 + y) + OneBit(k, a % 2, b % 2)
  {
    hide Bitwise, OneBit;
    BitwiseUnfold(k, a + 2 * x, b + 2 * y);
    assert (a + 2 * x) / 2 == a / 2 + x && (b + 2 * y) / 2 == b / 2 + y;
  }

  lemma BitwiseWrap(k: BitKind, a: int, b: int)
    ensures Wrap16(Bitwise(k, Wrap16(a), Wrap16(b))) == Wrap16(Bitwise(k, a, b))
  {
    var p := WrapQuotient(a);
    var q := WrapQuotient(b);
    BitwiseShifted(k, Wrap16(a), Wrap16(b), p, q, 16);
  }

  lemma WrapQuotient(a: int) returns (q: int)
    ensures a == Wrap16(a) + q * 65536
  {
    q := (a - Wrap16(a)) / 65536;
  }

  lemma BitwiseShifted(k: BitKind, x: int, y: int, p: int, q: int, n: nat)
    requires n == 16
    ensures Wrap16(Bitwise(k, x + p * 65536, y + q * 65536)) == Wrap16(Bitwise(k, x, y))
  {
    hide Bitwise, Pow2, Wrap16;
    var r := BitwiseCongruent(k, x, y, p, q, n);
    Pow2At16();
    WrapBy(Bitwise(k, x, y), r);
  }

  lemma {:induction false} BitwiseUnit(k: BitKind, a: int)
    ensures k != AndBits ==> Bitwise(k, a, 0) == a && Bitwise(k, 0, a) == a
    ensures k == OrBits ==> Bitwise(k, a, -1) == -1 && Bitwise(k, -1, a) == -1
    ensures k == AndBits ==> Bitwise(k, a, 0) == 0 && Bitwise(k, 0, a) == 0
    ensures k == AndBits ==> Bitwise(k, a, -1) == a && Bitwise(k, -1, a) == a
    decreases Magnitude(a)
  {
    if Magnitude(a) != 0 {
      BitwiseUnit(k, a / 2);
    }
  }

  /** Or-ing a field into free low bits is addition. */
  lemma {:induction false} OrIntoFreeBits(a: int, b: int, n: nat)
    requires 0 <= b < Pow2(n)
    ensures Bitwise(OrBits, a * Pow2(n), b) == a * Pow2(n) + b
  {
    if n == 0 {
      BitwiseUnit(OrBits, a);
    } else {
      var m := Pow2(n - 1);
      assert a * Pow2(n) == 2 * (a * m);
      BitwiseUnfold(OrBits, a * Pow2(n), b);
      OrIntoFreeBits(a, b / 2, n - 1);
    }
  }

  // ----- instruction words -----

  /** A sixteen-bit word with an opcode in its top four bits and an or-ed operand, as the
      code generator builds it: an operand over twelve bits spills into the opcode. */
  function Pack(opcode: nat, operand: nat): (w: nat)
    ensures w < 65536
  {
    Bitwise(OrBits, opcode * 4096, operand) % 65536
  }

  lemma PackFits(opcode: nat, operand: nat)
    requires opcode < 16 && operand < 4096
    ensures Pack(opcode, operand) == opcode * 4096 + operand
    ensures Pack(opcode, operand) / 4096 == opcode && Pack(opcode, operand) % 4096 == operand
  {
    hide Bitwise, Pow2;
    Pow2At16();
    OrIntoFreeBits(opcode, operand, 12);
  }
}
