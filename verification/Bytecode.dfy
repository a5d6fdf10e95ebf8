/** Bytecode as a sequence of words: instruction sizes, walks over whole instructions, and the
    two rewritings the back end applies to instruction words. */
module Bytecode {
  import opened Words

  const STOP := 0x0
  const SMALL_IMMEDIATE := 0x1
  const LARGE_IMMEDIATE := 0x2
  const LOAD := 0x3
  const STORE := 0x4
  const LOAD_INDIRECT := 0x5
  const STORE_INDIRECT := 0x6
  const UNARY_ARITHMETIC := 0x7
  const BINARY_ARITHMETIC := 0x8
  const JUMP := 0x9
  const CONDITIONAL_BRANCH := 0xA
  const EMIT := 0xB
  const SUB_CALL := 0xD
  const SUB_RET := 0xE

  function Opcode(w: word): nat { w / 4096 }

  function Operand(w: word): nat { w % 4096 }

  /** The number of words of the instruction that starts with w. */
  function WordSize(w: word): (n: nat)
    ensures 1 <= n <= 3
  {
    var op := Opcode(w);
    if op == LARGE_IMMEDIATE || op == LOAD_INDIRECT || op == STORE_INDIRECT || op == CONDITIONAL_BRANCH then 2
    else if op == EMIT then 3
    else 1
  }

  /** Code made of whole instructions. */
  predicate Whole(code: seq<word>)
  {
    code == [] || (WordSize(code[0]) <= |code| && Whole(code[WordSize(code[0])..]))
  }

  lemma {:induction false} WholeConcat(a: seq<word>, b: seq<word>)
    requires Whole(a)
    ensures Whole(a + b) <==> Whole(b)
    decreases |a|
  {
    if a == [] {
      assert a + b == b;
    } else {
      var n := WordSize(a[0]);
      assert (a + b)[n..] == a[n..] + b;
      WholeConcat(a[n..], b);
    }
  }

  // ----- rewriting instruction words -----

  datatype Rewriting =
    | StopToRet
    | Resolve(table: seq<nat>)

  /** The word an instruction starts with after the rewriting. */
  function RewriteWord(w: word, r: Rewriting): word
  {
    match r
    case StopToRet => if Opcode(w) == STOP then SUB_RET * 4096 else w
    case Resolve(table) =>
      if Opcode(w) == SUB_CALL && Operand(w) < |table| then Pack(SUB_CALL, table[Operand(w)]) else w
  }

  /** Walk over the instructions, rewriting the first word of each. */
  function Rewrite(code: seq<word>, r: Rewriting): (c: seq<word>)
    ensures |c| == |code|
    decreases |code|
  {
    if code == [] then [] else
    var w := RewriteWord(code[0], r);
    var n := if WordSize(w) <= |code| then WordSize(w) else |code|;
    Instruction(w, code, n) + Rewrite(code[n..], r)
  }

  /** The first n words of the code, with its first word replaced. */
  function Instruction(w: word, code: seq<word>, n: nat): (c: seq<word>)
    requires 1 <= n <= |code|
    ensures |c| == n
  {
    [w] + code[1..n]
  }

  lemma {:induction false} OrHighBits(x: int, y: int, n: nat)
    ensures Bitwise(OrBits, x * Pow2(n), y) / Pow2(n) == Bitwise(OrBits, x, y / Pow2(n))
    decreases n
  {
    hide Bitwise;
    if n > 0 {
      var m := Pow2(n - 1);
      DoublePow2(x, n);
      BitwiseUnfold(OrBits, x * Pow2(n), y);
      OrHighBits(x, y / 2, n - 1);
      DivTwice(Bitwise(OrBits, x * Pow2(n), y), m);
      DivTwice(y, m);
    }
  }

  lemma DivTwice(v: int, m: int)
    requires m > 0
    ensures v / (2 * m) == v / 2 / m
  {
    var q, r := v / 2 / m, v / 2 % m;
    assert v / 2 == m * q + r;
    assert v == (2 * m) * q + (2 * r + v % 2);
    QuotientUnique(v, 2 * m, q, 2 * r + v % 2);
  }

  lemma OrThirteen(z: int)
    ensures Bitwise(OrBits, 13, z) % 16 == 13 || Bitwise(OrBits, 13, z) % 16 == 15
  {
    hide Bitwise;
    BitwiseUnfold(OrBits, 13, z);
    BitwiseUnfold(OrBits, 6, z / 2);
    BitwiseUnfold(OrBits, 3, z / 2 / 2);
    BitwiseUnfold(OrBits, 1, z / 2 / 2 / 2);
  }

  /** Whatever the address, a resolved call keeps the size of a call. */
  lemma ResolvedCallSize(address: nat)
    ensures WordSize(Pack(SUB_CALL, address)) == 1
  {
    hide Bitwise, Pow2;
    Pow2At16();
    OrHighBits(SUB_CALL, address, 12);
    OrThirteen(address / 4096);
    var v := Bitwise(OrBits, SUB_CALL * 4096, address);
    assert v % 65536 / 4096 == v / 4096 % 16;
  }

  /** A resolved call decodes to the address of its subroutine exactly for addresses below 4096. */
  lemma ResolvedCallExact(address: nat)
    ensures Opcode(Pack(SUB_CALL, address)) == SUB_CALL && Operand(Pack(SUB_CALL, address)) == address
            <==> address < 4096
  {
    if address < 4096 {
      PackFits(SUB_CALL, address);
    }
  }

  lemma RewriteKeepsSize(w: word, r: Rewriting)
    ensures WordSize(RewriteWord(w, r)) == WordSize(w)
  {
    if r.Resolve? && Opcode(w) == SUB_CALL && Operand(w) < |r.table| {
      ResolvedCallSize(r.table[Operand(w)]);
    }
  }

  lemma {:induction false} RewriteConcat(a: seq<word>, b: seq<word>, r: Rewriting)
    requires Whole(a)
    ensures Rewrite(a + b, r) == Rewrite(a, r) + Rewrite(b, r)
    decreases |a|
  {
    hide WordSize, RewriteWord;
    if a == [] {
      assert a + b == b && [] + Rewrite(b, r) == Rewrite(b, r);
    } else {
      var n := WordSize(a[0]);
      var w := RewriteWord(a[0], r);
      RewriteKeepsSize(a[0], r);
      assert (a + b)[n..] == a[n..] + b;
      RewriteConcat(a[n..], b, r);
      assert Instruction(w, a + b, n) == Instruction(w, a, n);
      Associative(Instruction(w, a, n), Rewrite(a[n..], r), Rewrite(b, r));
    }
  }

  /** Rewriting one instruction. */
  lemma RewriteOne(code: seq<word>, r: Rewriting)
    requires code != [] && WordSize(code[0]) == |code|
    ensures Whole(code) && Rewrite(code, r) == [RewriteWord(code[0], r)] + code[1..]
  {
    RewriteKeepsSize(code[0], r);
    assert code[|code|..] == [];
    assert Instruction(RewriteWord(code[0], r), code, |code|) == [RewriteWord(code[0], r)] + code[1..];
    assert Instruction(RewriteWord(code[0], r), code, |code|) + [] ==
        Instruction(RewriteWord(code[0], r), code, |code|);
  }

  lemma {:induction false} RewriteWhole(code: seq<word>, r: Rewriting)
    requires Whole(code)
    ensures Whole(Rewrite(code, r))
    decreases |code|
  {
    if code != [] {
      var n := WordSize(code[0]);
      RewriteKeepsSize(code[0], r);
      RewriteWhole(code[n..], r);
      assert Rewrite(code, r)[n..] == Rewrite(code[n..], r);
    }
  }

  lemma RewriteStep(before: seq<word>, rest: seq<word>, after: seq<word>, n: nat, r: Rewriting)
    requires rest != [] && after == (before + rest)[|before| := RewriteWord(rest[0], r)]
    requires n == if WordSize(RewriteWord(rest[0], r)) <= |rest| then WordSize(RewriteWord(rest[0], r)) else |rest|
    ensures after[|before| + n..] == rest[n..]
    ensures before + Rewrite(rest, r) == after[..|before| + n] + Rewrite(rest[n..], r)
  {
    hide RewriteWord, WordSize;
    var w := RewriteWord(rest[0], r);
    assert after[..|before| + n] == before + Instruction(w, rest, n);
    Associative(before, Instruction(w, rest, n), Rewrite(rest[n..], r));
  }

  /** The rewriting walk, in place. */
  method RewriteInPlace(code: seq<word>, r: Rewriting) returns (c: seq<word>)
    ensures c == Rewrite(code, r)
  {
    hide Rewrite, RewriteWord, WordSize;
    c := code;
    var pc := 0;
    assert code[0..] == code && [] + Rewrite(code, r) == Rewrite(code, r);
    while pc < |c|
      invariant pc <= |c| == |code|
      invariant Rewrite(code, r) == c[..pc] + Rewrite(c[pc..], r)
    {
      ghost var was := c;
      assert was[..pc] + was[pc..] == was;
      c := c[pc := RewriteWord(c[pc], r)];
      var n := if pc + WordSize(c[pc]) <= |c| then WordSize(c[pc]) else |c| - pc;
      RewriteStep(was[..pc], was[pc..], c, n, r);
      pc := pc + n;
    }
    RewriteNothing(r);
    assert c[..pc] == c && c[pc..] == [] && c + [] == c;
  }

  lemma RewriteNothing(r: Rewriting)
    ensures Rewrite([], r) == []
  {
  }

  // ----- the kind of the last instruction -----

  /** The opcode of the last instruction, 16 for empty code. */
  function TypeOfLast(code: seq<word>): nat
    decreases |code|
  {
    if code == [] then 16
    else if WordSize(code[0]) >= |code| then Opcode(code[0])
    else TypeOfLast(code[WordSize(code[0])..])
  }

  method GetTypeOfLast(code: seq<word>) returns (t: nat)
    ensures t == TypeOfLast(code)
  {
    t := 16;
    var pc := 0;
    while pc < |code|
      invariant pc < |code| ==> TypeOfLast(code[pc..]) == TypeOfLast(code)
      invariant pc >= |code| ==> t == TypeOfLast(code)
    {
      t := Opcode(code[pc]);
      assert pc + WordSize(code[pc]) < |code| ==> code[pc..][WordSize(code[pc])..] == code[pc + WordSize(code[pc])..];
      pc := pc + WordSize(code[pc]);
    }
  }

  lemma {:induction false} TypeOfLastConcat(a: seq<word>, b: seq<word>)
    requires Whole(a) && b != []
    ensures TypeOfLast(a + b) == TypeOfLast(b)
    decreases |a|
  {
    if a == [] {
      assert a + b == b;
    } else {
      var n := WordSize(a[0]);
      assert (a + b)[n..] == a[n..] + b;
      TypeOfLastConcat(a[n..], b);
    }
  }
}
