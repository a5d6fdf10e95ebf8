/** Wide strings as UTF-8 bytes and back. */
module Utf8 {
  import opened Words

  /** A string is a sequence of code points. */
  type Wide = seq<nat>

  // ----- encoding -----

  /** The bits of the parts do not overlap, so that adding them up joins them. */
  function EncodeChar(c: nat): seq<byte>
  {
    if c < 0x80 then [c]
    else if c < 0x800 then [c / 64 % 32 + 0xC0, c % 64 + 0x80]
    else if c < 0xD800 then [c / 4096 % 16 + 0xE0, c / 64 % 64 + 0x80, c % 64 + 0x80]
    else ['?' as int]
  }

  /** A byte inside a character. */
  predicate Inner(b: byte) { 0x80 <= b < 0xC0 }

  /** One byte for seven bits, two for eleven, three below the surrogates, with the lead bytes and the
      payload bits of UTF-8; a question mark for the rest. */
  lemma EncodeCharExact(c: nat)
    ensures var code := EncodeChar(c);
            if c < 128 then code == [c]
            else if c < 2048 then
              |code| == 2 && 0xC0 <= code[0] < 0xE0 && Inner(code[1]) && code[0] as int * 64 + code[1] == 0x3080 + c
            else if c < 55296 then
              && |code| == 3 && 0xE0 <= code[0] < 0xF0 && Inner(code[1]) && Inner(code[2])
              && code[0] as int * 4096 + code[1] as int * 64 + code[2] == 0xE2080 + c
            else code == [63]
  {
    if c < 0xD800 {
      Quotients(c);
    }
  }

  function Encode(s: Wide): seq<byte> { if s == [] then [] else EncodeChar(s[0]) + Encode(s[1..]) }

  method WStringToUTF8(s: Wide) returns (os: seq<byte>)
    ensures os == Encode(s)
  {
    os := [];
    var i := 0;
    assert s[0..] == s;
    while i < |s|
      invariant 0 <= i <= |s|
      invariant os + Encode(s[i..]) == Encode(s)
    {
      assert s[i..][0] == s[i] && s[i..][1..] == s[i + 1..];
      assert os + (EncodeChar(s[i]) + Encode(s[i + 1..])) == (os + EncodeChar(s[i])) + Encode(s[i + 1..]);
      os := os + EncodeChar(s[i]);
      i := i + 1;
    }
    assert os + [] == os;
  }

  // ----- decoding -----

  /** OverRead stands for reading past the terminator of the string. */
  datatype Decoded = Ok(text: Wide) | Invalid | OverRead

  /** A byte at or after the current one. A string ends with a zero byte. */
  function Peek(rest: seq<byte>, k: nat): byte { if k < |rest| then rest[k] else 0 }

  /** The character in two and in three bytes. */
  function Two(a: byte, b: byte): nat { a % 32 * 64 + b % 64 }

  function Three(a: byte, b: byte, c: byte): nat { a % 16 * 4096 + b % 64 * 64 + c % 64 }

  function Cons(c: nat, d: Decoded): Decoded { if d.Ok? then Ok([c] + d.text) else d }

  /** Decode what is left. Bytes inside a character do not count down `left`. */
  function Decode(rest: seq<byte>, left: int): Decoded
    decreases |rest|
  {
    if rest == [] then Ok([])
    else
      var a := rest[0];
      if a < 128 then Cons(a, Decode(rest[1..], left - 1))
      else if a < 192 then Decode(rest[1..], left)
      else if a < 224 then
        if left < 2 then Invalid else Cons(Two(a, Peek(rest, 1)), Decode(rest[1..], left - 1))
      else if a < 240 then
        if left < 3 then Invalid
        else if |rest| < 2 then OverRead
        else Cons(Three(a, Peek(rest, 1), Peek(rest, 2)), Decode(rest[1..], left - 1))
      else if a < 248 then Cons('?' as int, Decode(rest[1..], left - 1))
      else Decode(rest[1..], left - 1)
  }

  ghost function Joined(res: Wide, d: Decoded): Decoded { if d.Ok? then Ok(res + d.text) else d }

  method UTF8ToWString(s: seq<byte>) returns (r: Decoded)
    ensures r == Decode(s, |s|)
  {
    hide Two, Three;
    var res: Wide, left, i := [], |s|, 0;
    assert s[0..] == s;
    JoinedNothing(Decode(s, |s|));
    while i < |s|
      invariant 0 <= i <= |s|
      invariant Decode(s, |s|) == Joined(res, Decode(s[i..], left))
    {
      assert s[i..][0] == s[i] && s[i..][1..] == s[i + 1..];
      var a := s[i];
      var c: int := -1;
      var middle := 128 <= a < 192;
      if a < 128 {
        c := a;
      } else if middle {
      } else if a < 224 {
        if left < 2 {
          return Invalid;
        }
        c := Two(a, Peek(s[i..], 1));
      } else if a < 240 {
        if left < 3 {
          return Invalid;
        }
        if i + 1 >= |s| {
          return OverRead;
        }
        c := Three(a, Peek(s[i..], 1), Peek(s[i..], 2));
      } else if a < 248 {
        c := '?' as int;
      }
      if !middle {
        left := left - 1;
      }
      if c >= 0 {
        JoinedCons(res, c, Decode(s[i + 1..], left));
        res := res + [c];
      }
      i := i + 1;
    }
    assert res + [] == res;
    r := Ok(res);
  }

  lemma JoinedNothing(d: Decoded)
    ensures Joined([], d) == d
  {
    if d.Ok? {
      assert [] + d.text == d.text;
    }
  }

  lemma JoinedCons(res: Wide, c: nat, d: Decoded)
    ensures Joined(res + [c], d) == Joined(res, Cons(c, d))
  {
    if d.Ok? {
      assert (res + [c]) + d.text == res + ([c] + d.text);
    }
  }

  // ----- what any bytes decode to -----

  /** Characters started in the first i bytes. */
  function Started(s: seq<byte>, i: nat): (n: nat)
    requires i <= |s|
    ensures n <= i
  {
    if i == 0 then 0 else Started(s, i - 1) + if Inner(s[i - 1]) then 0 else 1
  }

  /** The decoder finds a character cut off: it takes the bytes that are left for the length minus
      the characters started, so that a cut goes unnoticed behind other long characters. */
  predicate CutAt(s: seq<byte>, i: nat)
    requires i < |s|
  {
    (0xC0 <= s[i] < 0xE0 && |s| - Started(s, i) < 2) || (0xE0 <= s[i] < 0xF0 && |s| - Started(s, i) < 3)
  }

  /** It reads past the terminator after a last byte that starts a character of three. */
  predicate OverAt(s: seq<byte>, i: nat)
    requires i < |s|
  {
    0xE0 <= s[i] < 0xF0 && i + 1 == |s| && !CutAt(s, i)
  }

  /** What the byte at i contributes: the character it starts, with zero bits past the end. */
  function CharAt(s: seq<byte>, i: nat): Wide
    requires i < |s|
  {
    var a: int, b: int, c: int := s[i], if i + 1 < |s| then s[i + 1] else 0, if i + 2 < |s| then s[i + 2] else 0;
    if a < 0x80 then [a]
    else if a < 0xC0 then []
    else if a < 0xE0 then [(a - 0xC0) * 64 + b % 64]
    else if a < 0xF0 then [(a - 0xE0) * 4096 + b % 64 * 64 + c % 64]
    else if a < 0xF8 then [63]
    else []
  }

  function TextOf(s: seq<byte>, i: nat): Wide
    requires i <= |s|
  {
    if i == 0 then [] else TextOf(s, i - 1) + CharAt(s, i - 1)
  }

  lemma DecodeStep(s: seq<byte>, i: nat, left: int)
    requires i < |s| && left == |s| - Started(s, i)
    ensures var next := left - if Inner(s[i]) then 0 else 1;
            Decode(s[i..], left) ==
            if CutAt(s, i) then Invalid else if OverAt(s, i) then OverRead
            else Joined(CharAt(s, i), Decode(s[i + 1..], next))
  {
    var rest, a := s[i..], s[i];
    assert rest[0] == a && rest[1..] == s[i + 1..];
    assert Peek(rest, 1) == (if i + 1 < |s| then s[i + 1] else 0);
    assert Peek(rest, 2) == (if i + 2 < |s| then s[i + 2] else 0);
    JoinedNothing(Decode(s[i + 1..], left));
    JoinedNothing(Decode(s[i + 1..], left - 1));
    hide Started;
  }

  lemma JoinedTwice(a: Wide, b: Wide, d: Decoded)
    ensures Joined(a, Joined(b, d)) == Joined(a + b, d)
  {
    if d.Ok? {
      assert a + (b + d.text) == a + b + d.text;
    }
  }

  lemma {:induction false} DecodePrefix(s: seq<byte>, i: nat)
    requires i <= |s| && forall j | 0 <= j < i :: !CutAt(s, j) && !OverAt(s, j)
    ensures Decode(s, |s|) == Joined(TextOf(s, i), Decode(s[i..], |s| - Started(s, i)))
    decreases i
  {
    hide CharAt, CutAt, OverAt, Decode;
    if i == 0 {
      assert s[0..] == s;
      JoinedNothing(Decode(s, |s|));
    } else {
      DecodePrefix(s, i - 1);
      DecodeStep(s, i - 1, |s| - Started(s, i - 1));
      JoinedTwice(TextOf(s, i - 1), CharAt(s, i - 1), Decode(s[i..], |s| - Started(s, i)));
    }
  }

  /** Any bytes: the first cut the decoder notices, or reading too far, ends it; otherwise the text is
      made of the characters that the bytes start, in order. */
  lemma DecodeExact(s: seq<byte>, i: nat)
    requires i <= |s| && forall j | 0 <= j < i :: !CutAt(s, j) && !OverAt(s, j)
    ensures i == |s| ==> Decode(s, |s|) == Ok(TextOf(s, |s|))
    ensures i < |s| && CutAt(s, i) ==> Decode(s, |s|) == Invalid
    ensures i < |s| && OverAt(s, i) ==> Decode(s, |s|) == OverRead
  {
    hide CharAt, CutAt, TextOf, Started;
    DecodePrefix(s, i);
    if i < |s| {
      DecodeStep(s, i, |s| - Started(s, i));
    } else {
      assert s[i..] == [] && TextOf(s, i) + [] == TextOf(s, i);
    }
  }

  // ----- round trip -----

  /** Characters that the encoder has no code for come back as question marks. */
  function Shown(s: Wide): (r: Wide)
    ensures |r| == |s| && forall i | 0 <= i < |s| :: r[i] == if s[i] < 0xD800 then s[i] else '?' as int
  {
    if s == [] then [] else [if s[0] < 0xD800 then s[0] else '?' as int] + Shown(s[1..])
  }

  function ShownChar(c: nat): nat { if c < 0xD800 then c else '?' as int }

  /** One encoded character, followed by anything. */
  lemma DecodeChar(c: nat, tail: seq<byte>, left: int)
    requires left >= |EncodeChar(c)| + |tail|
    ensures exists l | l >= |tail| :: Decode(EncodeChar(c) + tail, left) == Cons(ShownChar(c), Decode(tail, l))
  {
    var code := EncodeChar(c);
    var all := code + tail;
    if |code| == 1 {
      assert all[1..] == tail;
      assert Decode(all, left) == Cons(if c < 0xD800 then c else '?' as int, Decode(tail, left - 1));
    } else if |code| == 2 {
      TwoBytes(c);
      assert all[1..][1..] == tail;
      assert Decode(all[1..], left - 1) == Decode(tail, left - 1);
      assert Decode(all, left) == Cons(c, Decode(tail, left - 1));
    } else {
      ThreeBytes(c);
      assert all[1..][1..][1..] == tail;
      assert Decode(all[1..][1..], left - 1) == Decode(tail, left - 1);
      assert Decode(all[1..], left - 1) == Decode(tail, left - 1);
      assert Decode(all, left) == Cons(c, Decode(tail, left - 1));
    }
  }

  lemma TwoBytes(c: nat)
    requires 0x80 <= c < 0x800
    ensures (c / 64 % 32 + 0xC0) % 32 * 64 + (c % 64 + 0x80) % 64 == c
  {
  }

  lemma ThreeBytes(c: nat)
    requires 0x800 <= c < 0xD800
    ensures (c / 4096 % 16 + 0xE0) % 16 * 4096 + (c / 64 % 64 + 0x80) % 64 * 64 + (c % 64 + 0x80) % 64 == c
  {
    var m, a := c / 64, c % 64;
    var q, b := m / 64, m % 64;
    Quotients(c);
    Marked(a, b, q);
  }

  lemma Quotients(c: nat)
    requires c < 0x10000
    ensures c / 4096 == c / 64 / 64 < 16
  {
  }

  lemma Marked(a: nat, b: nat, q: nat)
    requires a < 64 && b < 64 && q < 16
    ensures (a + 0x80) % 64 == a && (b + 0x80) % 64 == b && (q % 16 + 0xE0) % 16 == q
  {
  }

  lemma {:induction false} DecodeEncode(s: Wide, left: int)
    requires left >= |Encode(s)|
    ensures Decode(Encode(s), left) == Ok(Shown(s))
    decreases |s|
  {
    hide EncodeChar, Decode;
    if s == [] {
      DecodeNothing(left);
    } else {
      DecodeChar(s[0], Encode(s[1..]), left);
      var tail := Encode(s[1..]);
      var l :| l >= |tail| && Decode(EncodeChar(s[0]) + tail, left) == Cons(ShownChar(s[0]), Decode(tail, l));
      DecodeEncode(s[1..], l);
    }
  }

  lemma DecodeNothing(left: int)
    ensures Decode([], left) == Ok([])
  {
  }

  /** A string survives encoding and decoding if and only if all its characters are below 0xD800. */
  lemma RoundTripExact(s: Wide)
    ensures Decode(Encode(s), |Encode(s)|) == Ok(s) <==> forall i | 0 <= i < |s| :: s[i] < 0xD800
  {
    hide Encode, Decode;
    DecodeEncode(s, |Encode(s)|);
    if forall i | 0 <= i < |s| :: s[i] < 0xD800 {
      assert Shown(s) == s;
    }
  }
}
