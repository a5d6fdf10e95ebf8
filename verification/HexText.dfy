/** The text of a firmware file: lines of hexadecimal digits, read character by character. */
module HexText {
  import opened Words
  import opened HexFile

  // ----- reading characters -----

  /** The character at a position, -1 past the end. */
  function Char(text: seq<byte>, pos: nat): int { if pos < |text| then text[pos] else -1 }

  predicate Space(c: int) { c == 32 || 9 <= c <= 13 }

  function Skip(text: seq<byte>, pos: nat): (p: nat)
    ensures p >= pos && (p < |text| ==> !Space(text[p]))
    decreases |text| - pos
  {
    if pos < |text| && Space(text[pos]) then Skip(text, pos + 1) else pos
  }

  /** A digit as the reader takes it, whatever the character. */
  function Nibble(c: int): int { if c <= 57 then c - 48 else if c <= 70 then c - 55 else c - 87 }

  function U8(text: seq<byte>, pos: nat): int {
    Bitwise(OrBits, Nibble(Char(text, pos)) * 16, Nibble(Char(text, pos + 1)))
  }

  function U16(text: seq<byte>, pos: nat): int { Bitwise(OrBits, U8(text, pos) * 256, U8(text, pos + 2)) }

  function Data(text: seq<byte>, pos: nat, n: nat): (d: seq<byte>)
    ensures |d| == n && forall i | 0 <= i < n :: d[i] == U8(text, pos + 2 * i) % 256
  {
    if n == 0 then [] else Data(text, pos, n - 1) + [U8(text, pos + 2 * (n - 1)) % 256]
  }

  // ----- reading records -----

  const COLON := 58

  /** A header: how many bytes follow, the low address, the kind of record. */
  datatype Head = Head(count: byte, low: nat, kind: byte)
  {
    function Sum(): int { count as int + low + low / 256 + kind }
  }

  function HeadAt(text: seq<byte>, p: nat): Head {
    Head(U8(text, p + 1) % 256, U16(text, p + 3) % 65536, U8(text, p + 7) % 256)
  }

  /** n bytes after the header of the record at p, and their checksum. */
  predicate SumsUp(text: seq<byte>, p: nat, n: nat) {
    U8(text, p + 9 + 2 * n) % 256 == Complemented(HeadAt(text, p).Sum() + Sum(Data(text, p + 9, n)))
  }

  /** What the text says from a position on: the data records with their addresses, up to the end
      of file record. A character read past the end is noticed after its record only. */
  function ReadText(text: seq<byte>, pos: nat, base: nat): HexResult<seq<Piece>>
    decreases |text| + 1 - pos
  {
    if pos > |text| then Err(FileTruncated) else
    var p := Skip(text, pos);
    if p >= |text| then Err(NoEndRecord)
    else if text[p] != COLON then Err(InvalidRecord)
    else ReadRecord(text, p, base)
  }

  function ReadRecord(text: seq<byte>, p: nat, base: nat): HexResult<seq<Piece>>
    requires p < |text|
    decreases |text| - p
  {
    var h := HeadAt(text, p);
    if h.kind == 0 then
      if !SumsUp(text, p, h.count) then Err(WrongChecksum) else
      var more := ReadText(text, p + 11 + 2 * (h.count as int), base);
      if more.Err? then more else Ok([Piece(base + h.low, Data(text, p + 9, h.count))] + more.value)
    else if h.kind == 1 then Ok([])
    else if h.kind == 2 then
      if h.count != 2 || !AddressSumsUp(text, p) then Err(InvalidRecord)
      else ReadText(text, p + 15, HighAt(text, p) * 16)
    else if h.kind == 4 then
      if h.count != 2 then Err(InvalidRecord)
      else if !AddressSumsUp(text, p) then Err(WrongChecksum)
      else ReadText(text, p + 15, HighAt(text, p) * 65536)
    else if h.kind == 5 then
      if !SumsUp(text, p, 4) then Err(WrongChecksum) else ReadText(text, p + 19, base)
    else Err(UnknownRecord)
  }

  /** The two bytes of an address record are read as one number. */
  function HighAt(text: seq<byte>, p: nat): nat { U16(text, p + 9) % 65536 }

  predicate AddressSumsUp(text: seq<byte>, p: nat) {
    U8(text, p + 13) % 256 == Complemented(HeadAt(text, p).Sum() + HighAt(text, p) + HighAt(text, p) / 256)
  }

  /** The loop over the stream. */
  method ReadHexText(text: seq<byte>) returns (r: HexResult<seq<Piece>>)
    ensures r == Finished([], ReadText(text, 0, 0))
  {
    hide AddAll, Add, SumsUp, AddressSumsUp, HeadAt, HighAt, Skip;
    var chunks: seq<Piece>, base: nat, pos: nat := [], 0, 0;
    while pos <= |text|
      invariant Finished([], ReadText(text, 0, 0)) == Finished(chunks, ReadText(text, pos, base))
      decreases |text| + 1 - pos
    {
      var p := Skip(text, pos);
      if p >= |text| {
        return Err(NoEndRecord);
      }
      if text[p] != COLON {
        return Err(InvalidRecord);
      }
      var h := HeadAt(text, p);
      if h.kind == 0 {
        if !SumsUp(text, p, h.count) {
          return Err(WrongChecksum);
        }
        var piece, next := Piece(base + h.low, Data(text, p + 9, h.count)), p + 11 + 2 * (h.count as int);
        AddFirst(chunks, piece, ReadText(text, next, base));
        chunks := AddRecord(chunks, piece);
        pos := next;
      } else if h.kind == 1 {
        NothingAdded(chunks);
        return Ok(chunks);
      } else if h.kind == 2 {
        if h.count != 2 || !AddressSumsUp(text, p) {
          return Err(InvalidRecord);
        }
        base, pos := HighAt(text, p) * 16, p + 15;
      } else if h.kind == 4 {
        if h.count != 2 {
          return Err(InvalidRecord);
        }
        if !AddressSumsUp(text, p) {
          return Err(WrongChecksum);
        }
        base, pos := HighAt(text, p) * 65536, p + 15;
      } else if h.kind == 5 {
        if !SumsUp(text, p, 4) {
          return Err(WrongChecksum);
        }
        pos := p + 19;
      } else {
        return Err(UnknownRecord);
      }
    }
    r := Err(FileTruncated);
  }

  method ExtractPagesFromText(text: seq<byte>) returns (r: HexResult<Pages>)
    ensures Pictures(r, ReadText(text, 0, 0))
    ensures forall records | Prints(text, 0, records) :: Pictures(r, Addressed(records, 0))
  {
    hide Pictures, ReadText, Prints;
    var chunks := ReadHexText(text);
    r := ExtractAll(chunks, ReadText(text, 0, 0));
    forall records | Prints(text, 0, records)
      ensures Pictures(r, Addressed(records, 0))
    {
      ReadPrinted(text, 0, records, 0);
    }
  }

  // ----- texts of records -----

  /** The character is a digit of either case with this value. */
  predicate Digit(c: byte, n: int) {
    0 <= n < 16 && (if n < 10 then c == 48 + n else c == 55 + n || c == 87 + n)
  }

  predicate Digits(text: seq<byte>, pos: nat, bytes: seq<byte>)
    requires pos + 2 * |bytes| <= |text|
  {
    forall i | 0 <= i < |bytes| ::
      Digit(text[pos + 2 * i], bytes[i] / 16) && Digit(text[pos + 2 * i + 1], bytes[i] % 16)
  }

  /** Fields that fit, and the four bytes that a start address record has. */
  predicate Proper(r: Record) { r.low < 65536 && |r.data| < 256 && (r.kind == 5 ==> |r.data| == 4) }

  /** From a position on, the text holds these records and nothing else: colons, digits of either case,
      and white space before any record and at the end. */
  predicate Prints(text: seq<byte>, pos: nat, records: seq<Record>)
    decreases |records|
  {
    if records == [] then White(text, pos, |text|)
    else
      var r := records[0];
      Proper(r) && exists p | pos <= p <= |text| ::
        && White(text, pos, p) && PrintsOne(text, p, Bytes(r) + [r.checksum])
        && Prints(text, p + 1 + 2 * (|r.data| + 5), records[1..])
  }

  /** Tabulators, line feeds, carriage returns, other feeds and spaces. */
  predicate White(text: seq<byte>, from: nat, to: nat) {
    from <= to <= |text| && forall i | from <= i < to :: text[i] in {9, 10, 11, 12, 13, 32}
  }

  lemma {:induction false} SkipsWhite(text: seq<byte>, pos: nat, p: nat)
    requires White(text, pos, p) && (p < |text| ==> text[p] == COLON)
    ensures Skip(text, pos) == p
    decreases p - pos
  {
    if pos < p {
      SkipsWhite(text, pos + 1, p);
    }
  }

  predicate PrintsOne(text: seq<byte>, p: nat, bytes: seq<byte>) {
    p + 1 + 2 * |bytes| <= |text| && text[p] == COLON && Digits(text, p + 1, bytes)
  }

  lemma DigitBack(c: byte, n: int)
    requires Digit(c, n)
    ensures Nibble(c) == n
  {
  }

  lemma ByteBack(text: seq<byte>, pos: nat, b: byte)
    requires pos + 1 < |text| && Digit(text[pos], b / 16) && Digit(text[pos + 1], b % 16)
    ensures U8(text, pos) == b
  {
    DigitBack(text[pos], b / 16);
    DigitBack(text[pos + 1], b % 16);
    assert Pow2(4) == 16;
    OrIntoFreeBits(b / 16, b % 16, 4);
  }

  lemma PrintedByte(text: seq<byte>, p: nat, bytes: seq<byte>, i: nat)
    requires PrintsOne(text, p, bytes) && i < |bytes|
    ensures U8(text, p + 1 + 2 * i) == bytes[i]
  {
    ByteBack(text, p + 1 + 2 * i, bytes[i]);
  }

  lemma WordBack(text: seq<byte>, pos: nat, a: byte, b: byte)
    requires U8(text, pos) == a && U8(text, pos + 2) == b
    ensures U16(text, pos) == a as int * 256 + b
  {
    assert Pow2(4) == 16 && Pow2(8) == 256 by { Pow2Add(4, 4); }
    OrIntoFreeBits(a, b, 8);
  }

  /** The fields of a printed record come back. */
  lemma HeadBack(text: seq<byte>, p: nat, r: Record)
    requires Proper(r) && PrintsOne(text, p, Bytes(r) + [r.checksum])
    ensures HeadAt(text, p) == Head(|r.data|, r.low, r.kind)
    ensures Data(text, p + 9, |r.data|) == r.data
    ensures U8(text, p + 9 + 2 * |r.data|) == r.checksum
  {
    hide U8, U16, Digits;
    var all := Bytes(r) + [r.checksum];
    PrintedByte(text, p, all, 0);
    PrintedByte(text, p, all, 1);
    PrintedByte(text, p, all, 2);
    PrintedByte(text, p, all, 3);
    WordBack(text, p + 3, r.low / 256, r.low % 256);
    forall i | 0 <= i < |r.data|
      ensures U8(text, p + 9 + 2 * i) == r.data[i]
    {
      PrintedByte(text, p, all, 4 + i);
      assert all[4 + i] == r.data[i];
    }
    PrintedByte(text, p, all, 4 + |r.data|);
  }

  lemma AddressBack(text: seq<byte>, p: nat, r: Record)
    requires Proper(r) && PrintsOne(text, p, Bytes(r) + [r.checksum]) && |r.data| == 2
    ensures HighAt(text, p) == High(r) && (AddressSumsUp(text, p) <==> r.checksum == Expected(r))
  {
    hide U8, U16, Digits, PrintsOne, Sum, Complemented;
    HeadBack(text, p, r);
    var all := Bytes(r) + [r.checksum];
    PrintedByte(text, p, all, 4);
    PrintedByte(text, p, all, 5);
    assert all[4] == r.data[0] && all[5] == r.data[1];
    WordBack(text, p + 9, r.data[0], r.data[1]);
    assert r.data == [r.data[0]] + [r.data[1]];
    SumConcat([r.data[0]], [r.data[1]]);
    SumOne(r.data[0]);
    SumOne(r.data[1]);
    var h := High(r);
    assert h / 256 == r.data[0];
    SameComplement(|r.data| + r.low + r.low / 256 + r.kind + Sum(r.data), r.data[0]);
  }

  lemma SameComplement(sum: int, k: int)
    ensures Complemented(sum + 256 * k) == Complemented(sum)
  {
  }

  lemma SumsBack(text: seq<byte>, p: nat, r: Record)
    requires Proper(r) && PrintsOne(text, p, Bytes(r) + [r.checksum])
    ensures SumsUp(text, p, |r.data|) <==> r.checksum == Expected(r)
  {
    hide U8, U16, Digits, Sum;
    HeadBack(text, p, r);
  }

  /** Reading the text of some records says what the records say, whatever the case of the digits and
      the white space, and fails where they fail. */
  lemma {:induction false} ReadPrinted(text: seq<byte>, pos: nat, records: seq<Record>, base: nat)
    requires Prints(text, pos, records)
    ensures ReadText(text, pos, base) == Addressed(records, base)
    decreases |records|
  {
    hide SumsUp, AddressSumsUp, HeadAt, HighAt, Skip, PrintsOne, Data, Bytes, Expected, White;
    if records == [] {
      SkipsWhite(text, pos, |text|);
    } else {
      var r, rest := records[0], records[1..];
      var p :| pos <= p <= |text| && White(text, pos, p) && PrintsOne(text, p, Bytes(r) + [r.checksum])
               && Prints(text, p + 1 + 2 * (|r.data| + 5), rest);
      var next := p + 1 + 2 * (|r.data| + 5);
      PrintsStart(text, p, Bytes(r) + [r.checksum]);
      SkipsWhite(text, pos, p);
      HeadBack(text, p, r);
      SumsBack(text, p, r);
      if |r.data| == 2 {
        AddressBack(text, p, r);
        ReadPrinted(text, next, rest, High(r) * 16);
        ReadPrinted(text, next, rest, High(r) * 65536);
      }
      ReadPrinted(text, next, rest, base);
    }
  }

  /** Wherever a record should start, any other character ends the reading. */
  lemma JunkRejected(text: seq<byte>, pos: nat, p: nat, base: nat)
    requires White(text, pos, p) && p < |text| && text[p] != 58 && !White(text, p, p + 1)
    ensures ReadText(text, pos, base) == Err(InvalidRecord)
  {
    SkipsTo(text, pos, p);
  }

  lemma {:induction false} SkipsTo(text: seq<byte>, pos: nat, p: nat)
    requires White(text, pos, p) && p < |text| && !White(text, p, p + 1)
    ensures Skip(text, pos) == p
    decreases p - pos
  {
    if pos < p {
      SkipsTo(text, pos + 1, p);
    }
  }

  lemma PrintsStart(text: seq<byte>, p: nat, bytes: seq<byte>)
    requires PrintsOne(text, p, bytes)
    ensures p < |text| && text[p] == COLON
  {
  }

  // ----- every list of records has a text -----

  function DigitOf(n: int): byte
    requires 0 <= n < 16
  {
    if n < 10 then 48 + n else 55 + n
  }

  function DigitsOf(bytes: seq<byte>): (t: seq<byte>)
    ensures |t| == 2 * |bytes|
  {
    if bytes == [] then [] else [DigitOf(bytes[0] / 16), DigitOf(bytes[0] % 16)] + DigitsOf(bytes[1..])
  }

  predicate AllProper(records: seq<Record>) { forall i | 0 <= i < |records| :: Proper(records[i]) }

  /** One record a line. */
  function Print(records: seq<Record>): seq<byte>
    requires AllProper(records)
    decreases |records|
  {
    if records == [] then []
    else
      assert Proper(records[0]);
      [COLON] + DigitsOf(Bytes(records[0]) + [records[0].checksum]) + [10] + Print(records[1..])
  }

  lemma {:induction false} DigitsOfAt(bytes: seq<byte>, i: nat)
    requires i < |bytes|
    ensures DigitsOf(bytes)[2 * i] == DigitOf(bytes[i] / 16) && DigitsOf(bytes)[2 * i + 1] == DigitOf(bytes[i] % 16)
    decreases i
  {
    if i > 0 {
      DigitsOfAt(bytes[1..], i - 1);
    }
  }

  lemma LinePrints(a: seq<byte>, bytes: seq<byte>, b: seq<byte>)
    ensures PrintsOne(a + [COLON] + DigitsOf(bytes) + b, |a|, bytes)
  {
    var text := a + [COLON] + DigitsOf(bytes) + b;
    forall i | 0 <= i < |bytes|
      ensures Digit(text[|a| + 1 + 2 * i], bytes[i] / 16) && Digit(text[|a| + 1 + 2 * i + 1], bytes[i] % 16)
    {
      DigitsOfAt(bytes, i);
    }
  }

  /** White space before a position does not matter. */
  lemma PrintsAfterSpace(text: seq<byte>, pos: nat, records: seq<Record>)
    requires pos < |text| && White(text, pos, pos + 1) && Prints(text, pos + 1, records)
    ensures Prints(text, pos, records)
  {
    hide PrintsOne, Bytes;
    forall p | White(text, pos + 1, p)
      ensures White(text, pos, p)
    {
      assert text[pos] in {9, 10, 11, 12, 13, 32};
    }
  }

  lemma {:induction false} PrintPrints(a: seq<byte>, records: seq<Record>)
    requires AllProper(records)
    ensures Prints(a + Print(records), |a|, records)
    decreases |records|
  {
    hide PrintsOne, Bytes, DigitsOf;
    var text := a + Print(records);
    if records != [] {
      var r, rest := records[0], records[1..];
      assert Proper(r);
      var bytes := Bytes(r) + [r.checksum];
      var line := [COLON] + DigitsOf(bytes) + [10];
      assert text == (a + line) + Print(rest);
      assert text == a + [COLON] + DigitsOf(bytes) + ([10] + Print(rest));
      LinePrints(a, bytes, [10] + Print(rest));
      BytesSize(r);
      PrintPrints(a + line, rest);
      var next := |a| + 1 + 2 * (|r.data| + 5);
      assert text[next] == 10 && next + 1 == |a + line|;
      PrintsAfterSpace(text, next, rest);
      assert White(text, |a|, |a|);
    }
  }

  lemma BytesSize(r: Record)
    requires Proper(r)
    ensures |Bytes(r)| == |r.data| + 4
  {
  }

  /** Printed and read back, records say what they say. */
  lemma PrintReadsBack(records: seq<Record>)
    requires AllProper(records)
    ensures ReadText(Print(records), 0, 0) == Addressed(records, 0)
  {
    PrintPrints([], records);
    assert [] + Print(records) == Print(records);
    ReadPrinted(Print(records), 0, records, 0);
  }
}
