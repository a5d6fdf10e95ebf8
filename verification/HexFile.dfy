/** Firmware files: Intel HEX records become chunks of bytes, and chunks become flash pages. */
module HexFile {
  import opened Words

  /** A record with the fields it has on its line. Its length is that of its data. */
  datatype Record = Record(low: nat, kind: byte, data: seq<byte>, checksum: byte)

  /** Bytes at an address: the data of a record, or a chunk of the reader. */
  datatype Piece = Piece(start: nat, bytes: seq<byte>)
  {
    function End(): nat { start + |bytes| }

    predicate Has(x: int) { start <= x < End() }
  }

  /** NoEndRecord: the input ends where a record should start. The original then looks at a character
      that it has not read. */
  datatype HexError = InvalidRecord | WrongChecksum | UnknownRecord | FileTruncated | NoEndRecord

  datatype HexResult<+T> = Ok(value: T) | Err(error: HexError)

  // ----- records -----

  function Sum(bytes: seq<byte>): nat { if bytes == [] then 0 else Sum(bytes[..|bytes| - 1]) + bytes[|bytes| - 1] }

  /** All bytes of the record before the checksum. */
  function Bytes(r: Record): seq<byte>
    requires r.low < 65536 && |r.data| < 256
  {
    [|r.data|, r.low / 256, r.low % 256, r.kind] + r.data
  }

  /** The byte the reader expects at the end of a record. */
  function Expected(r: Record): byte { Complemented(|r.data| + r.low + r.low / 256 + r.kind + Sum(r.data)) }

  /** The two's complement of a sum, as a byte. */
  function Complemented(sum: int): byte { (256 - sum % 256) % 256 }

  /** A record is accepted exactly when all of its bytes add up to a multiple of 256. */
  lemma ChecksumExact(r: Record)
    requires r.low < 65536 && |r.data| < 256
    ensures r.checksum == Expected(r) <==> Sum(Bytes(r) + [r.checksum]) % 256 == 0
  {
    hide Sum;
    var head: seq<byte> := [|r.data|, r.low / 256, r.low % 256, r.kind];
    SumConcat(head, r.data);
    SumFour(|r.data|, r.low / 256, r.low % 256, r.kind);
    SumConcat(Bytes(r), [r.checksum]);
    SumOne(r.checksum);
    Complement(Sum(Bytes(r)), r.low / 256, r.checksum);
  }

  lemma Complement(total: nat, k: nat, c: byte)
    ensures c == (256 - (total + 256 * k) % 256) % 256 <==> (total + c) % 256 == 0
  {
    assert (total + 256 * k) % 256 == total % 256;
  }

  lemma SumOne(a: byte)
    ensures Sum([a]) == a
  {
    assert [a][..0] == [];
  }

  lemma SumFour(a: byte, b: byte, c: byte, d: byte)
    ensures Sum([a, b, c, d]) == a as int + b + c + d
  {
    hide Sum;
    SumConcat([a], [b]);
    SumConcat([c], [d]);
    SumConcat([a] + [b], [c] + [d]);
    SumOne(a);
    SumOne(b);
    SumOne(c);
    SumOne(d);
    assert ([a] + [b]) + ([c] + [d]) == [a, b, c, d];
  }

  lemma {:induction false} SumConcat(a: seq<byte>, b: seq<byte>)
    ensures Sum(a + b) == Sum(a) + Sum(b)
    decreases |b|
  {
    if b == [] {
      assert a + b == a;
    } else {
      assert (a + b)[..|a + b| - 1] == a + b[..|b| - 1];
      SumConcat(a, b[..|b| - 1]);
    }
  }

  /** The sixteen-bit number in two bytes of data. */
  function High(r: Record): nat
    requires |r.data| == 2
  {
    (r.data[0] as int) * 256 + r.data[1]
  }

  /** What the records say: the data records with their addresses, up to the end of file record. */
  function Addressed(records: seq<Record>, base: nat): HexResult<seq<Piece>>
    decreases |records|
  {
    if records == [] then Err(NoEndRecord) else
    var r, rest := records[0], records[1..];
    if r.kind == 0 then
      if r.checksum != Expected(r) then Err(WrongChecksum) else
      var more := Addressed(rest, base);
      if more.Err? then more else Ok([Piece(base + r.low, r.data)] + more.value)
    else if r.kind == 1 then Ok([])
    else if r.kind == 2 then
      if |r.data| != 2 || r.checksum != Expected(r) then Err(InvalidRecord) else Addressed(rest, High(r) * 16)
    else if r.kind == 4 then
      if |r.data| != 2 then Err(InvalidRecord)
      else if r.checksum != Expected(r) then Err(WrongChecksum)
      else Addressed(rest, High(r) * 65536)
    else if r.kind == 5 then
      if r.checksum != Expected(r) then Err(WrongChecksum) else Addressed(rest, base)
    else Err(UnknownRecord)
  }

  /** The record can be read: its bytes add up, its kind is known, an address has two bytes. */
  predicate Good(r: Record)
  {
    && r.checksum == Expected(r)
    && (r.kind == 0 || r.kind == 5 || ((r.kind == 2 || r.kind == 4) && |r.data| == 2))
  }

  /** The base address in force at record i: that of the last address record before it. */
  function BaseAt(records: seq<Record>, i: nat, base: nat): nat
    requires i <= |records| && forall j | 0 <= j < i :: Good(records[j])
  {
    if i == 0 then base else
    var r := records[i - 1];
    assert Good(r);
    if r.kind == 2 then 16 * (256 * (r.data[0] as int) + r.data[1])
    else if r.kind == 4 then 65536 * (256 * (r.data[0] as int) + r.data[1])
    else BaseAt(records, i - 1, base)
  }

  /** The data of the records before e, each at its low address above the base in force. */
  function AllData(records: seq<Record>, e: nat, base: nat): seq<Piece>
    requires e <= |records| && forall j | 0 <= j < e :: Good(records[j])
  {
    if e == 0 then [] else
    var r := records[e - 1];
    AllData(records, e - 1, base) +
    if r.kind == 0 then [Piece(BaseAt(records, e - 1, base) + r.low, r.data)] else []
  }

  /** The first record that cannot be read, or that ends the file. */
  predicate StopsAt(records: seq<Record>, e: nat) {
    e <= |records| && (forall j | 0 <= j < e :: Good(records[j])) && (e < |records| ==> !Good(records[e]))
  }

  /** Why reading stops there. */
  function StopError(r: Record): HexError
  {
    if r.kind == 2 then InvalidRecord
    else if r.kind == 4 then if |r.data| != 2 then InvalidRecord else WrongChecksum
    else if r.kind == 0 || r.kind == 5 then WrongChecksum
    else UnknownRecord
  }

  /** What records say, place by place: all data up to the end of file record, or the first error. */
  lemma {:induction false} AddressedExact(records: seq<Record>, base: nat, e: nat)
    requires StopsAt(records, e)
    ensures Addressed(records, base) ==
            if e == |records| then Err(NoEndRecord)
            else if records[e].kind == 1 then Ok(AllData(records, e, base))
            else Err(StopError(records[e]))
    decreases |records|
  {
    hide Expected;
    if e > 0 {
      var rest := records[1..];
      assert Good(records[0]);
      assert BaseAt(records, 0, base) == base;
      assert StopsAt(rest, e - 1) by {
        assert forall j | 0 <= j < e - 1 :: rest[j] == records[j + 1];
      }
      AddressedExact(rest, BaseAt(records, 1, base), e - 1);
      DataFirst(records, e, base);
      var more := AllData(rest, e - 1, BaseAt(records, 1, base));
      assert [] + more == more;
      assert e < |records| ==> records[e] == rest[e - 1];
    }
  }

  lemma {:induction false} BaseFirst(records: seq<Record>, i: nat, base: nat)
    requires 1 <= i <= |records| && forall j | 0 <= j < i :: Good(records[j])
    ensures forall j | 0 <= j < i - 1 :: Good(records[1..][j])
    ensures BaseAt(records, i, base) == BaseAt(records[1..], i - 1, BaseAt(records, 1, base))
    decreases i
  {
    hide Expected;
    assert forall j | 0 <= j < i - 1 :: records[1..][j] == records[j + 1];
    if i > 1 {
      BaseFirst(records, i - 1, base);
    }
  }

  lemma {:induction false} DataFirst(records: seq<Record>, e: nat, base: nat)
    requires 1 <= e <= |records| && forall j | 0 <= j < e :: Good(records[j])
    ensures forall j | 0 <= j < e - 1 :: Good(records[1..][j])
    ensures AllData(records, e, base) ==
            (if records[0].kind == 0 then [Piece(base + records[0].low, records[0].data)] else []) +
            AllData(records[1..], e - 1, BaseAt(records, 1, base))
    decreases e
  {
    hide Expected;
    assert forall j | 0 <= j < e - 1 :: records[1..][j] == records[j + 1];
    if e > 1 {
      DataFirst(records, e - 1, base);
      BaseFirst(records, e - 1, base);
      assert records[1..][e - 2] == records[e - 1];
    }
  }

  // ----- chunks -----

  /** The first chunk that ends where the piece starts or starts where it ends. */
  function FirstTouching(chunks: seq<Piece>, p: Piece): (k: nat)
    ensures k <= |chunks| && (k < |chunks| ==> p.start == chunks[k].End() || p.End() == chunks[k].start)
    ensures forall i | 0 <= i < k :: p.start != chunks[i].End() && p.End() != chunks[i].start
  {
    if chunks == [] || p.start == chunks[0].End() || p.End() == chunks[0].start then 0
    else 1 + FirstTouching(chunks[1..], p)
  }

  function Position(chunks: seq<Piece>, start: nat): (k: nat)
    ensures k <= |chunks| && (k < |chunks| ==> chunks[k].start >= start)
    ensures forall i | 0 <= i < k :: chunks[i].start < start
  {
    if chunks == [] || chunks[0].start >= start then 0 else 1 + Position(chunks[1..], start)
  }

  /** A new entry of the map of chunks, which is kept in the order of the addresses. */
  function Insert(chunks: seq<Piece>, p: Piece): seq<Piece>
  {
    var k := Position(chunks, p.start);
    if k < |chunks| && chunks[k].start == p.start then chunks[k := p] else chunks[..k] + [p] + chunks[k..]
  }

  /** Where a data record goes. A record put in front of a chunk leaves the chunk at its address. */
  function Add(chunks: seq<Piece>, p: Piece): seq<Piece>
  {
    var k := FirstTouching(chunks, p);
    if k == |chunks| then Insert(chunks, p)
    else if p.start == chunks[k].End() then chunks[k := Piece(chunks[k].start, chunks[k].bytes + p.bytes)]
    else chunks[k := Piece(chunks[k].start, p.bytes + chunks[k].bytes)]
  }

  function AddAll(chunks: seq<Piece>, pieces: seq<Piece>): seq<Piece>
    decreases |pieces|
  {
    if pieces == [] then chunks else AddAll(Add(chunks, pieces[0]), pieces[1..])
  }

  /** A record at the start of a chunk that it does not touch takes the place of that chunk. */
  lemma SameStartReplaces(chunks: seq<Piece>, p: Piece, k: nat)
    requires k < |chunks| && chunks[k].start == p.start && FirstTouching(chunks, p) == |chunks|
    requires forall i, j | 0 <= i < j < |chunks| :: chunks[i].start < chunks[j].start
    ensures Add(chunks, p) == chunks[k := p]
  {
    assert Position(chunks, p.start) == k;
  }

  method AddRecord(chunks: seq<Piece>, p: Piece) returns (r: seq<Piece>)
    ensures r == Add(chunks, p)
  {
    r := chunks;
    var k := 0;
    while k < |chunks|
      invariant 0 <= k <= |chunks| && r == chunks
      invariant forall i | 0 <= i < k :: p.start != chunks[i].End() && p.End() != chunks[i].start
    {
      if p.start == chunks[k].End() {
        assert k == FirstTouching(chunks, p);
        r := r[k := Piece(chunks[k].start, chunks[k].bytes + p.bytes)];
        return;
      } else if p.End() == chunks[k].start {
        assert k == FirstTouching(chunks, p);
        r := r[k := Piece(chunks[k].start, p.bytes + chunks[k].bytes)];
        return;
      }
      k := k + 1;
    }
    r := Insert(chunks, p);
  }

  /** What is done after some records. */
  function Finished(chunks: seq<Piece>, rest: HexResult<seq<Piece>>): HexResult<seq<Piece>> {
    if rest.Err? then rest else Ok(AddAll(chunks, rest.value))
  }

  method ReadHexFile(records: seq<Record>) returns (r: HexResult<seq<Piece>>)
    ensures r == Finished([], Addressed(records, 0))
  {
    hide AddAll, Add, Expected;
    var chunks: seq<Piece>, base, i := [], 0, 0;
    assert records[0..] == records;
    while i < |records|
      invariant 0 <= i <= |records| && base >= 0
      invariant Finished([], Addressed(records, 0)) == Finished(chunks, Addressed(records[i..], base))
    {
      var rec := records[i];
      assert records[i..][0] == rec && records[i..][1..] == records[i + 1..];
      if rec.kind == 0 {
        if rec.checksum != Expected(rec) {
          return Err(WrongChecksum);
        }
        AddFirst(chunks, Piece(base + rec.low, rec.data), Addressed(records[i + 1..], base));
        chunks := AddRecord(chunks, Piece(base + rec.low, rec.data));
      } else if rec.kind == 1 {
        NothingAdded(chunks);
        return Ok(chunks);
      } else if rec.kind == 2 {
        if |rec.data| != 2 || rec.checksum != Expected(rec) {
          return Err(InvalidRecord);
        }
        base := High(rec) * 16;
      } else if rec.kind == 4 {
        if |rec.data| != 2 {
          return Err(InvalidRecord);
        }
        if rec.checksum != Expected(rec) {
          return Err(WrongChecksum);
        }
        base := High(rec) * 65536;
      } else if rec.kind == 5 {
        if rec.checksum != Expected(rec) {
          return Err(WrongChecksum);
        }
      } else {
        return Err(UnknownRecord);
      }
      i := i + 1;
    }
    r := Err(NoEndRecord);
  }

  lemma NothingAdded(chunks: seq<Piece>)
    ensures AddAll(chunks, []) == chunks
  {
  }

  lemma AddFirst(chunks: seq<Piece>, p: Piece, rest: HexResult<seq<Piece>>)
    ensures rest.Ok? ==> AddAll(chunks, [p] + rest.value) == AddAll(Add(chunks, p), rest.value)
  {
    if rest.Ok? {
      assert ([p] + rest.value)[1..] == rest.value;
    }
  }

  // ----- the image of the bytes -----

  /** The byte at an address, as the first piece that covers it has it. */
  function ByteAt(pieces: seq<Piece>, x: int): Option<byte>
  {
    if pieces == [] then None
    else if pieces[0].Has(x) then Some(pieces[0].bytes[x - pieces[0].start])
    else ByteAt(pieces[1..], x)
  }

  predicate Apart(p: Piece, q: Piece) { p.End() <= q.start || q.End() <= p.start }

  /** No empty piece, and no byte in two of them. */
  predicate Separate(pieces: seq<Piece>) {
    && (forall i | 0 <= i < |pieces| :: pieces[i].bytes != [])
    && forall i, j | 0 <= i < j < |pieces| :: Apart(pieces[i], pieces[j])
  }

  predicate InOrder(chunks: seq<Piece>) {
    && (forall i | 0 <= i < |chunks| :: chunks[i].bytes != [])
    && forall i, j | 0 <= i < j < |chunks| :: chunks[i].End() <= chunks[j].start
  }

  lemma {:induction false} ByteAtOne(pieces: seq<Piece>, x: int, i: nat)
    requires Separate(pieces) && i < |pieces| && pieces[i].Has(x)
    ensures ByteAt(pieces, x) == Some(pieces[i].bytes[x - pieces[i].start])
    decreases |pieces|
  {
    if i > 0 {
      assert Apart(pieces[0], pieces[i]);
      ByteAtOne(pieces[1..], x, i - 1);
    }
  }

  lemma {:induction false} ByteAtNone(pieces: seq<Piece>, x: int)
    requires forall i | 0 <= i < |pieces| :: !pieces[i].Has(x)
    ensures ByteAt(pieces, x) == None
    decreases |pieces|
  {
    if pieces != [] {
      ByteAtNone(pieces[1..], x);
    }
  }

  /** The piece that holds a byte, if there is one. */
  lemma {:induction false} ByteAtSome(pieces: seq<Piece>, x: int) returns (i: nat)
    requires ByteAt(pieces, x).Some?
    ensures i < |pieces| && pieces[i].Has(x) && ByteAt(pieces, x).value == pieces[i].bytes[x - pieces[i].start]
    decreases |pieces|
  {
    if pieces[0].Has(x) {
      i := 0;
    } else {
      i := ByteAtSome(pieces[1..], x);
      i := i + 1;
    }
  }

  // ----- one record -----

  predicate Clear(chunks: seq<Piece>, p: Piece) {
    p.bytes != [] && forall i | 0 <= i < |chunks| :: Apart(chunks[i], p)
  }

  /** The byte after the record is there already, the one before it is not. */
  predicate Prepends(pieces: seq<Piece>, p: Piece) {
    ByteAt(pieces, p.End()).Some? && ByteAt(pieces, p.start - 1).None?
  }

  /** What the image is to be once the record is added. */
  function Plus(pieces: seq<Piece>, p: Piece, x: int): Option<byte> {
    if p.Has(x) then Some(p.bytes[x - p.start]) else ByteAt(pieces, x)
  }

  lemma InOrderSeparate(chunks: seq<Piece>)
    requires InOrder(chunks)
    ensures Separate(chunks)
  {
  }

  predicate EndsAt(chunks: seq<Piece>, x: int) { exists i | 0 <= i < |chunks| :: chunks[i].End() == x }

  predicate StartsAt(chunks: seq<Piece>, x: int) { exists i | 0 <= i < |chunks| :: chunks[i].start == x }

  lemma ClearOf(chunks: seq<Piece>, p: Piece, i: nat)
    requires InOrder(chunks) && Clear(chunks, p) && i < |chunks|
    ensures Apart(chunks[i], p) && chunks[i].bytes != [] && p.bytes != []
  {
  }

  lemma ByteBefore(chunks: seq<Piece>, p: Piece)
    requires InOrder(chunks) && Clear(chunks, p)
    ensures ByteAt(chunks, p.start - 1).Some? <==> EndsAt(chunks, p.start)
  {
    hide ByteAt, InOrder, Clear, Separate;
    InOrderSeparate(chunks);
    if ByteAt(chunks, p.start - 1).Some? {
      var i := ByteAtSome(chunks, p.start - 1);
      ClearOf(chunks, p, i);
    }
    if i :| 0 <= i < |chunks| && chunks[i].End() == p.start {
      ClearOf(chunks, p, i);
      ByteAtOne(chunks, p.start - 1, i);
    }
  }

  lemma ByteAfter(chunks: seq<Piece>, p: Piece)
    requires InOrder(chunks) && Clear(chunks, p)
    ensures ByteAt(chunks, p.End()).Some? <==> StartsAt(chunks, p.End())
  {
    hide ByteAt, InOrder, Clear, Separate;
    InOrderSeparate(chunks);
    if ByteAt(chunks, p.End()).Some? {
      var i := ByteAtSome(chunks, p.End());
      ClearOf(chunks, p, i);
    }
    if i :| 0 <= i < |chunks| && chunks[i].start == p.End() {
      ClearOf(chunks, p, i);
      ByteAtOne(chunks, p.End(), i);
    }
  }

  /** For a record clear of the chunks, prepending is a matter of which chunk it touches. */
  lemma PrependsMeans(chunks: seq<Piece>, p: Piece)
    requires InOrder(chunks) && Clear(chunks, p)
    ensures var k := FirstTouching(chunks, p);
            Prepends(chunks, p) <==> k < |chunks| && p.start != chunks[k].End()
  {
    hide ByteAt, Clear;
    ByteBefore(chunks, p);
    ByteAfter(chunks, p);
    var k := FirstTouching(chunks, p);
    if k < |chunks| && p.start != chunks[k].End() {
      assert p.End() == chunks[k].start;
    }
  }

  /** A record that is not prepended goes where it belongs. */
  lemma AddKeeps(chunks: seq<Piece>, p: Piece)
    requires InOrder(chunks) && Clear(chunks, p) && !Prepends(chunks, p)
    ensures InOrder(Add(chunks, p)) && forall x :: ByteAt(Add(chunks, p), x) == Plus(chunks, p, x)
  {
    hide ByteAt, Prepends, InOrder, Clear;
    PrependsMeans(chunks, p);
    var k := FirstTouching(chunks, p);
    if k < |chunks| {
      AppendKeeps(chunks, p, k);
    } else {
      InsertKeeps(chunks, p);
    }
  }

  function Or(a: Option<byte>, b: Option<byte>): Option<byte> { if a.Some? then a else b }

  lemma {:induction false} ByteAtConcat(a: seq<Piece>, b: seq<Piece>, x: int)
    ensures ByteAt(a + b, x) == Or(ByteAt(a, x), ByteAt(b, x))
    decreases |a|
  {
    if a == [] {
      assert a + b == b;
    } else {
      assert (a + b)[1..] == a[1..] + b;
      ByteAtConcat(a[1..], b, x);
    }
  }

  lemma ByteAtSingle(p: Piece, x: int)
    ensures ByteAt([p], x) == if p.Has(x) then Some(p.bytes[x - p.start]) else None
  {
    assert ByteAt([p][1..], x) == None;
  }

  lemma ByteAtMiddle(a: seq<Piece>, p: Piece, b: seq<Piece>, x: int)
    ensures ByteAt(a + [p] + b, x) == Or(ByteAt(a, x), Or(ByteAt([p], x), ByteAt(b, x)))
  {
    ByteAtConcat(a + [p], b, x);
    ByteAtConcat(a, [p], x);
  }

  lemma ByteAtClear(chunks: seq<Piece>, p: Piece, x: int)
    requires Clear(chunks, p) && p.Has(x)
    ensures ByteAt(chunks, x) == None
  {
    forall i | 0 <= i < |chunks|
      ensures !chunks[i].Has(x)
    {
      assert Apart(chunks[i], p);
    }
    ByteAtNone(chunks, x);
  }

  lemma AppendBytes(chunks: seq<Piece>, p: Piece, k: nat, x: int)
    requires Clear(chunks, p) && k < |chunks| && p.start == chunks[k].End()
    ensures ByteAt(chunks[k := Piece(chunks[k].start, chunks[k].bytes + p.bytes)], x) == Plus(chunks, p, x)
  {
    hide ByteAt;
    var c := chunks[k];
    var grown := Piece(c.start, c.bytes + p.bytes);
    assert chunks == chunks[..k] + [c] + chunks[k + 1..];
    assert chunks[k := grown] == chunks[..k] + [grown] + chunks[k + 1..];
    ByteAtMiddle(chunks[..k], c, chunks[k + 1..], x);
    ByteAtMiddle(chunks[..k], grown, chunks[k + 1..], x);
    ByteAtSingle(c, x);
    ByteAtSingle(grown, x);
    if p.Has(x) {
      ByteAtClear(chunks, p, x);
    }
  }

  lemma AppendKeeps(chunks: seq<Piece>, p: Piece, k: nat)
    requires InOrder(chunks) && Clear(chunks, p) && k < |chunks| && p.start == chunks[k].End()
    ensures var now := chunks[k := Piece(chunks[k].start, chunks[k].bytes + p.bytes)];
            InOrder(now) && forall x :: ByteAt(now, x) == Plus(chunks, p, x)
  {
    hide ByteAt, Plus;
    var now := chunks[k := Piece(chunks[k].start, chunks[k].bytes + p.bytes)];
    forall j | k < j < |chunks|
      ensures p.End() <= chunks[j].start
    {
      assert Apart(chunks[j], p) && chunks[k].End() <= chunks[j].start;
    }
    assert now[k].End() == p.End();
    forall x
      ensures ByteAt(now, x) == Plus(chunks, p, x)
    {
      AppendBytes(chunks, p, k, x);
    }
  }

  lemma InsertBytes(chunks: seq<Piece>, p: Piece, k: nat, x: int)
    requires Clear(chunks, p) && k <= |chunks|
    ensures ByteAt(chunks[..k] + [p] + chunks[k..], x) == Plus(chunks, p, x)
  {
    hide ByteAt;
    assert chunks == chunks[..k] + chunks[k..];
    ByteAtConcat(chunks[..k], chunks[k..], x);
    ByteAtMiddle(chunks[..k], p, chunks[k..], x);
    ByteAtSingle(p, x);
    if p.Has(x) {
      ByteAtClear(chunks, p, x);
    }
  }

  lemma InsertKeeps(chunks: seq<Piece>, p: Piece)
    requires InOrder(chunks) && Clear(chunks, p)
    ensures InOrder(Insert(chunks, p)) && forall x :: ByteAt(Insert(chunks, p), x) == Plus(chunks, p, x)
  {
    hide ByteAt, Plus;
    var k := Position(chunks, p.start);
    assert k < |chunks| ==> Apart(chunks[k], p);
    var now := chunks[..k] + [p] + chunks[k..];
    assert Insert(chunks, p) == now;
    InsertInOrder(chunks, p, k);
    forall x
      ensures ByteAt(now, x) == Plus(chunks, p, x)
    {
      InsertBytes(chunks, p, k, x);
    }
  }

  predicate Below(chunks: seq<Piece>, x: int) { forall i | 0 <= i < |chunks| :: chunks[i].End() <= x }

  predicate Above(chunks: seq<Piece>, x: int) { forall i | 0 <= i < |chunks| :: x <= chunks[i].start }

  lemma InOrderConcat(a: seq<Piece>, b: seq<Piece>, x: int)
    requires InOrder(a) && InOrder(b) && Below(a, x) && Above(b, x)
    ensures InOrder(a + b)
  {
  }

  lemma InsertInOrder(chunks: seq<Piece>, p: Piece, k: nat)
    requires InOrder(chunks) && Clear(chunks, p) && k == Position(chunks, p.start)
    ensures InOrder(chunks[..k] + [p] + chunks[k..])
  {
    hide InOrder, Clear, Position, Below, Above;
    var a, b := chunks[..k], chunks[k..];
    PositionSplits(chunks, p, k);
    SlicesInOrder(chunks, k);
    SingleInOrder(p);
    InOrderConcat(a, [p], p.start);
    BelowMore(a, p);
    InOrderConcat(a + [p], b, p.End());
  }

  lemma SlicesInOrder(chunks: seq<Piece>, k: nat)
    requires InOrder(chunks) && k <= |chunks|
    ensures InOrder(chunks[..k]) && InOrder(chunks[k..])
  {
  }

  lemma BelowMore(a: seq<Piece>, p: Piece)
    requires Below(a, p.start)
    ensures Below(a + [p], p.End())
  {
  }

  lemma SingleInOrder(p: Piece)
    ensures p.bytes != [] ==> InOrder([p])
    ensures Above([p], p.start)
  {
  }

  lemma PositionSplits(chunks: seq<Piece>, p: Piece, k: nat)
    requires InOrder(chunks) && Clear(chunks, p) && k == Position(chunks, p.start)
    ensures Below(chunks[..k], p.start) && Above(chunks[k..], p.End()) && p.bytes != []
  {
    forall j | 0 <= j < |chunks|
      ensures if j < k then chunks[j].End() <= p.start else p.End() <= chunks[j].start
    {
      ClearOf(chunks, p, j);
      assert j > k ==> chunks[k].End() <= chunks[j].start;
    }
  }

  /** A record that is prepended is not found at its address. */
  lemma PrependLoses(chunks: seq<Piece>, p: Piece)
    requires InOrder(chunks) && Clear(chunks, p) && Prepends(chunks, p)
    ensures ByteAt(Add(chunks, p), p.start) == None && Plus(chunks, p, p.start).Some?
  {
    hide ByteAt;
    PrependsMeans(chunks, p);
    var k := FirstTouching(chunks, p);
    var now := Add(chunks, p);
    forall i | 0 <= i < |now|
      ensures !now[i].Has(p.start)
    {
      assert Apart(chunks[i], p);
    }
    ByteAtNone(now, p.start);
  }

  /** Adding a record gives the right image if and only if the record is not prepended. */
  lemma AddExact(chunks: seq<Piece>, p: Piece)
    requires InOrder(chunks) && Clear(chunks, p)
    ensures (forall x :: ByteAt(Add(chunks, p), x) == Plus(chunks, p, x)) <==> !Prepends(chunks, p)
  {
    hide ByteAt, Prepends, InOrder, Clear, Plus, Add;
    if Prepends(chunks, p) {
      PrependLoses(chunks, p);
    } else {
      AddKeeps(chunks, p);
    }
  }

  // ----- whole files -----

  /** Both hold the same bytes at the same addresses. */
  ghost predicate Faithful(chunks: seq<Piece>, pieces: seq<Piece>) {
    forall x :: ByteAt(chunks, x) == ByteAt(pieces, x)
  }

  /** No record is put in front of a chunk: none whose next byte came before it, unless the
      previous one did as well. */
  predicate NeverPrepends(pieces: seq<Piece>, n: nat)
    requires n <= |pieces|
  {
    forall i | 0 <= i < n :: !Prepends(pieces[..i], pieces[i])
  }

  lemma {:induction false} AddAllSnoc(chunks: seq<Piece>, pieces: seq<Piece>, p: Piece)
    ensures AddAll(chunks, pieces + [p]) == Add(AddAll(chunks, pieces), p)
    decreases |pieces|
  {
    hide Add;
    if pieces == [] {
      assert ([] + [p])[1..] == [] && [] + [p] == [p];
      NothingAdded(Add(chunks, p));
    } else {
      assert (pieces + [p])[1..] == pieces[1..] + [p];
      AddAllSnoc(Add(chunks, pieces[0]), pieces[1..], p);
    }
  }

  lemma ClearByBytes(chunks: seq<Piece>, pieces: seq<Piece>, p: Piece)
    requires Faithful(chunks, pieces) && InOrder(chunks) && Clear(pieces, p)
    ensures Clear(chunks, p) && Prepends(chunks, p) == Prepends(pieces, p)
    ensures forall x :: Plus(chunks, p, x) == Plus(pieces, p, x)
  {
    hide ByteAt;
    InOrderSeparate(chunks);
    forall i | 0 <= i < |chunks|
      ensures Apart(chunks[i], p)
    {
      if !Apart(chunks[i], p) {
        var x := if chunks[i].start >= p.start then chunks[i].start else p.start;
        ByteAtOne(chunks, x, i);
        ByteAtClear(pieces, p, x);
      }
    }
  }

  lemma PlusIsLast(pieces: seq<Piece>, p: Piece, x: int)
    requires Clear(pieces, p)
    ensures ByteAt(pieces + [p], x) == Plus(pieces, p, x)
  {
    hide ByteAt;
    ByteAtConcat(pieces, [p], x);
    ByteAtSingle(p, x);
    if p.Has(x) {
      ByteAtClear(pieces, p, x);
    }
  }

  lemma PrefixClear(pieces: seq<Piece>, i: nat)
    requires Separate(pieces) && i < |pieces|
    ensures Clear(pieces[..i], pieces[i]) && pieces[..i + 1] == pieces[..i] + [pieces[i]]
  {
  }

  lemma {:induction false} PrefixFaithful(pieces: seq<Piece>, n: nat)
    requires Separate(pieces) && n <= |pieces| && NeverPrepends(pieces, n)
    ensures InOrder(AddAll([], pieces[..n])) && Faithful(AddAll([], pieces[..n]), pieces[..n])
    decreases n
  {
    hide Separate, Prepends, InOrder, Clear, Add, ByteAt, Plus;
    if n == 0 {
      NothingAdded([]);
      assert pieces[..0] == [];
      EmptyInOrder();
    } else {
      var p, before := pieces[n - 1], pieces[..n - 1];
      var chunks := AddAll([], before);
      PrefixFaithful(pieces, n - 1);
      PrefixClear(pieces, n - 1);
      AddAllSnoc([], before, p);
      ClearByBytes(chunks, before, p);
      AddKeeps(chunks, p);
      forall x
        ensures ByteAt(Add(chunks, p), x) == ByteAt(before + [p], x)
      {
        PlusIsLast(before, p, x);
      }
    }
  }

  lemma EmptyInOrder()
    ensures InOrder([])
  {
  }

  // ----- the finished chunks -----

  /** The record is put in front of the first chunk it touches. */
  predicate Heads(chunks: seq<Piece>, p: Piece) {
    var k := FirstTouching(chunks, p);
    k < |chunks| && p.start != chunks[k].End()
  }

  predicate HeadAdded(pieces: seq<Piece>, i: nat)
    requires i < |pieces|
  {
    Heads(AddAll([], pieces[..i]), pieces[i])
  }

  /** As long as no record is put in front of a chunk, none is prepended in terms of bytes either. */
  lemma {:induction false} NoHeadNoPrepend(pieces: seq<Piece>, n: nat)
    requires Separate(pieces) && n <= |pieces| && forall i | 0 <= i < n :: !HeadAdded(pieces, i)
    ensures NeverPrepends(pieces, n)
    decreases n
  {
    hide Separate, Prepends, InOrder, Clear, Add, AddAll, ByteAt, Plus;
    if n > 0 {
      NoHeadNoPrepend(pieces, n - 1);
      PrefixFaithful(pieces, n - 1);
      var p, before := pieces[n - 1], pieces[..n - 1];
      PrefixClear(pieces, n - 1);
      ClearByBytes(AddAll([], before), before, p);
      PrependsMeans(AddAll([], before), p);
      assert !HeadAdded(pieces, n - 1);
    }
  }

  /** No chunk that starts up to x reaches beyond x. */
  predicate Low(chunks: seq<Piece>, x: int) {
    forall i | 0 <= i < |chunks| :: chunks[i].start <= x ==> chunks[i].End() <= x
  }

  lemma AddKeepsLow(chunks: seq<Piece>, r: Piece, x: int)
    requires Low(chunks, x) && r.bytes != []
    requires if Heads(chunks, r) then r.start >= x else r.start <= x ==> r.End() <= x
    ensures Low(Add(chunks, r), x)
  {
    var k := FirstTouching(chunks, r);
    if k == |chunks| {
      InsertKeepsLow(chunks, r, x);
    }
  }

  lemma InsertKeepsLow(chunks: seq<Piece>, r: Piece, x: int)
    requires Low(chunks, x) && (r.start <= x ==> r.End() <= x)
    ensures Low(Insert(chunks, r), x)
  {
    var now := Insert(chunks, r);
    forall i | 0 <= i < |now|
      ensures now[i] == r || now[i] in chunks
    {
    }
  }

  /** Of all records put in front of a chunk, the one with the lowest address. */
  predicate Lowest(pieces: seq<Piece>, m: nat)
    requires m < |pieces|
  {
    HeadAdded(pieces, m) && forall i | 0 <= i < |pieces| && HeadAdded(pieces, i) :: pieces[m].start <= pieces[i].start
  }

  lemma {:induction false} LowestExists(pieces: seq<Piece>, n: nat) returns (m: nat)
    requires n <= |pieces| && exists i | 0 <= i < n :: HeadAdded(pieces, i)
    ensures m < n && HeadAdded(pieces, m)
    ensures forall i | 0 <= i < n && HeadAdded(pieces, i) :: pieces[m].start <= pieces[i].start
    decreases n
  {
    hide HeadAdded;
    if exists i | 0 <= i < n - 1 :: HeadAdded(pieces, i) {
      m := LowestExists(pieces, n - 1);
      if HeadAdded(pieces, n - 1) && pieces[n - 1].start < pieces[m].start {
        m := n - 1;
      }
    } else {
      m := n - 1;
    }
  }

  /** Only a record can fill its own addresses from below, and the lowest record that was put in
      front of a chunk never does: no chunk ever covers its first byte. */
  lemma {:induction false} LowestIsLost(pieces: seq<Piece>, m: nat, n: nat)
    requires Separate(pieces) && m < |pieces| && Lowest(pieces, m) && n <= |pieces|
    ensures Low(AddAll([], pieces[..n]), pieces[m].start)
    decreases n
  {
    hide Add, AddAll, Low, Heads;
    var x := pieces[m].start;
    if n == 0 {
      assert pieces[..0] == [];
      NothingAdded([]);
      NothingLow(x);
    } else {
      var r, before := pieces[n - 1], pieces[..n - 1];
      LowestIsLost(pieces, m, n - 1);
      assert pieces[..n] == before + [r];
      AddAllSnoc([], before, r);
      if n - 1 != m {
        assert Apart(r, pieces[m]) by {
          assert if n - 1 < m then Apart(pieces[n - 1], pieces[m]) else Apart(pieces[m], pieces[n - 1]);
        }
      }
      assert Heads(AddAll([], before), r) == HeadAdded(pieces, n - 1);
      AddKeepsLow(AddAll([], before), r, x);
    }
  }

  lemma NothingLow(x: int)
    ensures Low([], x)
  {
  }

  /** The first byte of the lowest record put in front of a chunk is in no chunk at the end. */
  lemma LostByte(pieces: seq<Piece>) returns (m: nat)
    requires Separate(pieces) && !NeverPrepends(pieces, |pieces|)
    ensures m < |pieces| && ByteAt(AddAll([], pieces), pieces[m].start) == None
    ensures pieces[m].bytes != [] && ByteAt(pieces, pieces[m].start) == Some(pieces[m].bytes[0])
  {
    hide AddAll, ByteAt, NeverPrepends, HeadAdded;
    if forall i | 0 <= i < |pieces| :: !HeadAdded(pieces, i) {
      NoHeadNoPrepend(pieces, |pieces|);
    }
    m := LowestExists(pieces, |pieces|);
    LowestIsLost(pieces, m, |pieces|);
    assert pieces[..|pieces|] == pieces;
    ByteAtNone(AddAll([], pieces), pieces[m].start);
    ByteAtOne(pieces, pieces[m].start, m);
  }

  /** Main result for the reader: with records that do not overlap, the finished chunks hold exactly
      the bytes of the records if and only if no record is prepended. */
  lemma FinishedExact(pieces: seq<Piece>)
    requires Separate(pieces)
    ensures Faithful(AddAll([], pieces), pieces) <==> NeverPrepends(pieces, |pieces|)
  {
    hide Separate, Prepends, AddAll, ByteAt, NeverPrepends, InOrder;
    assert pieces[..|pieces|] == pieces;
    if NeverPrepends(pieces, |pieces|) {
      PrefixFaithful(pieces, |pieces|);
    } else {
      var m := LostByte(pieces);
    }
  }

  /** Records in ascending order are never prepended. */
  lemma AscendingNeverPrepends(pieces: seq<Piece>)
    requires InOrder(pieces)
    ensures Separate(pieces) && NeverPrepends(pieces, |pieces|)
  {
    InOrderSeparate(pieces);
    forall i | 0 <= i < |pieces|
      ensures !Prepends(pieces[..i], pieces[i])
    {
      ByteAtNone(pieces[..i], pieces[i].End());
    }
  }

  /** Two records in descending order: the second is lost and the first moves. */
  lemma PrependCounterexample()
    ensures var pieces := [Piece(1, [7]), Piece(0, [9])];
            && Separate(pieces) && AddAll([], pieces) == [Piece(1, [9, 7])]
            && ByteAt(pieces, 0) == Some(9) && ByteAt(AddAll([], pieces), 0) == None
            && ByteAt(pieces, 1) == Some(7) && ByteAt(AddAll([], pieces), 1) == Some(9)
  {
    var first, second := Piece(1, [7]), Piece(0, [9]);
    assert [first, second][1..] == [second] && [second][1..] == [];
    assert Add([], first) == [first];
    assert second.bytes + first.bytes == [9, 7];
    assert Add([first], second) == [Piece(1, second.bytes + first.bytes)];
    assert AddAll([], [first, second]) == AddAll([first], [second]);
    assert AddAll([first], [second]) == AddAll([Piece(1, [9, 7])], []);
    ByteAtSingle(Piece(1, [9, 7]), 0);
    ByteAtSingle(Piece(1, [9, 7]), 1);
    ByteAtConcat([first], [second], 0);
    assert [first] + [second] == [first, second];
    ByteAtSingle(first, 0);
    ByteAtSingle(second, 0);
  }

  // ----- pages -----

  const PAGE_SIZE := 2048

  const ADDRESSES := 0x1_0000_0000

  type Pages = map<nat, seq<byte>>

  predicate Sized(pages: Pages) { forall q | q in pages :: |pages[q]| == PAGE_SIZE }

  /** Position o of page q after the first n bytes of the chunk are copied. */
  function Written(pages: Pages, c: Piece, n: nat, q: nat, o: nat): byte
    requires Sized(pages) && n <= |c.bytes| && o < PAGE_SIZE
  {
    var x := q * PAGE_SIZE + o;
    if c.start <= x < c.start + n then c.bytes[x - c.start] else if q in pages then pages[q][o] else 0
  }

  /** The pages that the bytes from x to y lie in. */
  predicate Spans(x: nat, y: nat, q: nat) { x / PAGE_SIZE <= q <= y / PAGE_SIZE }

  ghost predicate Copied(pages: Pages, c: Piece, n: nat, now: Pages)
    requires Sized(pages) && n <= |c.bytes|
  {
    && (forall q :: q in now <==> q in pages || Spans(c.start, if n == 0 then c.start else c.start + n - 1, q))
    && forall q, o | q in now && 0 <= o < PAGE_SIZE && |now[q]| == PAGE_SIZE :: now[q][o] == Written(pages, c, n, q, o)
  }

  /** The part is in its page, the rest of the pages as before, a new page is zero elsewhere. */
  ghost predicate Placed(pages: Pages, address: nat, part: seq<byte>, now: Pages)
  {
    var q, b := address / PAGE_SIZE, address % PAGE_SIZE;
    && Sized(pages) && Sized(now) && now.Keys == pages.Keys + {q}
    && (forall r | r in now && r != q :: now[r] == pages[r])
    && forall o | 0 <= o < PAGE_SIZE ::
         now[q][o] == if b <= o < b + |part| then part[o - b] else if q in pages then pages[q][o] else 0
  }

  lemma SamePage(q: nat, o: nat)
    requires o < PAGE_SIZE
    ensures (q * PAGE_SIZE + o) / PAGE_SIZE == q && (q * PAGE_SIZE + o) % PAGE_SIZE == o
  {
  }

  /** The pages spanned grow by the one page of the part. */
  lemma SpanGrows(x: nat, i: nat, amount: nat, q: nat)
    requires (x + i) % PAGE_SIZE + amount <= PAGE_SIZE && (i > 0 ==> (x + i) % PAGE_SIZE == 0 && amount > 0)
    ensures Spans(x, if i + amount == 0 then x else x + i + amount - 1, q) <==>
            (i > 0 && Spans(x, x + i - 1, q)) || q == (x + i) / PAGE_SIZE
  {
    var a := x + i;
    assert a == a / PAGE_SIZE * PAGE_SIZE + a % PAGE_SIZE;
    if amount > 0 {
      assert a + amount - 1 == a / PAGE_SIZE * PAGE_SIZE + (a % PAGE_SIZE + amount - 1);
      SamePage(a / PAGE_SIZE, a % PAGE_SIZE + amount - 1);
    }
    if i > 0 {
      assert a - 1 == (a / PAGE_SIZE - 1) * PAGE_SIZE + (PAGE_SIZE - 1);
      SamePage(a / PAGE_SIZE - 1, PAGE_SIZE - 1);
    }
  }

  lemma PartCopied(pages: Pages, c: Piece, i: nat, amount: nat, was: Pages, now: Pages)
    requires Sized(pages) && i + amount <= |c.bytes| && (c.start + i) % PAGE_SIZE + amount <= PAGE_SIZE
    requires if i == 0 then was == pages else Copied(pages, c, i, was) && (c.start + i) % PAGE_SIZE == 0 && amount > 0
    requires Placed(was, c.start + i, c.bytes[i..i + amount], now)
    ensures Copied(pages, c, i + amount, now)
  {
    hide Spans;
    forall q
      ensures q in now <==>
              q in pages || Spans(c.start, if i + amount == 0 then c.start else c.start + i + amount - 1, q)
    {
      SpanGrows(c.start, i, amount, q);
    }
    forall q, o | q in now && 0 <= o < PAGE_SIZE
      ensures now[q][o] == Written(pages, c, i + amount, q, o)
    {
      PartWritten(pages, c, i, amount, was, now, q, o);
    }
  }

  lemma PartWritten(pages: Pages, c: Piece, i: nat, amount: nat, was: Pages, now: Pages, q: nat, o: nat)
    requires Sized(pages) && i + amount <= |c.bytes| && (c.start + i) % PAGE_SIZE + amount <= PAGE_SIZE
    requires if i == 0 then was == pages else Copied(pages, c, i, was)
    requires Placed(was, c.start + i, c.bytes[i..i + amount], now) && q in now && o < PAGE_SIZE
    requires q !in was ==> q !in pages && (i > 0 ==> !Spans(c.start, c.start + i - 1, q))
    ensures now[q][o] == Written(pages, c, i + amount, q, o)
  {
    var a, x := c.start + i, q * PAGE_SIZE + o;
    assert a == a / PAGE_SIZE * PAGE_SIZE + a % PAGE_SIZE;
    if q != a / PAGE_SIZE {
      OtherPage(a, amount, q, o);
    }
  }

  lemma OtherPage(a: nat, amount: nat, q: nat, o: nat)
    requires a % PAGE_SIZE + amount <= PAGE_SIZE && q != a / PAGE_SIZE && o < PAGE_SIZE
    ensures !(a <= q * PAGE_SIZE + o < a + amount)
  {
  }

  /** One round of the copying loop: the part of the chunk that fits the page. */
  method CopyPart(pages: Pages, address: nat, part: seq<byte>) returns (now: Pages)
    requires Sized(pages) && address % PAGE_SIZE + |part| <= PAGE_SIZE
    ensures Placed(pages, address, part, now)
  {
    var pageIndex, byteIndex := address / PAGE_SIZE, address % PAGE_SIZE;
    now := pages;
    if pageIndex !in now {
      now := now[pageIndex := seq(PAGE_SIZE, _ => 0 as byte)];
    }
    var page := now[pageIndex];
    now := now[pageIndex := page[..byteIndex] + part + page[byteIndex + |part|..]];
  }

  /** All addresses of the chunk have thirty-two bits. */
  predicate Fits(c: Piece) { c.start < ADDRESSES && c.End() <= ADDRESSES }

  /** Copy a chunk page by page. The page of its address is touched in any case. */
  method CopyChunk(pages: Pages, c: Piece) returns (now: Pages)
    requires Sized(pages)
    ensures Sized(now)
    ensures Fits(c) ==> Copied(pages, c, |c.bytes|, now)
  {
    hide Copied;
    now := pages;
    var i, more := 0, true;
    while more
      invariant 0 <= i <= |c.bytes| && Sized(now) && (if more then i == 0 || i < |c.bytes| else i == |c.bytes|)
      invariant Fits(c) && more && i > 0 ==> (c.start + i) % PAGE_SIZE == 0
      invariant Fits(c) ==> if more && i == 0 then now == pages else Copied(pages, c, i, now)
      decreases |c.bytes| - i, more
    {
      var address := (c.start + i) % ADDRESSES;
      var room := PAGE_SIZE - address % PAGE_SIZE;
      var amount := if room <= |c.bytes| - i then room else |c.bytes| - i;
      ghost var was := now;
      now := CopyPart(now, address, c.bytes[i..i + amount]);
      if Fits(c) {
        PartCopied(pages, c, i, amount, was, now);
      }
      i := i + amount;
      more := i < |c.bytes|;
    }
  }

  /** Position o of page q is byte q * 2048 + o. */
  function InPage(pieces: seq<Piece>, q: nat, o: nat): Option<byte> { ByteAt(pieces, q * PAGE_SIZE + o) }

  ghost predicate Occupied(pieces: seq<Piece>, q: nat) { exists o: nat :: o < PAGE_SIZE && InPage(pieces, q, o).Some? }

  /** The pages are the image: every page has 2048 bytes, byte x is at x % 2048 of page x / 2048,
      all other positions are 0, and there is no page without a byte. */
  ghost predicate PagesOf(pages: Pages, pieces: seq<Piece>)
  {
    && Sized(pages)
    && (forall q :: q in pages <==> Occupied(pieces, q))
    && forall q, o: nat | q in pages && o < PAGE_SIZE ::
         pages[q][o] == var b := InPage(pieces, q, o); if b.Some? then b.value else 0
  }

  /** Positions that no chunk covers are 0. */
  ghost predicate Zeroed(pages: Pages, chunks: seq<Piece>) {
    && Sized(pages)
    && forall q, o: nat | q in pages && o < PAGE_SIZE && InPage(chunks, q, o).None? :: pages[q][o] == 0
  }

  method ExtractPages(chunks: seq<Piece>) returns (pages: Pages)
    ensures (forall i | 0 <= i < |chunks| :: Fits(chunks[i])) ==> Zeroed(pages, chunks)
    ensures InOrder(chunks) && (forall i | 0 <= i < |chunks| :: Fits(chunks[i])) ==> PagesOf(pages, chunks)
  {
    hide PagesOf, InOrder, Copied, Fits, Zeroed;
    pages := map[];
    var i := 0;
    ghost var fit := forall i | 0 <= i < |chunks| :: Fits(chunks[i]);
    assert chunks[..0] == [];
    NoPages();
    while i < |chunks|
      invariant 0 <= i <= |chunks| && Sized(pages)
      invariant fit ==> Zeroed(pages, chunks[..i])
      invariant fit && InOrder(chunks) ==> PagesOf(pages, chunks[..i])
    {
      ghost var was := pages;
      pages := CopyChunk(pages, chunks[i]);
      if fit {
        assert chunks[..i + 1] == chunks[..i] + [chunks[i]];
        ChunkZeroed(was, chunks[..i], chunks[i], pages);
        if InOrder(chunks) {
          InOrderPrefix(chunks, i);
          ChunkPages(was, chunks[..i], chunks[i], pages);
        }
      }
      i := i + 1;
    }
    assert chunks[..i] == chunks;
  }

  lemma NoPages()
    ensures PagesOf(map[], []) && Zeroed(map[], [])
  {
  }

  lemma ChunkZeroed(was: Pages, before: seq<Piece>, c: Piece, now: Pages)
    requires Zeroed(was, before) && Sized(now) && Copied(was, c, |c.bytes|, now)
    ensures Zeroed(now, before + [c])
  {
    hide ByteAt, Spans;
    forall q, o: nat | q in now && o < PAGE_SIZE && InPage(before + [c], q, o).None?
      ensures now[q][o] == 0
    {
      ByteAtConcat(before, [c], q * PAGE_SIZE + o);
      ByteAtSingle(c, q * PAGE_SIZE + o);
      assert now[q][o] == Written(was, c, |c.bytes|, q, o);
      assert InPage(before, q, o).None?;
    }
  }

  lemma InOrderPrefix(chunks: seq<Piece>, i: nat)
    requires InOrder(chunks) && i < |chunks|
    ensures Clear(chunks[..i], chunks[i]) && chunks[..i + 1] == chunks[..i] + [chunks[i]]
  {
  }

  lemma ChunkPages(was: Pages, before: seq<Piece>, c: Piece, now: Pages)
    requires PagesOf(was, before) && Clear(before, c) && Sized(now) && Copied(was, c, |c.bytes|, now)
    ensures PagesOf(now, before + [c])
  {
    hide ByteAt, Spans, InPage, Occupied;
    forall q
      ensures q in now <==> Occupied(before + [c], q)
    {
      OccupiedMore(before, c, q);
    }
    forall q, o: nat | q in now && o < PAGE_SIZE
      ensures now[q][o] == var b := InPage(before + [c], q, o); if b.Some? then b.value else 0
    {
      InPageMore(before, c, q, o);
      assert now[q][o] == Written(was, c, |c.bytes|, q, o);
      if q !in was {
        NotOccupied(before, q, o);
      }
    }
  }

  lemma NotOccupied(pieces: seq<Piece>, q: nat, o: nat)
    requires !Occupied(pieces, q) && o < PAGE_SIZE
    ensures InPage(pieces, q, o).None?
  {
  }

  lemma InPageMore(before: seq<Piece>, c: Piece, q: nat, o: nat)
    requires Clear(before, c)
    ensures InPage(before + [c], q, o) ==
            var x := q * PAGE_SIZE + o; if c.Has(x) then Some(c.bytes[x - c.start]) else InPage(before, q, o)
  {
    PlusIsLast(before, c, q * PAGE_SIZE + o);
  }

  lemma OccupiedMore(before: seq<Piece>, c: Piece, q: nat)
    requires Clear(before, c)
    ensures Occupied(before + [c], q) <==> Occupied(before, q) || Spans(c.start, c.End() - 1, q)
  {
    hide ByteAt, InPage;
    if o: nat :| o < PAGE_SIZE && InPage(before + [c], q, o).Some? {
      InPageMore(before, c, q, o);
      SamePage(q, o);
    }
    if o: nat :| o < PAGE_SIZE && InPage(before, q, o).Some? {
      InPageMore(before, c, q, o);
    }
    if Spans(c.start, c.End() - 1, q) {
      var o := if c.start / PAGE_SIZE == q then c.start % PAGE_SIZE else 0;
      InPageMore(before, c, q, o);
      assert c.Has(q * PAGE_SIZE + o);
    }
  }

  function Size(pieces: seq<Piece>): nat {
    if pieces == [] then 0 else Size(pieces[..|pieces| - 1]) + |pieces[|pieces| - 1].bytes|
  }

  /** Even if all bytes of the file were put behind one of its addresses, they would fit. */
  predicate Roomy(pieces: seq<Piece>) { forall i | 0 <= i < |pieces| :: pieces[i].start + Size(pieces) < ADDRESSES }

  /** Chunks start where records start and hold no more than all records together. */
  predicate FromRecords(chunks: seq<Piece>, pieces: seq<Piece>, size: nat) {
    forall i | 0 <= i < |chunks| ::
      |chunks[i].bytes| <= size && exists j | 0 <= j < |pieces| :: pieces[j].start == chunks[i].start
  }

  lemma AddFromRecords(chunks: seq<Piece>, pieces: seq<Piece>, size: nat, p: Piece)
    requires FromRecords(chunks, pieces, size) && p in pieces
    ensures FromRecords(Add(chunks, p), pieces, size + |p.bytes|)
  {
    var now := Add(chunks, p);
    var j :| 0 <= j < |pieces| && pieces[j] == p;
    forall i | 0 <= i < |now|
      ensures |now[i].bytes| <= size + |p.bytes|
      ensures now[i] == p || exists c | c in chunks :: c.start == now[i].start
    {
    }
  }

  lemma {:induction false} ChunksFromRecords(pieces: seq<Piece>, n: nat)
    requires n <= |pieces|
    ensures FromRecords(AddAll([], pieces[..n]), pieces, Size(pieces[..n]))
    decreases n
  {
    hide Add, AddAll;
    if n == 0 {
      assert pieces[..0] == [];
      NothingAdded([]);
    } else {
      ChunksFromRecords(pieces, n - 1);
      assert pieces[..n] == pieces[..n - 1] + [pieces[n - 1]] && pieces[..n][..n - 1] == pieces[..n - 1];
      AddAllSnoc([], pieces[..n - 1], pieces[n - 1]);
      AddFromRecords(AddAll([], pieces[..n - 1]), pieces, Size(pieces[..n - 1]), pieces[n - 1]);
    }
  }

  lemma RoomyFits(pieces: seq<Piece>)
    requires Roomy(pieces)
    ensures forall i | 0 <= i < |AddAll([], pieces)| :: Fits(AddAll([], pieces)[i])
  {
    hide AddAll;
    ChunksFromRecords(pieces, |pieces|);
    assert pieces[..|pieces|] == pieces;
  }

  /** A lost byte shows in the pages unless it is 0. */
  lemma LostByteShows(pages: Pages, pieces: seq<Piece>)
    requires Separate(pieces) && !NeverPrepends(pieces, |pieces|) && Zeroed(pages, AddAll([], pieces))
    requires forall i | 0 <= i < |pieces| :: pieces[i].bytes != [] ==> pieces[i].bytes[0] != 0
    ensures !PagesOf(pages, pieces)
  {
    hide AddAll, ByteAt, NeverPrepends, Separate;
    var m := LostByte(pieces);
    var x := pieces[m].start;
    var q, o := x / PAGE_SIZE, x % PAGE_SIZE;
    assert q * PAGE_SIZE + o == x;
    assert InPage(pieces, q, o) == Some(pieces[m].bytes[0]) && InPage(AddAll([], pieces), q, o).None?;
    assert Occupied(pieces, q);
  }

  /** Main result: from records that do not overlap, the pages are the image of the records if no
      record is prepended, in particular if they ascend; and only then, as long as no record starts
      with a 0, which a blank page could stand in for. Errors are those of the records. */
  method ExtractPagesFromHex(records: seq<Record>) returns (r: HexResult<Pages>)
    ensures Pictures(r, Addressed(records, 0))
  {
    hide Addressed, Pictures;
    var chunks := ReadHexFile(records);
    r := ExtractAll(chunks, Addressed(records, 0));
  }

  /** The result for a file that says these pieces. */
  ghost predicate Pictures(r: HexResult<Pages>, said: HexResult<seq<Piece>>)
  {
    if said.Err? then r == Err(said.error)
    else
      var pieces := said.value;
      && r.Ok?
      && (Separate(pieces) && NeverPrepends(pieces, |pieces|) && (forall i | 0 <= i < |pieces| :: Fits(pieces[i])) ==>
            PagesOf(r.value, pieces))
      && (&& Separate(pieces) && Roomy(pieces)
          && (forall i | 0 <= i < |pieces| :: pieces[i].bytes != [] ==> pieces[i].bytes[0] != 0) ==>
            (PagesOf(r.value, pieces) <==> NeverPrepends(pieces, |pieces|)))
  }

  method ExtractAll(chunks: HexResult<seq<Piece>>, ghost said: HexResult<seq<Piece>>) returns (r: HexResult<Pages>)
    requires chunks == Finished([], said)
    ensures Pictures(r, said)
  {
    hide Separate, InOrder, Fits, PagesOf, AddAll, NeverPrepends, Zeroed, Roomy;
    if chunks.Err? {
      return Err(chunks.error);
    }
    var pages := ExtractPages(chunks.value);
    r := Ok(pages);
    ghost var pieces := said.value;
    assert pieces[..|pieces|] == pieces;
    ghost var fit := Roomy(pieces) || forall i | 0 <= i < |pieces| :: Fits(pieces[i]);
    if Separate(pieces) && NeverPrepends(pieces, |pieces|) && fit {
      if Roomy(pieces) {
        RoomyPieces(pieces);
      }
      PrefixFaithful(pieces, |pieces|);
      FaithfulFits(chunks.value, pieces);
      SamePages(pages, chunks.value, pieces);
    }
    if && Separate(pieces) && !NeverPrepends(pieces, |pieces|) && Roomy(pieces)
       && forall i | 0 <= i < |pieces| :: pieces[i].bytes != [] ==> pieces[i].bytes[0] != 0 {
      RoomyFits(pieces);
      LostByteShows(pages, pieces);
    }
  }

  lemma RoomyPieces(pieces: seq<Piece>)
    requires Roomy(pieces)
    ensures forall i | 0 <= i < |pieces| :: Fits(pieces[i])
  {
    forall i | 0 <= i < |pieces|
      ensures |pieces[i].bytes| <= Size(pieces)
    {
      SizeBound(pieces, i);
    }
  }

  lemma {:induction false} SizeBound(pieces: seq<Piece>, i: nat)
    requires i < |pieces|
    ensures |pieces[i].bytes| <= Size(pieces)
    decreases |pieces|
  {
    if i < |pieces| - 1 {
      SizeBound(pieces[..|pieces| - 1], i);
    }
  }

  const OneBlankPage: Pages := map[0 := seq(PAGE_SIZE, _ => 0 as byte)]

  /** One blank page is the image of zero bytes inside it. */
  lemma BlankPage(pieces: seq<Piece>, y: nat)
    requires forall x | ByteAt(pieces, x).Some? :: ByteAt(pieces, x).value == 0 && 0 <= x < PAGE_SIZE
    requires ByteAt(pieces, y).Some?
    ensures PagesOf(OneBlankPage, pieces)
  {
    hide ByteAt;
    assert InPage(pieces, 0, y).Some? && Occupied(pieces, 0);
    forall q: nat | Occupied(pieces, q)
      ensures q == 0
    {
      var o: nat :| o < PAGE_SIZE && InPage(pieces, q, o).Some?;
      assert ByteAt(pieces, q * PAGE_SIZE + o).Some?;
    }
  }

  /** Two zero bytes in descending order: the reader moves them, and the pages it makes are right all
      the same. */
  lemma ZeroBytesCounterexample()
    ensures var pieces := [Piece(1, [0]), Piece(0, [0])];
            && Separate(pieces) && !NeverPrepends(pieces, 2)
            && PagesOf(OneBlankPage, pieces) && PagesOf(OneBlankPage, AddAll([], pieces))
  {
    var first, second := Piece(1, [0]), Piece(0, [0]);
    var pieces, moved := [first] + [second], [Piece(1, [0, 0])];
    TwoAdded(first, second);
    assert pieces == [first, second] && second.bytes + first.bytes == [0, 0];
    hide PagesOf, AddAll;
    forall x
      ensures ByteAt(pieces, x) == if 0 <= x < 2 then Some(0) else None
      ensures ByteAt(moved, x) == if 1 <= x < 3 then Some(0) else None
    {
      ByteAtConcat([first], [second], x);
      ByteAtSingle(first, x);
      ByteAtSingle(second, x);
      ByteAtSingle(moved[0], x);
    }
    BlankPage(pieces, 0);
    BlankPage(moved, 1);
    ByteAtSingle(first, 1);
    ByteAtSingle(first, -1);
    assert pieces[..1] == [first] && Prepends(pieces[..1], pieces[1]);
  }

  lemma TwoAdded(first: Piece, second: Piece)
    requires first.bytes != [] && second.bytes != [] && second.End() == first.start && second.start != first.End()
    ensures AddAll([], [first] + [second]) == [Piece(first.start, second.bytes + first.bytes)]
  {
    assert ([first] + [second])[1..] == [second] && [second][1..] == [];
    assert Add([], first) == [first];
    assert Add([first], second) == [Piece(first.start, second.bytes + first.bytes)];
    assert AddAll([], [first] + [second]) == AddAll([first], [second]);
    NothingAdded([Piece(first.start, second.bytes + first.bytes)]);
  }

  lemma SamePages(pages: Pages, a: seq<Piece>, b: seq<Piece>)
    requires PagesOf(pages, a) && Faithful(a, b)
    ensures PagesOf(pages, b)
  {
    hide ByteAt;
    assert forall q, o :: InPage(a, q, o) == InPage(b, q, o);
    assert forall q :: Occupied(a, q) == Occupied(b, q);
  }

  lemma FaithfulFits(chunks: seq<Piece>, pieces: seq<Piece>)
    requires InOrder(chunks) && Faithful(chunks, pieces) && forall i | 0 <= i < |pieces| :: Fits(pieces[i])
    ensures forall i | 0 <= i < |chunks| :: Fits(chunks[i])
  {
    hide ByteAt;
    InOrderSeparate(chunks);
    forall i | 0 <= i < |chunks|
      ensures Fits(chunks[i])
    {
      var x := chunks[i].End() - 1;
      ByteAtOne(chunks, x, i);
      var j := ByteAtSome(pieces, x);
    }
  }
}
