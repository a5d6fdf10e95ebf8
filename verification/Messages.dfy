/** Messages as bytes: the serialization buffer, bytecode upload and native function descriptions. */
module Messages {
  import opened Words
  import opened Utf8

  // ----- values as bytes, least significant byte first -----

  /** What is read, and the bytes after it. */
  datatype Read<+T> = Got(value: T, rest: seq<byte>) | Failed

  function PutWord(w: word): seq<byte> { [w % 256, w / 256] }

  function GetByte(s: seq<byte>): Read<byte> { if |s| < 1 then Failed else Got(s[0], s[1..]) }

  function GetWord(s: seq<byte>): Read<word> {
    if |s| < 2 then Failed else Got(s[0] as int + 256 * (s[1] as int), s[2..])
  }

  /** A string of at most 255 bytes behind its length. None is a serialization error. */
  function PutString(s: seq<byte>): Option<seq<byte>> { if |s| > 255 then None else Some([|s|] + s) }

  function GetString(s: seq<byte>): Read<seq<byte>>
  {
    if s == [] then Failed else
    var n: int := s[0];
    if |s| < 1 + n then Failed else Got(s[1..1 + n], s[1 + n..])
  }

  lemma WordBack(w: word, rest: seq<byte>)
    ensures GetWord(PutWord(w) + rest) == Got(w, rest)
  {
    assert (PutWord(w) + rest)[2..] == rest;
  }

  lemma StringBack(s: seq<byte>, rest: seq<byte>)
    requires |s| <= 255
    ensures GetString(PutString(s).value + rest) == Got(s, rest)
  {
    var all := PutString(s).value + rest;
    assert all[0] == |s| && all[1..1 + |s|] == s && all[1 + |s|..] == rest;
  }

  class SerializationBuffer {
    var rawData: seq<byte>
    var readPos: nat

    ghost predicate Valid()
      reads this
    {
      readPos <= |rawData|
    }

    /** What is still to be read. */
    ghost function Rest(): seq<byte>
      reads this
      requires Valid()
    {
      rawData[readPos..]
    }

    constructor (bytes: seq<byte>)
      ensures Valid() && Rest() == rawData == bytes
    {
      rawData, readPos := bytes, 0;
    }

    method AddByte(b: byte)
      modifies this`rawData
      ensures rawData == old(rawData) + [b]
    {
      rawData := rawData + [b];
    }

    method AddWord(w: word)
      modifies this`rawData
      ensures rawData == old(rawData) + PutWord(w)
    {
      rawData := rawData + [w % 256] + [w / 256];
    }

    /** False where the original throws. */
    method AddString(s: seq<byte>) returns (ok: bool)
      modifies this`rawData
      ensures ok <==> PutString(s).Some?
      ensures rawData == if ok then old(rawData) + PutString(s).value else old(rawData)
    {
      if |s| > 255 {
        return false;
      }
      AddByte(|s|);
      var i := 0;
      while i < |s|
        invariant 0 <= i <= |s|
        invariant rawData == old(rawData) + [|s|] + s[..i]
      {
        AddByte(s[i]);
        i := i + 1;
      }
      assert s[..i] == s && old(rawData) + [|s|] + s == old(rawData) + ([|s|] + s);
      ok := true;
    }

    method TakeByte() returns (r: Option<byte>)
      requires Valid()
      modifies this`readPos
      ensures Valid()
      ensures match GetByte(old(Rest())) case Got(v, rest) => r == Some(v) && Rest() == rest case Failed => r == None
    {
      if readPos + 1 > |rawData| {
        return None;
      }
      r := Some(rawData[readPos]);
      readPos := readPos + 1;
    }

    method TakeWord() returns (r: Option<word>)
      requires Valid()
      modifies this`readPos
      ensures Valid()
      ensures match GetWord(old(Rest())) case Got(v, rest) => r == Some(v) && Rest() == rest case Failed => r == None
    {
      if readPos + 2 > |rawData| {
        return None;
      }
      var v: int := rawData[readPos] as int + 256 * (rawData[readPos + 1] as int);
      readPos := readPos + 2;
      r := Some(v);
    }

    method TakeString() returns (r: Option<seq<byte>>)
      requires Valid()
      modifies this`readPos
      ensures Valid()
      ensures match GetString(old(Rest())) case Got(v, rest) => r == Some(v) && Rest() == rest case Failed => r == None
    {
      ghost var all := Rest();
      var len := TakeByte();
      if len.None? {
        return None;
      }
      var s: seq<byte> := [];
      while |s| < len.value
        invariant Valid() && |s| <= len.value && 1 + |s| <= |all|
        invariant s == all[1..1 + |s|] && Rest() == all[1 + |s|..]
        decreases len.value - |s|
      {
        var b := TakeByte();
        if b.None? {
          return None;
        }
        s := s + [b.value];
      }
      r := Some(s);
    }

    method AddSetBytecode(m: SetBytecode)
      modifies this`rawData
      ensures rawData == old(rawData) + PutSetBytecode(m)
    {
      AddWord(m.dest);
      AddWord(m.start);
      ghost var before := rawData;
      var i := 0;
      assert m.bytecode[0..] == m.bytecode;
      while i < |m.bytecode|
        invariant 0 <= i <= |m.bytecode|
        invariant rawData + PutWords(m.bytecode[i..]) == before + PutWords(m.bytecode)
      {
        assert m.bytecode[i..][1..] == m.bytecode[i + 1..];
        Associative(rawData, PutWord(m.bytecode[i]), PutWords(m.bytecode[i + 1..]));
        AddWord(m.bytecode[i]);
        i := i + 1;
      }
      assert rawData + [] == rawData;
    }

    method TakeSetBytecode() returns (r: Option<SetBytecode>)
      requires Valid()
      modifies this`readPos
      ensures Valid() && r == CreateSetBytecode(old(Rest()))
    {
      ghost var all := Rest();
      var dest := TakeWord();
      if dest.None? {
        return None;
      }
      var start := TakeWord();
      if start.None? {
        return None;
      }
      ghost var body := Rest();
      var n := (|rawData| - readPos) / 2;
      var bytecode: seq<word> := [];
      AfterNothing(GetWords(body));
      while |bytecode| < n
        invariant Valid() && |bytecode| <= n && |Rest()| / 2 == n - |bytecode|
        invariant GetWords(body) == After(bytecode, GetWords(Rest()))
        decreases n - |bytecode|
      {
        AfterWord(bytecode, Rest());
        var w := TakeWord();
        bytecode := bytecode + [w.value];
      }
      if readPos != |rawData| {
        return None;
      }
      assert GetWords([]).value == [] && bytecode + [] == bytecode;
      r := Some(SetBytecode(dest.value, start.value, bytecode));
    }

    /** False where the original throws. */
    method AddFunction(f: NativeFunction) returns (ok: bool)
      modifies this`rawData
      ensures ok <==> PutFunction(f).Some?
      ensures ok ==> rawData == old(rawData) + PutFunction(f).value
    {
      hide Encode, PutString, PutParameters, PutWord;
      ghost var before := rawData;
      var name := WStringToUTF8(f.name);
      ok := AddString(name);
      if !ok {
        return;
      }
      var description := WStringToUTF8(f.description);
      ok := AddString(description);
      if !ok {
        return;
      }
      ghost var n := PutWord(|f.parameters| % 65536);
      AddWord(|f.parameters| % 65536);
      ok := AddParameters(f.parameters);
      if ok {
        ghost var a, b := PutString(name).value, PutString(description).value;
        FourParts(before, a, b, n, PutParameters(f.parameters).value);
      }
    }

    method AddParameters(ps: seq<Parameter>) returns (ok: bool)
      modifies this`rawData
      ensures ok <==> PutParameters(ps).Some?
      ensures ok ==> rawData == old(rawData) + PutParameters(ps).value
    {
      hide Encode, PutString, PutWord;
      var i := 0;
      assert ps[0..] == ps;
      while i < |ps|
        invariant 0 <= i <= |ps|
        invariant PutParameters(ps).Some? <==> PutParameters(ps[i..]).Some?
        invariant PutParameters(ps).Some? ==>
                  rawData + PutParameters(ps[i..]).value == old(rawData) + PutParameters(ps).value
      {
        assert ps[i..][0] == ps[i] && ps[i..][1..] == ps[i + 1..];
        ghost var before, rest := rawData, PutParameters(ps[i + 1..]);
        var name := WStringToUTF8(ps[i].name);
        AddWord(ps[i].size % 65536);
        ok := AddString(name);
        if !ok {
          return;
        }
        assert rawData == before + PutParameter(ps[i]).value;
        if rest.Some? {
          Associative(before, PutParameter(ps[i]).value, rest.value);
        }
        i := i + 1;
      }
      assert rawData + [] == rawData;
      ok := true;
    }

    method TakeText() returns (r: Option<Wide>)
      requires Valid()
      modifies this`readPos
      ensures Valid()
      ensures match GetText(old(Rest())) case Got(v, rest) => r == Some(v) && Rest() == rest case Failed => r == None
    {
      var t := TakeString();
      if t.None? {
        return None;
      }
      var d := UTF8ToWString(t.value);
      r := if d.Ok? then Some(d.text) else None;
    }

    method TakeParameters(n: nat) returns (r: Option<seq<Parameter>>)
      requires Valid()
      modifies this`readPos
      ensures Valid()
      ensures match GetParameters(old(Rest()), n)
              case Got(v, rest) => r == Some(v) && Rest() == rest
              case Failed => r == None
    {
      hide GetText, GetWord;
      ghost var all := Rest();
      var ps: seq<Parameter> := [];
      AfterNothing(GetParameters(all, n));
      while |ps| < n
        invariant Valid() && |ps| <= n
        invariant GetParameters(all, n) == After(ps, GetParameters(Rest(), n - |ps|))
        decreases n - |ps|
      {
        ghost var s := Rest();
        var size := TakeWord();
        if size.None? {
          return None;
        }
        var name := TakeText();
        if name.None? {
          return None;
        }
        var p := Parameter(Wrap16(size.value), name.value);
        assert GetParameter(s) == Got(p, Rest());
        AfterOne(ps, p, GetParameters(Rest(), n - |ps| - 1));
        ps := ps + [p];
      }
      assert ps + [] == ps;
      r := Some(ps);
    }

    /** None where the original gives no message. */
    method TakeFunction() returns (r: Option<NativeFunction>)
      requires Valid()
      modifies this`readPos
      ensures Valid() && r == CreateFunction(old(Rest()))
    {
      hide GetText, GetParameters, GetWord;
      var name := TakeText();
      if name.None? {
        return None;
      }
      var description := TakeText();
      if description.None? {
        return None;
      }
      var n := TakeWord();
      if n.None? {
        return None;
      }
      var ps := TakeParameters(n.value);
      if ps.None? || readPos != |rawData| {
        return None;
      }
      r := Some(NativeFunction(name.value, description.value, ps.value));
    }
  }

  lemma FourParts(s: seq<byte>, a: seq<byte>, b: seq<byte>, c: seq<byte>, d: seq<byte>)
    ensures s + a + b + c + d == s + (a + (b + (c + d)))
  {
    Associative(s + a + b, c, d);
    Associative(s + a, b, c + d);
    Associative(s, a, b + (c + d));
  }

  /** What was read before, and then the rest. */
  ghost function After<T>(done: seq<T>, r: Read<seq<T>>): Read<seq<T>> {
    if r.Got? then Got(done + r.value, r.rest) else Failed
  }

  lemma AfterNothing<T>(r: Read<seq<T>>)
    ensures After([], r) == r
  {
    if r.Got? {
      assert [] + r.value == r.value;
    }
  }

  lemma AfterOne<T>(done: seq<T>, t: T, r: Read<seq<T>>)
    ensures After(done + [t], r) == After(done, After([t], r))
  {
    if r.Got? {
      assert (done + [t]) + r.value == done + ([t] + r.value);
    }
  }

  lemma AfterWord(done: seq<word>, s: seq<byte>)
    requires |s| >= 2
    ensures After(done, GetWords(s)) == After(done + [GetWord(s).value], GetWords(GetWord(s).rest))
  {
    AfterOne(done, GetWord(s).value, GetWords(s[2..]));
  }

  // ----- setting bytecode -----

  datatype SetBytecode = SetBytecode(dest: word, start: word, bytecode: seq<word>)

  function PutWords(ws: seq<word>): (r: seq<byte>)
    ensures |r| == 2 * |ws|
  {
    if ws == [] then [] else PutWord(ws[0]) + PutWords(ws[1..])
  }

  /** As many words as there are, and perhaps a byte left over. */
  function GetWords(s: seq<byte>): (r: Read<seq<word>>)
    ensures r.Got? && |r.rest| == |s| % 2
  {
    if |s| < 2 then Got([], s) else
    var more := GetWords(s[2..]);
    Got([s[0] as int + 256 * (s[1] as int)] + more.value, more.rest)
  }

  function PutSetBytecode(m: SetBytecode): seq<byte> { PutWord(m.dest) + PutWord(m.start) + PutWords(m.bytecode) }

  /** Creating a message fails on an overread and on bytes left over. */
  function CreateSetBytecode(s: seq<byte>): Option<SetBytecode>
  {
    var d := GetWord(s);
    if d.Failed? then None else
    var a := GetWord(d.rest);
    if a.Failed? then None else
    var ws := GetWords(a.rest);
    if ws.rest != [] then None else Some(SetBytecode(d.value, a.value, ws.value))
  }

  lemma {:induction false} WordsBack(ws: seq<word>)
    ensures GetWords(PutWords(ws)) == Got(ws, [])
    decreases |ws|
  {
    if ws != [] {
      var s := PutWords(ws);
      assert s[2..] == PutWords(ws[1..]);
      WordsBack(ws[1..]);
      WordBack(ws[0], PutWords(ws[1..]));
      assert [ws[0]] + ws[1..] == ws;
    }
  }

  lemma {:induction false} BytesBack(s: seq<byte>)
    requires |s| % 2 == 0
    ensures PutWords(GetWords(s).value) == s
    decreases |s|
  {
    if s != [] {
      BytesBack(s[2..]);
      var ws := GetWords(s).value;
      assert ws[1..] == GetWords(s[2..]).value;
      assert PutWord(ws[0]) == s[..2];
    }
  }

  /** A message survives serialization. */
  lemma SetBytecodeBack(m: SetBytecode)
    ensures CreateSetBytecode(PutSetBytecode(m)) == Some(m)
  {
    var tail := PutWords(m.bytecode);
    assert PutSetBytecode(m) == PutWord(m.dest) + (PutWord(m.start) + tail);
    WordBack(m.dest, PutWord(m.start) + tail);
    WordBack(m.start, tail);
    WordsBack(m.bytecode);
  }

  /** And whatever bytes make a message are the bytes of that message. They do exactly when they
      are at least four, and an even number. */
  lemma SetBytecodeForth(s: seq<byte>)
    ensures CreateSetBytecode(s).Some? <==> |s| >= 4 && |s| % 2 == 0
    ensures CreateSetBytecode(s).Some? ==> PutSetBytecode(CreateSetBytecode(s).value) == s
  {
    if |s| >= 4 {
      var body := s[2..][2..];
      assert body == s[4..];
      if |s| % 2 == 0 {
        BytesBack(body);
        assert s == s[..2] + s[2..4] + s[4..];
        var m := CreateSetBytecode(s).value;
        assert PutWord(m.dest) == s[..2] && PutWord(m.start) == s[2..4];
      }
    }
  }

  /** The number in two bytes, the low byte first. */
  function Number(s: seq<byte>, at: nat): int
    requires at + 2 <= |s|
  {
    s[at] as int + 256 * (s[at + 1] as int)
  }

  lemma {:induction false} WordsAt(ws: seq<word>, i: nat)
    requires i < |ws|
    ensures Number(PutWords(ws), 2 * i) == ws[i]
    decreases i
  {
    if i > 0 {
      WordsAt(ws[1..], i - 1);
    }
  }

  /** Where the fields of a message are: destination, start, then the words of the code. */
  lemma SetBytecodeBytes(m: SetBytecode)
    ensures var s := PutSetBytecode(m);
            && |s| == 4 + 2 * |m.bytecode| && Number(s, 0) == m.dest && Number(s, 2) == m.start
            && forall i | 0 <= i < |m.bytecode| :: Number(s, 4 + 2 * i) == m.bytecode[i]
  {
    forall i | 0 <= i < |m.bytecode|
      ensures Number(PutSetBytecode(m), 4 + 2 * i) == m.bytecode[i]
    {
      WordsAt(m.bytecode, i);
    }
  }

  // ----- uploading bytecode -----

  const PAYLOAD := 256

  /** The messages for the code from `start` on. */
  function Pieces(dest: word, code: seq<word>, start: nat): (ms: seq<SetBytecode>)
    requires start <= |code|
    ensures ms != []
    decreases |code| - start
  {
    if |code| - start <= PAYLOAD then [SetBytecode(dest, start % 65536, code[start..])]
    else [SetBytecode(dest, start % 65536, code[start..start + PAYLOAD])] + Pieces(dest, code, start + PAYLOAD)
  }

  method SendBytecode(dest: word, bytecode: seq<word>) returns (messages: seq<SetBytecode>)
    ensures messages == Pieces(dest, bytecode, 0)
  {
    messages := [];
    var start, count := 0, |bytecode|;
    while count > PAYLOAD
      invariant start + count == |bytecode| && 0 <= count && 0 <= start
      invariant Pieces(dest, bytecode, 0) == messages + Pieces(dest, bytecode, start)
    {
      var m := SetBytecode(dest, start % 65536, bytecode[start..start + PAYLOAD]);
      assert messages + ([m] + Pieces(dest, bytecode, start + PAYLOAD)) ==
          (messages + [m]) + Pieces(dest, bytecode, start + PAYLOAD);
      messages := messages + [m];
      start, count := start + PAYLOAD, count - PAYLOAD;
    }
    messages := messages + [SetBytecode(dest, start % 65536, bytecode[start..])];
  }

  function Concatenated(ms: seq<SetBytecode>): seq<word> {
    if ms == [] then [] else ms[0].bytecode + Concatenated(ms[1..])
  }

  /** Pieces of at most 256 words that put together are the code, all full except the last. */
  lemma {:induction false} PiecesConcatenate(dest: word, code: seq<word>, start: nat)
    requires start <= |code|
    ensures Concatenated(Pieces(dest, code, start)) == code[start..]
    ensures forall i | 0 <= i < |Pieces(dest, code, start)| :: |Pieces(dest, code, start)[i].bytecode| <= PAYLOAD
    decreases |code| - start
  {
    if |code| - start > PAYLOAD {
      PiecesConcatenate(dest, code, start + PAYLOAD);
      var rest := Pieces(dest, code, start + PAYLOAD);
      assert Pieces(dest, code, start)[1..] == rest;
      assert code[start..start + PAYLOAD] + code[start + PAYLOAD..] == code[start..];
    } else {
      var ms := Pieces(dest, code, start);
      assert ms[1..] == [];
      assert Concatenated(ms) == ms[0].bytecode + Concatenated(ms[1..]);
    }
  }

  /** Piece i starts 256 * i words on, and holds the code from there. */
  lemma {:induction false} PieceAt(dest: word, code: seq<word>, start: nat, i: nat)
    requires start <= |code| && i < |Pieces(dest, code, start)|
    ensures var m, a := Pieces(dest, code, start)[i], start + PAYLOAD * i;
            && m.dest == dest && a <= |code| && m.start == a % 65536
            && a + |m.bytecode| <= |code| && m.bytecode == code[a..a + |m.bytecode|]
            && |m.bytecode| == (if |code| - a <= PAYLOAD then |code| - a else PAYLOAD)
    ensures |code| - start > PAYLOAD * (|Pieces(dest, code, start)| - 1) || |code| == start
    decreases |code| - start
  {
    if |code| - start > PAYLOAD {
      if i > 0 {
        PieceAt(dest, code, start + PAYLOAD, i - 1);
      } else {
        PieceAt(dest, code, start + PAYLOAD, 0);
      }
    }
  }

  // ----- the code memory of the node -----

  function Write(mem: seq<word>, m: SetBytecode): (r: seq<word>)
    requires m.start + |m.bytecode| <= |mem|
    ensures |r| == |mem|
  {
    mem[..m.start] + m.bytecode + mem[m.start + |m.bytecode|..]
  }

  predicate Fit(ms: seq<SetBytecode>, mem: seq<word>) {
    forall i | 0 <= i < |ms| :: ms[i].start + |ms[i].bytecode| <= |mem|
  }

  /** The memory after messages arrive, each one first turned into bytes and back. */
  function Upload(mem: seq<word>, ms: seq<SetBytecode>): (r: seq<word>)
    requires Fit(ms, mem)
    ensures |r| == |mem|
    decreases |ms|
  {
    if ms == [] then mem
    else
      var m := CreateSetBytecode(PutSetBytecode(ms[0]));
      SetBytecodeBack(ms[0]);
      Upload(Write(mem, m.value), ms[1..])
  }

  /** The message agrees with the code where it writes. */
  predicate PartOf(m: SetBytecode, code: seq<word>) {
    m.start + |m.bytecode| <= |code| && m.bytecode == code[m.start..m.start + |m.bytecode|]
  }

  lemma WriteAt(mem: seq<word>, m: SetBytecode, k: nat)
    requires m.start + |m.bytecode| <= |mem| && k < |mem|
    ensures Write(mem, m)[k] == if m.start <= k < m.start + |m.bytecode| then m.bytecode[k - m.start] else mem[k]
  {
  }

  predicate Covered(ms: seq<SetBytecode>, k: nat) {
    exists i | 0 <= i < |ms| :: ms[i].start <= k < ms[i].start + |ms[i].bytecode|
  }

  lemma {:induction false} UploadAt(mem: seq<word>, ms: seq<SetBytecode>, code: seq<word>, k: nat)
    requires Fit(ms, mem) && k < |mem| && forall i | 0 <= i < |ms| :: PartOf(ms[i], code)
    ensures k >= |code| ==> Upload(mem, ms)[k] == mem[k]
    ensures k < |code| && (mem[k] == code[k] || Covered(ms, k)) ==> Upload(mem, ms)[k] == code[k]
    decreases |ms|
  {
    if ms != [] {
      SetBytecodeBack(ms[0]);
      var next := Write(mem, ms[0]);
      WriteAt(mem, ms[0], k);
      assert PartOf(ms[0], code);
      assert forall i | 0 <= i < |ms| - 1 :: ms[1..][i] == ms[i + 1];
      UploadAt(next, ms[1..], code, k);
      if i :| 0 <= i < |ms| && ms[i].start <= k < ms[i].start + |ms[i].bytecode| {
        if i > 0 {
          assert ms[1..][i - 1] == ms[i];
        }
      }
    }
  }

  /** For code that fits sixteen-bit addresses, the pieces in any order and with any repetitions
      put the code at the start of the memory and leave the rest of it alone. */
  lemma UploadInstalls(dest: word, code: seq<word>, mem: seq<word>, arrivals: seq<SetBytecode>)
    requires |code| <= 65536 && |code| <= |mem|
    requires forall m :: m in arrivals <==> m in Pieces(dest, code, 0)
    ensures Fit(arrivals, mem) && Upload(mem, arrivals) == code + mem[|code|..]
  {
    var ms := Pieces(dest, code, 0);
    forall i | 0 <= i < |arrivals|
      ensures PartOf(arrivals[i], code)
    {
      assert arrivals[i] in arrivals;
      var j :| 0 <= j < |ms| && ms[j] == arrivals[i];
      PieceStarts(dest, code, j);
    }
    var r := Upload(mem, arrivals);
    forall k | 0 <= k < |mem|
      ensures r[k] == (code + mem[|code|..])[k]
    {
      if k < |code| {
        var j := PieceOf(dest, code, k);
        assert ms[j] in ms;
        var i :| 0 <= i < |arrivals| && arrivals[i] == ms[j];
      }
      UploadAt(mem, arrivals, code, k);
    }
  }

  lemma PieceStarts(dest: word, code: seq<word>, j: nat)
    requires |code| <= 65536 && j < |Pieces(dest, code, 0)|
    ensures Pieces(dest, code, 0)[j].start == PAYLOAD * j && PartOf(Pieces(dest, code, 0)[j], code)
  {
    PieceAt(dest, code, 0, j);
    LastStart(|code|, j, |Pieces(dest, code, 0)|);
  }

  lemma LastStart(n: nat, j: nat, count: nat)
    requires n <= 65536 && j < count && (n > PAYLOAD * (count - 1) || n == 0) && PAYLOAD * j <= n
    ensures PAYLOAD * j < 65536
  {
  }

  lemma PieceOf(dest: word, code: seq<word>, k: nat) returns (j: nat)
    requires |code| <= 65536 && k < |code|
    ensures j < |Pieces(dest, code, 0)|
    ensures var m := Pieces(dest, code, 0)[j]; m.start <= k < m.start + |m.bytecode|
  {
    j := k / PAYLOAD;
    PieceCount(dest, code, 0);
    PieceAt(dest, code, 0, j);
    PieceStarts(dest, code, j);
  }

  lemma {:induction false} PieceCount(dest: word, code: seq<word>, start: nat)
    requires start <= |code|
    ensures |code| - start <= PAYLOAD * |Pieces(dest, code, start)|
    decreases |code| - start
  {
    if |code| - start > PAYLOAD {
      PieceCount(dest, code, start + PAYLOAD);
    }
  }

  /** Beyond sixteen-bit addresses the start of a piece wraps around. */
  lemma StartWraps(dest: word, code: seq<word>)
    requires |code| > 65536
    ensures |Pieces(dest, code, 0)| > 256 && Pieces(dest, code, 0)[256].start == 0
    ensures Pieces(dest, code, 0)[256].bytecode <= code[65536..]
  {
    PieceCount(dest, code, 0);
    PieceAt(dest, code, 0, 256);
  }

  /** The pieces start where they belong if and only if the code fits sixteen-bit addresses. */
  lemma StartsExact(dest: word, code: seq<word>)
    ensures (forall i | 0 <= i < |Pieces(dest, code, 0)| :: Pieces(dest, code, 0)[i].start == PAYLOAD * i)
            <==> |code| <= 65536
  {
    if |code| <= 65536 {
      forall i | 0 <= i < |Pieces(dest, code, 0)|
        ensures Pieces(dest, code, 0)[i].start == PAYLOAD * i
      {
        PieceStarts(dest, code, i);
      }
    } else {
      StartWraps(dest, code);
    }
  }

  // ----- native function descriptions -----

  datatype Parameter = Parameter(size: int16, name: Wide)

  datatype NativeFunction = NativeFunction(name: Wide, description: Wide, parameters: seq<Parameter>)

  function Concat(a: Option<seq<byte>>, b: Option<seq<byte>>): Option<seq<byte>> {
    if a.None? || b.None? then None else Some(a.value + b.value)
  }

  function PutParameter(p: Parameter): Option<seq<byte>> {
    Concat(Some(PutWord(p.size % 65536)), PutString(Encode(p.name)))
  }

  function PutParameters(ps: seq<Parameter>): Option<seq<byte>> {
    if ps == [] then Some([]) else Concat(PutParameter(ps[0]), PutParameters(ps[1..]))
  }

  /** The number of parameters is cut to sixteen bits. */
  function PutFunction(f: NativeFunction): Option<seq<byte>>
  {
    Concat(PutString(Encode(f.name)),
      Concat(PutString(Encode(f.description)),
        Concat(Some(PutWord(|f.parameters| % 65536)), PutParameters(f.parameters))))
  }

  predicate Short(t: Wide) { |Encode(t)| < 256 }

  /** The text stands at a position, behind its length. */
  predicate TextAt(s: seq<byte>, at: nat, t: Wide) {
    at + 1 + |Encode(t)| <= |s| && s[at] == |Encode(t)| && s[at + 1..at + 1 + |Encode(t)|] == Encode(t)
  }

  /** The parameters from a position on to the end: size, then name. */
  predicate ParametersAt(s: seq<byte>, at: nat, ps: seq<Parameter>)
    decreases |ps|
  {
    if ps == [] then at == |s|
    else
      && at + 2 <= |s| && Number(s, at) == ps[0].size % 65536 && TextAt(s, at + 2, ps[0].name)
      && ParametersAt(s, at + 3 + |Encode(ps[0].name)|, ps[1..])
  }

  lemma {:induction false} ParametersShort(ps: seq<Parameter>)
    ensures PutParameters(ps).Some? <==> forall p | p in ps :: Short(p.name)
  {
    hide Encode;
    if ps != [] {
      ParametersShort(ps[1..]);
      assert ps[0] in ps && forall p :: p in ps <==> p == ps[0] || p in ps[1..];
    }
  }

  lemma TextPlaced(before: seq<byte>, t: Wide, rest: seq<byte>)
    requires Short(t)
    ensures TextAt(before + ([|Encode(t)|] + Encode(t)) + rest, |before|, t)
  {
    hide Encode;
    var s, at := before + ([|Encode(t)|] + Encode(t)) + rest, |before| + 1;
    assert s[at..at + |Encode(t)|] == Encode(t);
  }

  lemma ParameterPlaced(before: seq<byte>, p: Parameter, rest: seq<byte>)
    requires PutParameter(p).Some?
    ensures var s, at := before + PutParameter(p).value + rest, |before|;
            && |PutParameter(p).value| == 3 + |Encode(p.name)| && Number(s, at) == p.size % 65536
            && TextAt(s, at + 2, p.name)
  {
    hide Encode, TextAt;
    var size, text := PutWord(p.size % 65536), [|Encode(p.name)|] + Encode(p.name);
    TextPlaced(before + size, p.name, rest);
    assert PutParameter(p).value == size + text;
    assert before + (size + text) + rest == before + size + text + rest;
    assert (before + size)[|before|] == size[0] && (before + size)[|before| + 1] == size[1];
  }

  lemma {:induction false} ParametersPlaced(before: seq<byte>, ps: seq<Parameter>)
    requires PutParameters(ps).Some?
    ensures ParametersAt(before + PutParameters(ps).value, |before|, ps)
    decreases |ps|
  {
    hide Encode, PutParameter, TextAt, Number;
    if ps != [] {
      var one, rest := PutParameter(ps[0]).value, PutParameters(ps[1..]).value;
      ParameterPlaced(before, ps[0], rest);
      ParametersPlaced(before + one, ps[1..]);
      assert before + one + rest == before + (one + rest);
    }
  }

  /** A description can be serialized if and only if none of its texts takes more than 255 bytes. */
  lemma FunctionAcceptedExact(f: NativeFunction)
    ensures PutFunction(f).Some? <==>
            Short(f.name) && Short(f.description) && forall p | p in f.parameters :: Short(p.name)
  {
    hide Encode;
    ParametersShort(f.parameters);
  }

  /** Its fields stand in this order: name, description, number of parameters, parameters. */
  lemma FunctionBytes(f: NativeFunction)
    requires PutFunction(f).Some?
    ensures var s, m, n := PutFunction(f).value, |Encode(f.name)|, |Encode(f.description)|;
            && TextAt(s, 0, f.name) && TextAt(s, 1 + m, f.description)
            && |s| >= 4 + m + n && Number(s, 2 + m + n) == |f.parameters| % 65536
            && ParametersAt(s, 4 + m + n, f.parameters)
  {
    hide Encode, PutParameters, ParametersAt, TextAt, PutWord;
    var name, description := [|Encode(f.name)|] + Encode(f.name), [|Encode(f.description)|] + Encode(f.description);
    var count, ps := PutWord(|f.parameters| % 65536), PutParameters(f.parameters).value;
    var s := PutFunction(f).value;
    assert s == [] + name + (description + (count + ps));
    assert s == name + description + (count + ps);
    assert s == name + description + count + ps;
    TextPlaced([], f.name, description + (count + ps));
    TextPlaced(name, f.description, count + ps);
    ParametersPlaced(name + description + count, f.parameters);
    CountPlaced(name + description, |f.parameters| % 65536, ps);
  }

  lemma CountPlaced(before: seq<byte>, n: word, rest: seq<byte>)
    ensures |PutWord(n)| == 2 && Number(before + PutWord(n) + rest, |before|) == n
  {
    var s := before + PutWord(n) + rest;
    assert s[|before|] == PutWord(n)[0] && s[|before| + 1] == PutWord(n)[1];
  }

  function GetText(s: seq<byte>): Read<Wide>
  {
    var t := GetString(s);
    if t.Failed? then Failed else
    var d := Decode(t.value, |t.value|);
    if d.Ok? then Got(d.text, t.rest) else Failed
  }

  function GetParameter(s: seq<byte>): Read<Parameter>
  {
    var w := GetWord(s);
    if w.Failed? then Failed else
    var t := GetText(w.rest);
    if t.Failed? then Failed else Got(Parameter(Wrap16(w.value), t.value), t.rest)
  }

  function GetParameters(s: seq<byte>, n: nat): Read<seq<Parameter>>
  {
    if n == 0 then Got([], s) else
    var p := GetParameter(s);
    if p.Failed? then Failed else
    var more := GetParameters(p.rest, n - 1);
    if more.Failed? then Failed else Got([p.value] + more.value, more.rest)
  }

  function GetFunction(s: seq<byte>): Read<NativeFunction>
  {
    var name := GetText(s);
    if name.Failed? then Failed else
    var desc := GetText(name.rest);
    if desc.Failed? then Failed else
    var n := GetWord(desc.rest);
    if n.Failed? then Failed else
    var ps := GetParameters(n.rest, n.value);
    if ps.Failed? then Failed else Got(NativeFunction(name.value, desc.value, ps.value), ps.rest)
  }

  /** Creating the message also demands that all bytes are read. */
  function CreateFunction(s: seq<byte>): Option<NativeFunction>
  {
    var f := GetFunction(s);
    if f.Failed? || f.rest != [] then None else Some(f.value)
  }

  /** The function as the other side sees it. */
  function ShownFunction(f: NativeFunction): NativeFunction {
    NativeFunction(Shown(f.name), Shown(f.description), ShownParameters(f.parameters))
  }

  function ShownParameters(ps: seq<Parameter>): (r: seq<Parameter>)
    ensures |r| == |ps| && forall i | 0 <= i < |ps| :: r[i] == Parameter(ps[i].size, Shown(ps[i].name))
  {
    if ps == [] then [] else [Parameter(ps[0].size, Shown(ps[0].name))] + ShownParameters(ps[1..])
  }

  lemma TextBack(t: Wide, rest: seq<byte>)
    requires |Encode(t)| <= 255
    ensures GetText(PutString(Encode(t)).value + rest) == Got(Shown(t), rest)
  {
    StringBack(Encode(t), rest);
    DecodeEncode(t, |Encode(t)|);
  }

  lemma ParameterBack(p: Parameter, rest: seq<byte>)
    requires PutParameter(p).Some?
    ensures GetParameter(PutParameter(p).value + rest) == Got(Parameter(p.size, Shown(p.name)), rest)
  {
    hide Encode, PutWord, GetWord, GetText;
    var text := PutString(Encode(p.name)).value;
    assert PutParameter(p).value + rest == PutWord(p.size % 65536) + (text + rest);
    WordBack(p.size % 65536, text + rest);
    TextBack(p.name, rest);
  }

  lemma {:induction false} ParametersBack(ps: seq<Parameter>, rest: seq<byte>)
    requires PutParameters(ps).Some?
    ensures GetParameters(PutParameters(ps).value + rest, |ps|) == Got(ShownParameters(ps), rest)
    decreases |ps|
  {
    hide PutParameter, GetParameter, Shown;
    if ps == [] {
      assert [] + rest == rest;
    } else {
      var tail := PutParameters(ps[1..]).value;
      assert PutParameters(ps).value + rest == PutParameter(ps[0]).value + (tail + rest);
      ParameterBack(ps[0], tail + rest);
      ParametersBack(ps[1..], rest);
    }
  }

  lemma FunctionRead(f: NativeFunction, rest: seq<byte>)
    requires PutFunction(f).Some? && |f.parameters| < 65536
    ensures GetFunction(PutFunction(f).value + rest) == Got(ShownFunction(f), rest)
  {
    hide Encode, GetText, PutParameters, GetParameters, PutWord, GetWord, Shown, ShownParameters, PutString;
    var n := PutWord(|f.parameters|);
    var name, desc, ps := PutString(Encode(f.name)).value, PutString(Encode(f.description)).value,
        PutParameters(f.parameters).value;
    assert PutFunction(f).value + rest == name + (desc + (n + (ps + rest)));
    TextLimit(f.name);
    TextLimit(f.description);
    TextBack(f.name, desc + (n + (ps + rest)));
    TextBack(f.description, n + (ps + rest));
    WordBack(|f.parameters|, ps + rest);
    ParametersBack(f.parameters, rest);
  }

  /** Whatever can be serialized comes back, with all bytes consumed, and characters outside the
      encoder's range shown as question marks. With more bytes behind it there is no message. */
  lemma FunctionBack(f: NativeFunction, rest: seq<byte>)
    requires PutFunction(f).Some? && |f.parameters| < 65536
    ensures CreateFunction(PutFunction(f).value + rest) == if rest == [] then Some(ShownFunction(f)) else None
  {
    hide PutFunction, GetFunction, ShownFunction;
    FunctionRead(f, rest);
  }

  lemma TextLimit(t: Wide)
    requires PutString(Encode(t)).Some?
    ensures |Encode(t)| <= 255
  {
  }

  predicate Plain(t: Wide) { forall i | 0 <= i < |t| :: t[i] < 0xD800 }

  predicate PlainFunction(f: NativeFunction) {
    Plain(f.name) && Plain(f.description) && forall i | 0 <= i < |f.parameters| :: Plain(f.parameters[i].name)
  }

  lemma PlainShown(t: Wide)
    ensures Shown(t) == t <==> Plain(t)
  {
  }

  /** A description within the limits of its fields comes back as it was if and only if all its
      characters are below 0xD800. */
  lemma FunctionRoundTripExact(f: NativeFunction)
    requires PutFunction(f).Some? && |f.parameters| < 65536
    ensures CreateFunction(PutFunction(f).value) == Some(f) <==> PlainFunction(f)
  {
    hide PutFunction, CreateFunction, Plain, Shown;
    FunctionBack(f, []);
    assert PutFunction(f).value + [] == PutFunction(f).value;
    PlainShown(f.name);
    PlainShown(f.description);
    var back := ShownParameters(f.parameters);
    forall i | 0 <= i < |f.parameters|
      ensures back[i] == f.parameters[i] <==> Plain(f.parameters[i].name)
    {
      PlainShown(f.parameters[i].name);
    }
    assert back == f.parameters <==> forall i | 0 <= i < |f.parameters| :: back[i] == f.parameters[i];
  }
}
