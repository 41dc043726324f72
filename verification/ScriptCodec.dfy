/** The script byte codec of lib/bitcore/script.ts: `fromBuffer`, `toBuffer` and `add`. */
module ScriptCodec {
  import opened Buffers

  const OP_0 := 0
  const OP_PUSHDATA1 := 76
  const OP_PUSHDATA2 := 77
  const OP_PUSHDATA4 := 78

  /** One element of `Script.chunks`. A chunk without `buf` is a bare opcode. */
  datatype Chunk =
    | Opcode(opcodenum: int)
    | Data(opcodenum: int, len: nat, buf: Buffer)

  // ----- Reading -----

  /** Bytes between the opcode and the data. */
  function LengthField(opcodenum: int): nat {
    if opcodenum == OP_PUSHDATA1 then 1
    else if opcodenum == OP_PUSHDATA2 then 2
    else if opcodenum == OP_PUSHDATA4 then 4
    else 0
  }

  /** The first chunk of b and the number of bytes the reader moves on by, which may lie past the
      end: `br.read` cuts short, and only a missing length field throws. */
  function ReadChunk(b: Buffer): Option<(Chunk, nat)>
    requires b != []
  {
    var op := b[0];
    if 0 < op <= OP_PUSHDATA4 then
      var k := LengthField(op);
      if |b| < 1 + k then None else
      var len := if k == 0 then op else FromLE(b[1..1 + k]);
      Some((Data(op, len, Slice(b, 1 + k, len)), 1 + k + len))
    else
      Some((Opcode(op), 1))
  }

  /** What is left of b after n bytes. */
  function Rest(b: Buffer, n: nat): Buffer {
    if n >= |b| then [] else b[n..]
  }

  /** The chunk list `Script.fromBuffer` returns; None is its InvalidBuffer error. */
  function Parse(b: Buffer): Option<seq<Chunk>>
    decreases |b|
  {
    if b == [] then Some([]) else
    match ReadChunk(b)
    case None => None
    case Some((c, used)) =>
      match Parse(Rest(b, used))
      case None => None
      case Some(cs) => Some([c] + cs)
  }

  // ----- Writing -----

  /** The bytes `toBuffer` writes for one chunk; None when a fixed-width write is out of range. */
  function EncodeChunk(c: Chunk): Option<Buffer> {
    if !(0 <= c.opcodenum < 256) then None
    else match c
      case Opcode(op) => Some([op])
      case Data(op, len, buf) =>
        var k := LengthField(op);
        if k == 0 then Some([op] + buf)
        else if len >= Pow256(k) then None
        else Some([op] + LE(len, k) + buf)
  }

  function Encode(cs: seq<Chunk>): Option<Buffer> {
    if cs == [] then Some([]) else
    match (EncodeChunk(cs[0]), Encode(cs[1..]))
    case (Some(b), Some(rest)) => Some(b + rest)
    case _ => None
  }

  lemma EncodeNil()
    ensures Encode([]) == Some([])
  {
  }

  lemma EncodeFirst(c: Chunk, cs: seq<Chunk>)
    ensures Encode([c] + cs) ==
      if EncodeChunk(c).Some? && Encode(cs).Some? then Some(EncodeChunk(c).value + Encode(cs).value) else None
  {
    assert ([c] + cs)[1..] == cs;
  }

  lemma EncodeCons(c: Chunk, cs: seq<Chunk>)
    requires EncodeChunk(c).Some? && Encode(cs).Some?
    ensures Encode([c] + cs) == Some(EncodeChunk(c).value + Encode(cs).value)
  {
    assert ([c] + cs)[1..] == cs;
  }

  // ----- The shapes the reader produces -----

  /** The opcode and length of a push agree with its length field. */
  predicate PushHeader(c: Chunk) {
    c.Data? &&
    if c.opcodenum < OP_PUSHDATA1 then 1 <= c.opcodenum == c.len
    else c.opcodenum <= OP_PUSHDATA4 && c.len < Pow256(LengthField(c.opcodenum))
  }

  /** A complete chunk: a non-push opcode, or a push holding as many bytes as it announces. */
  predicate Complete(c: Chunk) {
    match c
    case Opcode(op) => op == OP_0 || OP_PUSHDATA4 < op < 256
    case Data(_, len, buf) => PushHeader(c) && |buf| == len
  }

  /** A push that the end of the buffer cut short. */
  predicate CutShort(c: Chunk) {
    PushHeader(c) && |c.buf| < c.len
  }

  predicate AllComplete(cs: seq<Chunk>) {
    forall i :: 0 <= i < |cs| ==> Complete(cs[i])
  }

  /** Complete chunks only, except that the last one may be cut short. */
  predicate ReaderShaped(cs: seq<Chunk>) {
    && (forall i :: 0 <= i < |cs| - 1 ==> Complete(cs[i]))
    && (cs != [] ==> Complete(cs[|cs| - 1]) || CutShort(cs[|cs| - 1]))
  }

  /** A push opcode whose length field the buffer does not hold in full. */
  predicate CutHeader(b: Buffer) {
    b != [] && OP_PUSHDATA1 <= b[0] <= OP_PUSHDATA4 && |b| < 1 + LengthField(b[0])
  }

  lemma Pow256Values()
    ensures Pow256(1) == 0x100 && Pow256(2) == 0x1_0000 && Pow256(4) == 0x1_0000_0000
  {
  }

  // ----- Reading then writing -----

  /** A buffer is the bytes of its first chunk followed by the rest; the chunk is complete, or
      cut short with nothing after it. */
  lemma EncodeReadChunk(b: Buffer, c: Chunk, used: nat)
    requires b != [] && ReadChunk(b) == Some((c, used))
    ensures EncodeChunk(c).Some? && b == EncodeChunk(c).value + Rest(b, used)
    ensures Complete(c) || (CutShort(c) && Rest(b, used) == [])
  {
    if c.Data? {
      var k := LengthField(b[0]);
      SplitPush(b, k, c.len);
      if k > 0 {
        FromLEInverse(b[1..1 + k]);
      }
    }
  }

  lemma SplitPush(b: Buffer, k: nat, len: nat)
    requires 1 + k <= |b|
    ensures b == [b[0]] + b[1..1 + k] + Slice(b, 1 + k, len) + Rest(b, 1 + k + len)
    ensures k == 0 ==> b == [b[0]] + Slice(b, 1, len) + Rest(b, 1 + len)
  {
    assert b == [b[0]] + b[1..1 + k] + b[1 + k..];
  }

  lemma JoinPush(op: byte, header: Buffer, buf: Buffer, tail: Buffer, len: nat)
    requires |buf| == len || (|buf| < len && tail == [])
    ensures var b := [op] + header + buf + tail; var k := |header|;
      && b[0] == op && b[1..1 + k] == header
      && Slice(b, 1 + k, len) == buf && Rest(b, 1 + k + len) == tail
  {
    var b := [op] + header + buf + tail;
    assert b[1 + |header|..] == buf + tail;
  }

  /** Whatever `fromBuffer` accepts, complete or cut short, `toBuffer` writes back byte for byte. */
  lemma {:induction false} ParseThenEncode(b: Buffer)
    requires Parse(b).Some?
    ensures Encode(Parse(b).value) == Some(b)
    decreases |b|
  {
    if b != [] {
      var (c, used) := ReadChunk(b).value;
      var rest := Rest(b, used);
      ParseThenEncode(rest);
      EncodeReadChunk(b, c, used);
      EncodeCons(c, Parse(rest).value);
    }
  }

  lemma {:induction false} ParseShape(b: Buffer)
    requires Parse(b).Some?
    ensures ReaderShaped(Parse(b).value)
    decreases |b|
  {
    if b != [] {
      var (c, used) := ReadChunk(b).value;
      EncodeReadChunk(b, c, used);
      ParseShape(Rest(b, used));
      assert Rest(b, used) != [] ==> Complete(c);
    }
  }

  // ----- Writing then reading -----

  /** A complete chunk is read back from the front of any buffer; a cut one only from the end. */
  lemma ReadEncodedChunk(c: Chunk, tail: Buffer)
    requires Complete(c) || (CutShort(c) && tail == [])
    ensures EncodeChunk(c).Some?
    ensures var b := EncodeChunk(c).value + tail;
      b != [] && ReadChunk(b).Some? && ReadChunk(b).value.0 == c && Rest(b, ReadChunk(b).value.1) == tail
    ensures Parse(EncodeChunk(c).value + tail) ==
      match Parse(tail) case None => None case Some(cs) => Some([c] + cs)
  {
    if c.Data? {
      var k := LengthField(c.opcodenum);
      if k == 0 {
        JoinPush(c.opcodenum, [], c.buf, tail, c.len);
        assert [c.opcodenum] + [] + c.buf + tail == EncodeChunk(c).value + tail;
      } else {
        LEInverse(c.len, k);
        JoinPush(c.opcodenum, LE(c.len, k), c.buf, tail, c.len);
      }
    }
  }

  lemma {:induction false} EncodeThenParse(cs: seq<Chunk>)
    requires ReaderShaped(cs)
    ensures Encode(cs).Some? && Parse(Encode(cs).value) == Some(cs)
  {
    if cs != [] {
      var rest := cs[1..];
      EncodeThenParse(rest);
      ReadEncodedChunk(cs[0], Encode(rest).value);
      EncodeCons(cs[0], rest);
      assert cs == [cs[0]] + rest;
    }
  }

  /** After complete chunks the reader goes on with whatever follows. */
  lemma {:induction false} ParseAfterComplete(cs: seq<Chunk>, tail: Buffer)
    requires AllComplete(cs)
    ensures Encode(cs).Some?
    ensures Parse(Encode(cs).value + tail) == match Parse(tail) case None => None case Some(ts) => Some(cs + ts)
  {
    if cs == [] {
      EncodeNil();
      assert [] + tail == tail;
      assert Parse(tail).Some? ==> [] + Parse(tail).value == Parse(tail).value;
    } else {
      hide Encode, Parse, Complete;
      var rest := cs[1..];
      ParseAfterComplete(rest, tail);
      ReadEncodedChunk(cs[0], Encode(rest).value + tail);
      EncodeFirst(cs[0], rest);
      assert cs == [cs[0]] + rest;
      ConcatAssoc(EncodeChunk(cs[0]).value, Encode(rest).value, tail);
      if Parse(tail).Some? {
        ConcatAssoc([cs[0]], rest, Parse(tail).value);
      }
    }
  }

  /** `fromBuffer(toBuffer(cs))` gives the chunk list back exactly when every chunk is complete,
      except that the last one may be a push cut short by the end of the script. */
  lemma RoundTripIff(cs: seq<Chunk>)
    ensures (Encode(cs).Some? && Parse(Encode(cs).value) == Some(cs)) <==> ReaderShaped(cs)
  {
    if Encode(cs).Some? && Parse(Encode(cs).value) == Some(cs) {
      ParseShape(Encode(cs).value);
    }
    if ReaderShaped(cs) {
      EncodeThenParse(cs);
    }
  }

  // ----- When the reader throws -----

  /** b is a run of complete chunks followed by a push opcode whose length field is cut off. */
  ghost predicate EndsInCutHeader(b: Buffer) {
    exists cs: seq<Chunk>, tail: Buffer :: SplitsAt(b, cs, tail)
  }

  ghost predicate SplitsAt(b: Buffer, cs: seq<Chunk>, tail: Buffer) {
    AllComplete(cs) && Encode(cs).Some? && b == Encode(cs).value + tail && CutHeader(tail)
  }

  lemma {:induction false} ThrowsOnlyAtCutHeader(b: Buffer) returns (cs: seq<Chunk>, tail: Buffer)
    requires Parse(b).None?
    ensures SplitsAt(b, cs, tail)
    decreases |b|
  {
    if ReadChunk(b).None? {
      cs, tail := [], b;
    } else {
      var (c, used) := ReadChunk(b).value;
      EncodeReadChunk(b, c, used);
      var rest;
      assert Parse(Rest(b, used)).None? && Complete(c);
      rest, tail := ThrowsOnlyAtCutHeader(Rest(b, used));
      SplitsAtCons(c, Rest(b, used), rest, tail);
      cs := [c] + rest;
    }
  }

  lemma SplitsAtCons(c: Chunk, b: Buffer, cs: seq<Chunk>, tail: Buffer)
    requires Complete(c) && EncodeChunk(c).Some? && SplitsAt(b, cs, tail)
    ensures SplitsAt(EncodeChunk(c).value + b, [c] + cs, tail)
  {
    EncodeCons(c, cs);
    var head, rest := EncodeChunk(c).value, Encode(cs).value;
    assert head + (rest + tail) == (head + rest) + tail;
  }

  lemma {:induction false} CutHeaderThrows(cs: seq<Chunk>, tail: Buffer)
    requires AllComplete(cs) && CutHeader(tail)
    ensures Encode(cs).Some? && Parse(Encode(cs).value + tail).None?
  {
    if cs == [] {
      assert [] + tail == tail && ReadChunk(tail).None?;
    } else {
      CutHeaderThrows(cs[1..], tail);
      var rest := Encode(cs[1..]).value;
      ReadEncodedChunk(cs[0], rest + tail);
      assert EncodeChunk(cs[0]).value + (rest + tail) == (EncodeChunk(cs[0]).value + rest) + tail;
    }
  }

  /** `fromBuffer` throws exactly on the buffers whose length field runs off the end. */
  lemma ThrowsIff(b: Buffer)
    ensures Parse(b).None? <==> EndsInCutHeader(b)
  {
    if Parse(b).None? {
      var cs, tail := ThrowsOnlyAtCutHeader(b);
    }
    if EndsInCutHeader(b) {
      var cs, tail :| SplitsAt(b, cs, tail);
      CutHeaderThrows(cs, tail);
    }
  }

  // ----- Building with add -----

  /** The argument of `add`: an opcode number, or data. */
  datatype Item = Op(num: int) | Push(data: Buffer)

  /** The chunk `add` appends. */
  function ChunkFor(item: Item): Chunk {
    match item
    case Op(num) => Opcode(num)
    case Push(data) =>
      var op := if |data| < OP_PUSHDATA1 then |data|
                else if |data| <= 0xff then OP_PUSHDATA1
                else if |data| <= 0xffff then OP_PUSHDATA2
                else OP_PUSHDATA4;
      Data(op, |data|, data)
  }

  function Built(items: seq<Item>): (cs: seq<Chunk>)
    ensures |cs| == |items|
    ensures forall i :: 0 <= i < |items| ==> cs[i] == ChunkFor(items[i])
  {
    if items == [] then [] else [ChunkFor(items[0])] + Built(items[1..])
  }

  /** A non-push opcode, or nonempty data whose length fits 32 bits. */
  predicate Restorable(item: Item) {
    match item
    case Op(num) => num == OP_0 || OP_PUSHDATA4 < num < 256
    case Push(data) => 0 < |data| < 0x1_0000_0000
  }

  lemma AddedChunk(item: Item)
    ensures Restorable(item) <==> Complete(ChunkFor(item))
    ensures !CutShort(ChunkFor(item))
  {
    Pow256Values();
  }

  /** A script made with `add` survives serialisation exactly when every item is restorable: a
      push opcode added as a number, empty data, or data of 2^32 bytes does not come back. */
  lemma BuiltRoundTripIff(items: seq<Item>)
    ensures (Encode(Built(items)).Some? && Parse(Encode(Built(items)).value) == Some(Built(items)))
            <==> forall i :: 0 <= i < |items| ==> Restorable(items[i])
  {
    RoundTripIff(Built(items));
    BuiltShape(items);
  }

  lemma BuiltShape(items: seq<Item>)
    ensures ReaderShaped(Built(items)) <==> forall i :: 0 <= i < |items| ==> Restorable(items[i])
  {
    hide Complete, CutShort, Restorable, ChunkFor, ReaderShaped, Built;
    var cs := Built(items);
    forall i | 0 <= i < |items|
      ensures Restorable(items[i]) <==> Complete(cs[i])
      ensures !CutShort(cs[i])
    {
      AddedChunk(items[i]);
      assert cs[i] == ChunkFor(items[i]);
    }
    NoneCut(cs);
  }

  lemma NoneCut(cs: seq<Chunk>)
    requires forall i :: 0 <= i < |cs| ==> !CutShort(cs[i])
    ensures ReaderShaped(cs) <==> forall i :: 0 <= i < |cs| ==> Complete(cs[i])
  {
    hide Complete, CutShort;
  }

  /** Among all chunks that carry the same data and are read back, `add` picks a shortest one. */
  lemma AddIsShortest(data: Buffer, other: Chunk)
    requires 0 < |data| < 0x1_0000_0000
    requires Complete(other) && other.Data? && other.buf == data
    ensures EncodeChunk(ChunkFor(Push(data))).Some? && EncodeChunk(other).Some?
    ensures |EncodeChunk(ChunkFor(Push(data))).value| <= |EncodeChunk(other).value|
    ensures |EncodeChunk(ChunkFor(Push(data))).value| == |data| +
      (if |data| <= 75 then 1 else if |data| <= 255 then 2 else if |data| <= 65535 then 3 else 5)
  {
    Pow256Values();
  }

  // ----- Byte by byte -----

  /** How a push is written: up to 75 bytes behind their number, then behind 0x4c and one length byte,
      0x4d and two, or 0x4e and four, the lowest byte first. */
  lemma PushBytesMean(data: Buffer)
    requires |data| < 0x1_0000_0000
    ensures var n, r := |data|, EncodeChunk(ChunkFor(Push(data)));
      r.Some? &&
      var b := r.value;
      if n <= 75 then b == [n] + data
      else if n <= 0xff then b == [0x4c] + [n] + data
      else if n <= 0xffff then b == [0x4d] + [n % 256, n / 256 % 256] + data
      else b == [0x4e] + [n % 256, n / 256 % 256, n / 65536 % 256, n / 16777216 % 256] + data
  {
    hide LE;
    var n := |data|;
    Pow256Values();
    OneByte(n);
    TwoBytes(n);
    FourBytes(n);
  }

  lemma OneByte(n: nat)
    ensures LE(n, 1) == [n % 256]
  {
    LittleStep(n, 0);
    assert [n % 256] + [] == [n % 256];
  }

  lemma TwoBytes(n: nat)
    ensures LE(n, 2) == [n % 256, n / 256 % 256]
  {
    hide LE;
    LittleStep(n, 1);
    OneByte(n / 256);
  }

  lemma FourBytes(n: nat)
    ensures LE(n, 4) == [n % 256, n / 256 % 256, n / 65536 % 256, n / 16777216 % 256]
  {
    hide LE;
    LittleStep(n, 3);
    LittleStep(n / 256, 2);
    TwoBytes(n / 256 / 256);
    Quotients(n);
  }

  lemma Quotients(n: nat)
    ensures n / 256 / 256 == n / 65536 && n / 65536 / 256 == n / 16777216
  {
  }

  lemma LittleStep(n: nat, k: nat)
    ensures LE(n, k + 1) == [n % 256] + LE(n / 256, k) && LE(n, 0) == []
  {
  }

  function LittleTwo(b: Buffer): nat
    requires |b| == 2
  {
    b[0] as int + 256 * b[1] as int
  }

  function LittleFour(b: Buffer): nat
    requires |b| == 4
  {
    b[0] as int + 256 * b[1] as int + 65536 * b[2] as int + 16777216 * b[3] as int
  }

  /** How the first chunk of a buffer is read: 1 to 75 announce that many bytes, 0x4c to 0x4e a length of
      one, two or four bytes; only a cut length fails, and data stop at the end of the buffer. */
  lemma ReadMeans(b: Buffer)
    requires b != []
    ensures var op := b[0];
      var k: nat := if op == 0x4c then 1 else if op == 0x4d then 2 else if op == 0x4e then 4 else 0;
      if op == 0 || op > 0x4e then ReadChunk(b) == Some((Opcode(op), 1))
      else if |b| < 1 + k then ReadChunk(b) == None
      else
        var len: nat := if op == 0x4c then b[1]
                        else if op == 0x4d then LittleTwo(b[1..3])
                        else if op == 0x4e then LittleFour(b[1..5])
                        else op;
        var all: nat := 1 + k + len;
        var end := if |b| <= all then |b| else all;
        ReadChunk(b) == Some((Data(op, len, b[1 + k..end]), all))
  {
    hide FromLE, Slice;
    var k := LengthField(b[0]);
    if 0 < b[0] <= 0x4e && |b| >= 1 + k {
      LittleNumber(b[1..1 + k]);
      SliceMeans(b, 1 + k, if k == 0 then b[0] else FromLE(b[1..1 + k]));
    }
  }

  lemma SliceMeans(b: Buffer, pos: nat, len: nat)
    requires pos <= |b|
    ensures Slice(b, pos, len) == b[pos..if |b| <= pos + len then |b| else pos + len]
  {
  }

  lemma LittleNumber(b: Buffer)
    ensures |b| == 1 ==> FromLE(b) == b[0]
    ensures |b| == 2 ==> FromLE(b) == LittleTwo(b)
    ensures |b| == 4 ==> FromLE(b) == LittleFour(b)
  {
    assert FromLE([]) == 0;
    if |b| == 2 {
      assert FromLE(b[1..]) == b[1];
    } else if |b| == 4 {
      assert b[1..][1..] == b[2..] && b[2..][1..] == b[3..];
      assert FromLE(b[3..]) == b[3];
      assert FromLE(b[2..]) == b[2] as int + 256 * b[3] as int;
      assert FromLE(b[1..]) == b[1] as int + 256 * FromLE(b[2..]);
    }
  }

  // ----- The Script object -----

  /** `done` followed by what is still to come, if that succeeds. */
  function Prefixed<T>(done: seq<T>, rest: Option<seq<T>>): (r: Option<seq<T>>)
    ensures done == [] ==> r == rest
  {
    match rest
    case None => None
    case Some(xs) => assert [] + xs == xs; Some(done + xs)
  }

  lemma EncodeStep(before: Buffer, after: Buffer, c: Chunk, cs: seq<Chunk>)
    requires EncodeChunk(c).Some? && after == before + EncodeChunk(c).value
    ensures Prefixed(before, Encode([c] + cs)) == Prefixed(after, Encode(cs))
  {
    assert ([c] + cs)[1..] == cs;
    if Encode(cs).Some? {
      assert before + (EncodeChunk(c).value + Encode(cs).value) == after + Encode(cs).value;
    }
  }

  lemma ParseStep(before: seq<Chunk>, c: Chunk, here: Buffer, rest: Buffer)
    requires here != [] && ReadChunk(here).Some?
    requires ReadChunk(here).value.0 == c && Rest(here, ReadChunk(here).value.1) == rest
    ensures Prefixed(before, Parse(here)) == Prefixed(before + [c], Parse(rest))
  {
    if Parse(rest).Some? {
      assert before + ([c] + Parse(rest).value) == (before + [c]) + Parse(rest).value;
    }
  }

  lemma SliceShift(b: Buffer, pos: nat, k: nat, len: nat)
    requires pos <= |b|
    ensures Slice(b[pos..], k, len) == Slice(b, pos + k, len)
    ensures Rest(b[pos..], k) == Rest(b, pos + k)
    ensures pos + k + len <= |b| ==> b[pos..][k..k + len] == b[pos + k..pos + k + len]
  {
  }

  /** A push read at a position, in terms of the whole buffer. */
  lemma ReadPush(b: Buffer, pos: nat)
    requires pos < |b| && 0 < b[pos] <= OP_PUSHDATA4
    ensures var k := LengthField(b[pos]);
      ReadChunk(b[pos..]) ==
        if pos + 1 + k > |b| then None
        else
          var len := if k == 0 then b[pos] else FromLE(b[pos + 1..pos + 1 + k]);
          Some((Data(b[pos], len, Slice(b, pos + 1 + k, len)), 1 + k + len))
  {
    hide Slice, FromLE;
    var op, k := b[pos], LengthField(b[pos]);
    assert b[pos..][0] == op;
    if pos + 1 + k <= |b| {
      SliceShift(b, pos, 1, k);
      SliceShift(b, pos, 1 + k, if k == 0 then op else FromLE(b[pos + 1..pos + 1 + k]));
    }
  }

  lemma ReadOpcode(b: Buffer, pos: nat)
    requires pos < |b| && !(0 < b[pos] <= OP_PUSHDATA4)
    ensures ReadChunk(b[pos..]) == Some((Opcode(b[pos]), 1))
  {
    assert b[pos..][0] == b[pos];
  }

  class Script {
    var chunks: seq<Chunk>

    constructor ()
      ensures chunks == []
    {
      chunks := [];
    }

    method Add(item: Item)
      modifies this
      ensures chunks == old(chunks) + [ChunkFor(item)]
    {
      match item
      case Op(num) =>
        chunks := chunks + [Opcode(num)];
      case Push(data) =>
        var op := |data|;
        if |data| < OP_PUSHDATA1 {
          op := |data|;
        } else if |data| <= 0xff {
          op := OP_PUSHDATA1;
        } else if |data| <= 0xffff {
          op := OP_PUSHDATA2;
        } else {
          op := OP_PUSHDATA4;
        }
        chunks := chunks + [Data(op, |data|, data)];
    }

    method ToBuffer() returns (r: Option<Buffer>)
      ensures r == Encode(chunks)
    {
      var out: Buffer := [];
      var i := 0;
      assert chunks[0..] == chunks;
      while i < |chunks|
        invariant 0 <= i <= |chunks|
        invariant Encode(chunks) == Prefixed(out, Encode(chunks[i..]))
      {
        var c := chunks[i];
        assert chunks[i..] == [c] + chunks[i + 1..];
        if !(0 <= c.opcodenum < 256) {
          return None;
        }
        ghost var before := out;
        out := out + [c.opcodenum];
        if c.Data? {
          var k := LengthField(c.opcodenum);
          if k > 0 {
            if c.len >= Pow256(k) {
              return None;
            }
            out := out + LE(c.len, k);
          }
          out := out + c.buf;
        }
        EncodeStep(before, out, c, chunks[i + 1..]);
        i := i + 1;
      }
      assert out + [] == out;
      return Some(out);
    }

    /** One turn of the reader loop: the chunk at pos and the next position, or a RangeError. */
    static method ReadAt(buffer: Buffer, pos: nat) returns (r: Option<(Chunk, nat)>)
      requires pos < |buffer|
      ensures r.Some? <==> ReadChunk(buffer[pos..]).Some?
      ensures r.Some? ==> pos < r.value.1 && ReadChunk(buffer[pos..]).value == (r.value.0, r.value.1 - pos)
    {
      hide ReadChunk, Slice, FromLE;
      var op := buffer[pos];
      if 0 < op < OP_PUSHDATA1 {
        ReadPush(buffer, pos);
        r := Some((Data(op, op, Slice(buffer, pos + 1, op)), pos + 1 + op));
      } else if OP_PUSHDATA1 <= op <= OP_PUSHDATA4 {
        ReadPush(buffer, pos);
        var k := LengthField(op);
        if pos + 1 + k > |buffer| {
          return None;
        }
        var len := FromLE(buffer[pos + 1..pos + 1 + k]);
        r := Some((Data(op, len, Slice(buffer, pos + 1 + k, len)), pos + 1 + k + len));
      } else {
        ReadOpcode(buffer, pos);
        r := Some((Opcode(op), pos + 1));
      }
    }

    /** `Script.fromBuffer`: a reader whose position may move past the end. */
    static method FromBuffer(buffer: Buffer) returns (r: Option<Script>)
      ensures r.Some? <==> Parse(buffer).Some?
      ensures r.Some? ==> fresh(r.value) && r.value.chunks == Parse(buffer).value
    {
      var script := new Script();
      var pos := 0;
      while pos < |buffer|
        invariant fresh(script)
        invariant Parse(buffer) == Prefixed(script.chunks, Parse(Rest(buffer, pos)))
        decreases |buffer| - pos
      {
        var next := ReadAt(buffer, pos);
        if next.None? {
          return None;
        }
        var (c, after) := next.value;
        SliceShift(buffer, pos, after - pos, 0);
        ParseStep(script.chunks, c, buffer[pos..], Rest(buffer, after));
        script.chunks := script.chunks + [c];
        pos := after;
      }
      assert script.chunks + [] == script.chunks;
      return Some(script);
    }
  }
}
