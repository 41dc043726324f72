/** Signed-magnitude buffers and script numbers of lib/bitcore/crypto/bn.ts. `x & 0x80` is
    `x >= 128`, `x & 0x7f` is `x % 128`, `x | 0x80` is `x + 128` below 128. */
module ScriptNum {
  import opened Buffers

  // ----- Big-endian magnitudes -----

  /** `toBuffer()` of a non-negative number: no leading zero byte, and one zero byte for 0. */
  function Magnitude(n: nat): (b: Buffer)
    ensures b != []
  {
    if n < 256 then [n] else Magnitude(n / 256) + [n % 256]
  }

  lemma {:induction false} MagnitudeFacts(n: nat)
    ensures FromBE(Magnitude(n)) == n
    ensures n > 0 ==> Magnitude(n)[0] != 0
  {
    if n < 256 {
      assert [n as byte][..0] == [];
    } else {
      var front := Magnitude(n / 256);
      MagnitudeFacts(n / 256);
      assert Magnitude(n) == front + [n % 256] && (front + [n % 256])[..|front|] == front;
    }
  }

  /** A buffer without leading zero is the magnitude of its value. */
  lemma {:induction false} MagnitudeOfValue(b: Buffer)
    requires b != [] && b[0] != 0
    ensures Magnitude(FromBE(b)) == b && FromBE(b) > 0
  {
    var front, last := b[..|b| - 1], b[|b| - 1];
    assert b == front + [last];
    if front == [] {
      assert FromBE(front) == 0;
    } else {
      MagnitudeOfValue(front);
      var n := FromBE(b);
      assert n / 256 == FromBE(front) && n % 256 == last;
    }
  }

  /** n fits k bytes exactly when its magnitude is at most k bytes long. */
  lemma {:induction false} MagnitudeLength(n: nat, k: nat)
    requires k > 0
    ensures |Magnitude(n)| <= k <==> n < Pow256(k)
  {
    if n < 256 {
      assert Pow256(k) == 256 * Pow256(k - 1);
    } else if k == 1 {
      assert Pow256(1) == 256;
    } else {
      MagnitudeLength(n / 256, k - 1);
      assert Pow256(k) == 256 * Pow256(k - 1);
    }
  }

  lemma LeadingZero(b: Buffer)
    ensures FromBE([0] + b) == FromBE(b)
  {
    FromBECons(0, b);
  }

  // ----- Signed magnitude, big-endian -----

  function Abs(v: int): nat {
    if v < 0 then 0 - v else v
  }

  /** `toSMBigEndian`: sets the sign bit of a magnitude, in a byte of its own if the bit is taken. */
  function AddSign(negative: bool, buf: Buffer): Buffer
    requires buf != []
  {
    if buf[0] >= 128 then [if negative then 128 else 0] + buf
    else if negative then [buf[0] + 128] + buf[1..]
    else if |buf| == 1 && buf[0] == 0 then []
    else buf
  }

  function ToSM(v: int): Buffer {
    AddSign(v < 0, Magnitude(Abs(v)))
  }

  predicate SignBit(buf: Buffer) {
    buf != [] && buf[0] >= 128
  }

  function ClearSign(buf: Buffer): Buffer {
    if SignBit(buf) then [buf[0] - 128] + buf[1..] else buf
  }

  /** `fromSM` on big-endian bytes. */
  function FromSM(buf: Buffer): int {
    if SignBit(buf) then 0 - FromBE(ClearSign(buf)) else FromBE(buf)
  }

  /** No shorter buffer has the same value: the first byte carries magnitude bits, or it is needed
      to keep the next byte's top bit from being the sign. */
  predicate MinimalSM(buf: Buffer) {
    buf == [] || buf[0] % 128 != 0 || (|buf| > 1 && buf[1] >= 128)
  }

  /** Clearing the sign of a signed magnitude gives the magnitude's value back. */
  lemma SignedMagnitude(negative: bool, m: Buffer)
    requires m != [] && (negative ==> m[0] != 0)
    ensures FromBE(ClearSign(AddSign(negative, m))) == FromBE(m) && SignBit(AddSign(negative, m)) == negative
  {
    hide FromBE;
    if m[0] >= 128 {
      GrownSign(negative, m);
      LeadingZero(m);
    } else {
      SignInPlace(negative, m);
      if m == [0] {
        LeadingZero([]);
        assert m == [0] + [];
      }
    }
  }

  /** The sign in a byte of its own. */
  lemma GrownSign(negative: bool, m: Buffer)
    requires m != [] && m[0] >= 128
    ensures ClearSign(AddSign(negative, m)) == [0] + m && SignBit(AddSign(negative, m)) == negative
  {
    assert AddSign(negative, m)[1..] == m;
  }

  lemma SignInPlace(negative: bool, m: Buffer)
    requires m != [] && m[0] < 128 && (negative ==> m[0] != 0)
    ensures m != [0] ==> ClearSign(AddSign(negative, m)) == m
    ensures m == [0] ==> AddSign(negative, m) == [] || AddSign(negative, m) == m
    ensures SignBit(AddSign(negative, m)) == negative
    ensures m == [0] ==> ClearSign(AddSign(negative, m)) == AddSign(negative, m)
  {
    if m != [0] {
      assert ClearSign(AddSign(negative, m))[1..] == m[1..];
      assert m == [m[0]] + m[1..];
    }
  }

  lemma SignedIsMinimal(negative: bool, m: Buffer)
    requires m != [] && (m[0] != 0 || (m == [0] && !negative))
    ensures MinimalSM(AddSign(negative, m))
  {
  }

  lemma ToSMFacts(v: int)
    ensures FromSM(ToSM(v)) == v && MinimalSM(ToSM(v))
  {
    hide Magnitude, FromBE, AddSign, MinimalSM;
    MagnitudeFacts(Abs(v));
    ZeroMagnitude();
    SignedMagnitude(v < 0, Magnitude(Abs(v)));
    SignedIsMinimal(v < 0, Magnitude(Abs(v)));
  }

  lemma ZeroMagnitude()
    ensures Magnitude(0) == [0]
  {
  }

  /** A minimal buffer is the encoding of its value. */
  lemma MinimalIsEncoding(buf: Buffer)
    requires MinimalSM(buf)
    ensures ToSM(FromSM(buf)) == buf
  {
    hide Magnitude, FromBE;
    ZeroMagnitude();
    if buf == [] {
      assert FromBE([]) == 0 by { EmptyValue(); }
    } else {
      var clear := ClearSign(buf);
      if clear[0] != 0 {
        MagnitudeOfValue(clear);
        assert buf == AddSign(SignBit(buf), clear);
      } else {
        var m := buf[1..];
        assert clear == [0] + m;
        LeadingZero(m);
        MagnitudeOfValue(m);
        assert buf == AddSign(SignBit(buf), m);
      }
    }
  }

  lemma EmptyValue()
    ensures FromBE([]) == 0
  {
  }

  // ----- Script numbers, little-endian -----

  function Reversed(b: Buffer): (r: Buffer)
    ensures |r| == |b|
    ensures forall i :: 0 <= i < |b| ==> r[i] == b[|b| - 1 - i]
  {
    if b == [] then [] else Reversed(b[1..]) + [b[0]]
  }

  lemma ReversedTwice(b: Buffer)
    ensures Reversed(Reversed(b)) == b
  {
  }

  /** `toScriptNumBuffer`. */
  function Encode(v: int): Buffer {
    Reversed(ToSM(v))
  }

  /** `fromSM(buf, { endian: 'little' })`. */
  function Decode(buf: Buffer): int {
    FromSM(Reversed(buf))
  }

  /** The minimality test of `fromScriptNumBuffer`. */
  predicate Minimal(buf: Buffer) {
    buf == [] || buf[|buf| - 1] % 128 != 0 || (|buf| > 1 && buf[|buf| - 2] >= 128)
  }

  datatype NumError = Overflow | NonMinimal
  datatype NumResult = Ok(value: int) | Err(error: NumError)

  /** `fromScriptNumBuffer(buf, fRequireMinimal, size)`; size 0 or absent means 4. */
  function FromScriptNum(buf: Buffer, requireMinimal: bool, size: nat): NumResult {
    var maxSize := if size == 0 then 4 else size;
    if |buf| > maxSize then Err(Overflow)
    else if requireMinimal && !Minimal(buf) then Err(NonMinimal)
    else Ok(Decode(buf))
  }

  lemma MinimalAgrees(buf: Buffer)
    ensures Minimal(buf) <==> MinimalSM(Reversed(buf))
  {
  }

  /** Decoding an encoded integer gives it back, and every encoding passes the minimality test. */
  lemma RoundTrip(v: int)
    ensures Decode(Encode(v)) == v && Minimal(Encode(v))
  {
    ToSMFacts(v);
    ReversedTwice(ToSM(v));
    MinimalAgrees(Encode(v));
  }

  /** Exactly the buffers that pass the minimality test are reproduced by decoding and encoding. */
  lemma ReencodeIff(buf: Buffer)
    ensures Encode(Decode(buf)) == buf <==> Minimal(buf)
  {
    MinimalAgrees(buf);
    if Minimal(buf) {
      MinimalIsEncoding(Reversed(buf));
      ReversedTwice(buf);
    }
    RoundTrip(Decode(buf));
  }

  /** The encoding has at most k bytes exactly when the magnitude is below 2^(8k - 1). */
  lemma LengthIff(v: int, k: nat)
    requires k > 0
    ensures |Encode(v)| <= k <==> -128 * Pow256(k - 1) < v < 128 * Pow256(k - 1)
  {
    hide Magnitude, FromBE;
    var n := Abs(v);
    TopBit(n);
    ZeroMagnitude();
    MagnitudeFacts(n);
    if n > 0 {
      MagnitudeLength(n, k);
      if k > 1 {
        MagnitudeLength(n, k - 1);
      }
      assert Pow256(k) == 256 * Pow256(k - 1);
    }
  }

  /** The top bit of the magnitude decides whether the sign needs a byte of its own. */
  lemma TopBit(n: nat)
    ensures Magnitude(n)[0] >= 128 <==> n >= 128 * Pow256(|Magnitude(n)| - 1)
  {
    hide Magnitude, FromBE;
    var buf := Magnitude(n);
    MagnitudeFacts(n);
    FromBECons(buf[0], buf[1..]);
    assert buf == [buf[0]] + buf[1..];
    WeightedByte(buf[0], Pow256(|buf| - 1));
  }

  lemma WeightedByte(b: byte, w: nat)
    ensures if b >= 128 then b * w >= 128 * w else b * w <= 127 * w
  {
  }

  /** With the default size the accepted encodings are those of -(2^31 - 1) to 2^31 - 1, and each
      is read back to its number. */
  lemma DefaultRange(v: int)
    ensures FromScriptNum(Encode(v), true, 0) ==
      if -0x7fff_ffff <= v <= 0x7fff_ffff then Ok(v) else Err(Overflow)
  {
    RoundTrip(v);
    LengthIff(v, 4);
    assert Pow256(3) == 0x100_0000;
  }

  // ----- What the bytes mean -----

  lemma {:induction false} ReversedNumber(b: Buffer)
    ensures FromBE(Reversed(b)) == FromLE(b)
  {
    if b != [] {
      var front := Reversed(b[1..]);
      ReversedNumber(b[1..]);
      assert Reversed(b)[..|b| - 1] == front && Reversed(b)[|b| - 1] == b[0];
    }
  }

  /** The magnitude of a little-endian buffer: all bits but the top one of the last byte. */
  function LowBits(buf: Buffer): nat
    requires buf != []
  {
    FromLE(buf[..|buf| - 1]) + buf[|buf| - 1] % 128 * Pow256(|buf| - 1)
  }

  /** A script number is little-endian, and the top bit of its last byte is its sign. */
  lemma DecodeMeans(buf: Buffer)
    ensures Decode([]) == 0
    ensures buf != [] ==> Decode(buf) == if buf[|buf| - 1] >= 128 then 0 - LowBits(buf) else LowBits(buf)
  {
    EmptyValue();
    if buf != [] {
      hide FromBE, FromLE, FromSM, Pow256;
      var front := buf[..|buf| - 1];
      BigEndianMeans(Reversed(buf));
      ReversedNumber(front);
      assert Reversed(buf)[1..] == Reversed(front);
    }
  }

  /** A big-endian buffer with its sign in the first byte. */
  lemma BigEndianMeans(buf: Buffer)
    requires buf != []
    ensures var low := buf[0] % 128 * Pow256(|buf| - 1) + FromBE(buf[1..]);
      FromSM(buf) == if buf[0] >= 128 then 0 - low else low
  {
    hide FromBE, Pow256;
    FromBECons(buf[0] % 128, buf[1..]);
    assert buf[0] < 128 ==> buf == [buf[0] % 128] + buf[1..];
    assert buf[0] >= 128 ==> ClearSign(buf) == [buf[0] % 128] + buf[1..];
  }

  lemma LowBitsBound(buf: Buffer)
    requires buf != []
    ensures LowBits(buf) < 128 * Pow256(|buf| - 1)
  {
    hide Pow256;
    Weighted(FromLE(buf[..|buf| - 1]), buf[|buf| - 1] % 128, Pow256(|buf| - 1));
  }

  lemma Weighted(low: nat, high: nat, w: nat)
    requires low < w && high < 128
    ensures low + high * w < 128 * w
  {
    assert high * w <= 127 * w;
  }

  /** Two buffers of one length with the same sign bit and magnitude are the same. */
  lemma LowBitsInjective(a: Buffer, b: Buffer)
    requires |a| == |b| > 0 && LowBits(a) == LowBits(b) && (a[|a| - 1] >= 128) == (b[|b| - 1] >= 128)
    ensures a == b
  {
    hide FromLE, LE, Pow256;
    var n := |a| - 1;
    Bounds(a[..n]);
    Bounds(b[..n]);
    SameWeights(FromLE(a[..n]), a[n] % 128, FromLE(b[..n]), b[n] % 128, Pow256(n));
    SameNumber(a[..n], b[..n]);
    SameByte(a[n], b[n]);
    assert a == a[..n] + [a[n]] && b == b[..n] + [b[n]];
  }

  lemma SameNumber(a: Buffer, b: Buffer)
    requires |a| == |b| && FromLE(a) == FromLE(b)
    ensures a == b
  {
    FromLEInverse(a);
    FromLEInverse(b);
  }

  lemma SameByte(x: byte, y: byte)
    requires x % 128 == y % 128 && (x >= 128) == (y >= 128)
    ensures x == y
  {
  }

  lemma Bounds(b: Buffer)
    ensures FromLE(b) < Pow256(|b|)
  {
  }

  lemma SameWeights(x: nat, h: nat, y: nat, k: nat, w: nat)
    requires x < w && y < w && x + h * w == y + k * w
    ensures x == y && h == k
  {
    LeadingWeight(h, k, x, y, w);
    LeadingWeight(k, h, y, x, w);
  }

  /** The minimality test passes exactly the buffers that are strictly the shortest with their value. */
  lemma MinimalIff(buf: Buffer)
    ensures Minimal(buf) <==> forall b: Buffer :: Decode(b) == Decode(buf) && b != buf ==> |buf| < |b|
  {
    hide Decode, Encode, Minimal;
    if Minimal(buf) {
      ReencodeIff(buf);
      forall b: Buffer | Decode(b) == Decode(buf) && b != buf ensures |buf| < |b| {
        ReencodeIff(b);
        EncodingIsShorter(b);
      }
    } else {
      ReencodeIff(buf);
      RoundTrip(Decode(buf));
      EncodingIsShorter(buf);
    }
  }

  lemma EncodingIsShorter(buf: Buffer)
    ensures Encode(Decode(buf)) == buf || |Encode(Decode(buf))| < |buf|
  {
    hide Decode, Encode, FromLE, Pow256;
    var v := Decode(buf);
    var e := Encode(v);
    DecodeMeans(buf);
    DecodeMeans(e);
    RoundTrip(v);
    ZeroIsEmpty();
    if buf != [] {
      LowBitsBound(buf);
      LengthIff(v, |buf|);
      if |e| == |buf| {
        LowBitsInjective(e, buf);
      }
    }
  }

  lemma ZeroIsEmpty()
    ensures Encode(0) == []
  {
  }

  /** What `fromScriptNumBuffer` refuses: more bytes than the size allows, four if none is given; and,
      when asked to, a buffer with the value of another that is no longer. */
  lemma ReadIff(buf: Buffer, requireMinimal: bool, size: nat)
    ensures var r := FromScriptNum(buf, requireMinimal, size);
      var long := |buf| > if size == 0 then 4 else size;
      && (r == Err(Overflow) <==> long)
      && (r == Err(NonMinimal) <==> !long && requireMinimal
                                    && exists b: Buffer :: Decode(b) == Decode(buf) && b != buf && |b| <= |buf|)
      && (r.Ok? ==> r.value == Decode(buf))
  {
    hide Decode, Minimal;
    MinimalIff(buf);
  }

  // ----- The buffer operations -----

  /** `reversebuf` fills a new buffer. */
  method ReverseBuf(buf: array<byte>) returns (buf2: array<byte>)
    ensures fresh(buf2) && buf2[..] == Reversed(buf[..])
  {
    buf2 := new byte[buf.Length](_ => 0);
    for i := 0 to buf.Length
      invariant forall j :: 0 <= j < i ==> buf2[j] == buf[buf.Length - 1 - j]
    {
      buf2[i] := buf[buf.Length - 1 - i];
    }
    assert buf2[..] == Reversed(buf[..]);
  }

  /** `fromSM`: a negative big-endian buffer loses its sign bit in the caller's memory. */
  method ReadSM(buf: array<byte>, little: bool) returns (v: int)
    modifies buf
    ensures v == if little then Decode(old(buf[..])) else FromSM(old(buf[..]))
    ensures buf[..] == if !little && buf.Length > 0 && old(buf[..])[0] >= 128
                       then old(buf[..])[0 := old(buf[..])[0] - 128] else old(buf[..])
  {
    hide FromBE, Reversed;
    EmptyValue();
    if buf.Length == 0 {
      assert Reversed(buf[..]) == [];
      return 0;
    }
    var buffer := buf;
    if little {
      buffer := ReverseBuf(buf);
    }
    ghost var bytes := buffer[..];
    if buffer[0] >= 128 {
      buffer[0] := buffer[0] - 128;
      assert buffer[..] == [bytes[0] - 128] + bytes[1..];
      v := 0 - FromBE(buffer[..]);
    } else {
      v := FromBE(buffer[..]);
    }
  }

  /** `toScriptNumBuffer`: sets the sign bit in its own buffer, or grows it, then reverses. */
  method WriteScriptNum(v: int) returns (r: array<byte>)
    ensures fresh(r) && r[..] == Encode(v)
  {
    var m := Magnitude(Abs(v));
    var buf := new byte[|m|](i requires 0 <= i < |m| => m[i]);
    assert buf[..] == m;
    if v < 0 {
      if buf[0] >= 128 {
        buf := Prepend(128, buf);
      } else {
        buf[0] := buf[0] + 128;
        assert buf[..] == [m[0] + 128] + m[1..];
      }
    } else if buf[0] >= 128 {
      buf := Prepend(0, buf);
    }
    if buf.Length == 1 && buf[0] == 0 {
      buf := new byte[0](_ => 0);
    }
    assert buf[..] == ToSM(v);
    r := ReverseBuf(buf);
  }

  method Prepend(b: byte, buf: array<byte>) returns (r: array<byte>)
    ensures fresh(r) && r[..] == [b] + buf[..]
  {
    r := new byte[buf.Length + 1](_ => 0);
    r[0] := b;
    for i := 0 to buf.Length
      invariant r[0] == b && forall j :: 0 <= j < i ==> r[j + 1] == buf[j]
    {
      r[i + 1] := buf[i];
    }
    assert r[..] == [b] + buf[..];
  }
}
