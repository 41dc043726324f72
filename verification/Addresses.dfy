/** Lotus address strings: lib/bitcore/xaddress.ts and lib/bitcore/address.ts. Base58, SHA-256 and
    UTF-8 encoding are parameters. */
module Addresses {
  import opened Buffers
  import opened ScriptCodec
  import opened Networks
  import Base58

  const OP_DUP := 0x76
  const OP_HASH160 := 0xa9
  const OP_EQUAL := 0x87
  const OP_EQUALVERIFY := 0x88
  const OP_CHECKSIG := 0xac

  const TOKEN_NAME := "lotus"

  datatype Kind = PubKeyHash | ScriptHash | Taproot

  datatype Error =
    | BadBase58 | BadChecksum | UnknownNetwork | BadTaprootLength | WrongNetwork
    | EndlessRecursion | BadLegacyString | BadVersion | NoHash

  datatype Result<T> = Ok(value: T) | Err(error: Error)

  /** An XAddress, and the record its decoder returns. */
  datatype XAddress = XAddress(hash: Buffer, network: Network, kind: Kind, prefix: string)

  datatype Address = Address(hash: Buffer, network: Network, kind: Kind)

  datatype Env = Env(
    sha256: Buffer -> Buffer,
    utf8: string -> Buffer,
    base58: Buffer -> string,
    unbase58: string -> Option<Buffer>,
    legacy: string -> Option<Address>)   // `_transformLegacyString`, not part of this model

  /** Base58 and its decoder undo each other, and no Base58 character is a colon or a space. */
  ghost predicate Lawful(env: Env) {
    && (forall b :: |env.sha256(b)| == 32)
    && (forall b :: env.unbase58(env.base58(b)) == Some(b))
    && (forall s, b :: env.unbase58(s) == Some(b) ==> env.base58(b) == s)
    && (forall b :: Plain(env.base58(b)))
  }

  /** The Base58 code behind the repository's Base58Check meets these laws. */
  lemma Base58IsLawful(sha256: Buffer -> Buffer, utf8: string -> Buffer, legacy: string -> Option<Address>)
    requires Base58.HashLength(sha256)
    ensures Lawful(Env(sha256, utf8, Base58.Encode, Base58.Decode, legacy))
  {
    hide Base58.Encode, Base58.Decode;
    forall s, b
      ensures Base58.Decode(s) == Some(b) <==> s == Base58.Encode(b)
    {
      Base58.DecodeIff(s, b);
    }
    forall b
      ensures Plain(Base58.Encode(b))
    {
      Base58.EncodeChars(b);
      PlainChars(Base58.Encode(b));
    }
  }

  lemma PlainChars(s: string)
    requires forall c :: c in s ==> '1' <= c <= 'z' && c != ':'
    ensures Plain(s)
  {
    forall i | 0 <= i < |s|
      ensures s[i] != ':' && !IsSpace(s[i])
    {
      assert s[i] in s;
    }
  }

  predicate Plain(s: string) {
    forall i :: 0 <= i < |s| ==> s[i] != ':' && !IsSpace(s[i])
  }

  // ----- XAddress strings -----

  function NetworkChar(n: Network): char {
    match n case Livenet => '_' case Testnet => 'T' case Regtest => 'R'
  }

  function NetworkOf(c: string): Option<Network> {
    if c == "_" then Some(Livenet) else if c == "T" then Some(Testnet) else if c == "R" then Some(Regtest)
    else None
  }

  /** Both hash kinds share type byte 0. */
  function TypeByte(k: Kind): byte {
    if k == Taproot then 2 else 0
  }

  function KindOf(typeByte: Buffer): Kind {
    if typeByte == [1] then ScriptHash else if typeByte == [2] then Taproot else PubKeyHash
  }

  function Checksum(env: Env, prefix: string, network: string, typeByte: Buffer, payload: Buffer): Buffer {
    Slice(env.sha256(env.utf8(prefix) + env.utf8(network) + typeByte + payload), 0, 4)
  }

  function XEncode(env: Env, x: XAddress): string {
    var c := [NetworkChar(x.network)];
    var t := [TypeByte(x.kind)];
    x.prefix + c + env.base58(t + x.hash + Checksum(env, x.prefix, c, t, x.hash))
  }

  /** What ends the prefix: an upper-case letter or an underscore. */
  predicate EndsPrefix(c: char) {
    'A' <= c <= 'Z' || c == '_'
  }

  /** Where the first such character is, |s| if there is none. */
  function Split(s: string): (i: nat)
    ensures i <= |s| && (i < |s| ==> EndsPrefix(s[i]))
    ensures forall j :: 0 <= j < i ==> !EndsPrefix(s[j])
  {
    if s == [] || EndsPrefix(s[0]) then 0 else 1 + Split(s[1..])
  }

  /** `xaddress.decode`. Without a match the first character is taken for the network. */
  function XDecode(env: Env, s: string): Result<XAddress> {
    var i := if Split(s) < |s| then Split(s) else 0;
    var prefix, c, rest := s[..i], if s == [] then [] else [s[i]], if s == [] then [] else s[i + 1..];
    match env.unbase58(rest)
    case None => Err(BadBase58)
    case Some(b) =>
      if |b| < 4 then Err(BadChecksum) else   // fewer bytes never equal a 4-byte checksum
      var t, payload := b[..1], if |b| > 4 then b[1..|b| - 4] else [];
      if Checksum(env, prefix, c, t, payload) != b[|b| - 4..] then Err(BadChecksum) else
      match NetworkOf(c)
      case None => Err(UnknownNetwork)
      case Some(n) => Ok(XAddress(payload, n, KindOf(t), prefix))
  }

  predicate NoSplit(prefix: string) {
    forall i :: 0 <= i < |prefix| ==> !EndsPrefix(prefix[i])
  }

  lemma {:induction false} SplitAt(prefix: string, c: char, rest: string)
    requires EndsPrefix(c)
    ensures Split(prefix + [c] + rest) <= |prefix|
    ensures NoSplit(prefix) <==> Split(prefix + [c] + rest) == |prefix|
  {
    var s := prefix + [c] + rest;
    assert s[|prefix|] == c && forall i :: 0 <= i < |prefix| ==> s[i] == prefix[i];
  }

  lemma ChecksumLength(env: Env, prefix: string, c: string, t: Buffer, payload: Buffer)
    requires Lawful(env)
    ensures |Checksum(env, prefix, c, t, payload)| == 4
  {
  }

  /** A string in the encoder's layout decodes to its parts, whatever the type byte. */
  lemma DecodeLayout(env: Env, prefix: string, n: Network, t: byte, payload: Buffer)
    requires Lawful(env) && NoSplit(prefix)
    ensures var c := [NetworkChar(n)];
      XDecode(env, prefix + c + env.base58([t] + payload + Checksum(env, prefix, c, [t], payload)))
      == Ok(XAddress(payload, n, KindOf([t]), prefix))
  {
    hide Checksum, Split;
    var c := [NetworkChar(n)];
    var sum := Checksum(env, prefix, c, [t], payload);
    ChecksumLength(env, prefix, c, [t], payload);
    var b := [t] + payload + sum;
    var s := prefix + c + env.base58(b);
    SplitAt(prefix, NetworkChar(n), env.base58(b));
    assert s[..|prefix|] == prefix && [s[|prefix|]] == c && s[|prefix| + 1..] == env.base58(b);
    assert b[..1] == [t] && b[1..|b| - 4] == payload && b[|b| - 4..] == sum;
  }

  /** An XAddress survives its string exactly when its prefix has no upper-case letter and no
      underscore and it is not a script hash, whose type byte is that of a public key hash. */
  lemma XRoundTripIff(env: Env, x: XAddress)
    requires Lawful(env)
    ensures XDecode(env, XEncode(env, x)) == Ok(x) <==> NoSplit(x.prefix) && x.kind != ScriptHash
  {
    hide Checksum, Split;
    var c := NetworkChar(x.network);
    if NoSplit(x.prefix) {
      DecodeLayout(env, x.prefix, x.network, TypeByte(x.kind), x.hash);
    } else {
      var t := [TypeByte(x.kind)];
      SplitAt(x.prefix, c, env.base58(t + x.hash + Checksum(env, x.prefix, [c], t, x.hash)));
    }
  }

  // ----- Address strings -----

  /** What `trim` removes. */
  predicate IsSpace(c: char) {
    var n := c as int;
    9 <= n <= 13 || n == 0x20 || n == 0xa0 || n == 0x1680 || 0x2000 <= n <= 0x200a || n == 0x2028
    || n == 0x2029 || n == 0x202f || n == 0x205f || n == 0x3000 || n == 0xfeff
  }

  function Trim(s: string): string {
    if s == [] then []
    else if IsSpace(s[0]) then Trim(s[1..])
    else if IsSpace(s[|s| - 1]) then Trim(s[..|s| - 1])
    else s
  }

  /** `Script.fromAddress` for the two hash kinds. */
  function OutputItems(a: Address): seq<Item> {
    if a.kind == ScriptHash then [Op(OP_HASH160), Push(a.hash), Op(OP_EQUAL)]
    else [Op(OP_DUP), Op(OP_HASH160), Push(a.hash), Op(OP_EQUALVERIFY), Op(OP_CHECKSIG)]
  }

  /** What an address string carries: the Taproot commitment alone, or the whole output script. */
  function Payload(a: Address): Option<Buffer> {
    if a.kind == Taproot then Some(a.hash) else Encode(Built(OutputItems(a)))
  }

  /** `Address.toString`, with its optional network; None when the script cannot be written. */
  function ToString(env: Env, a: Address, network: Option<Network>): Option<string> {
    match Payload(a)
    case None => None
    case Some(p) =>
      var n := if network.Some? then network.value else a.network;
      Some(XEncode(env, XAddress(p, n, a.kind, TOKEN_NAME)))
  }

  predicate P2PKHHead(b: Buffer) {
    |b| == 25 && b[..3] == [OP_DUP, OP_HASH160, 20]
  }

  predicate P2SHScript(b: Buffer) {
    |b| == 23 && b[..2] == [OP_HASH160, 20] && b[22] == OP_EQUAL
  }

  /** `_transformXAddressString` after decoding: the embedded script tells the kinds apart. */
  function Recognise(x: XAddress): Result<Address> {
    var b := x.hash;
    if x.kind == Taproot then
      if |b| == 36 && b[..3] == [0x62, 0x51, 0x21] then Ok(Address(b[3..36], x.network, Taproot))
      else if |b| == 33 then Ok(Address(b, x.network, Taproot))
      else Err(BadTaprootLength)
    else if P2PKHHead(b) then Ok(Address(b[3..23], x.network, PubKeyHash))
    else if P2SHScript(b) then Ok(Address(b[2..22], x.network, ScriptHash))
    else Ok(Address(b, x.network, PubKeyHash))
  }

  /** The first network with this version byte, and the kind it stands for. */
  function Version(v: byte): Option<(Network, Kind)> {
    if v == 0 then Some((Livenet, PubKeyHash)) else if v == 0x6f then Some((Testnet, PubKeyHash))
    else if v == 5 then Some((Livenet, ScriptHash)) else if v == 0xc4 then Some((Testnet, ScriptHash))
    else None
  }

  /** The constructor on a buffer, with network and type given. */
  function NewAddress(a: Address): Result<Address> {
    if |a.hash| == 20 || |a.hash| == 33 then Ok(a)
    else if |a.hash| == 21 then
      if Version(a.hash[0]) == Some((a.network, a.kind)) then Ok(a.(hash := a.hash[1..])) else Err(BadVersion)
    else Err(NoHash)
  }

  /** `_transformString` on trimmed text without a colon, before its network test. */
  function Transform(env: Env, data: string): Result<Address> {
    if 0 < Split(data) < |data| then
      match XDecode(env, data) case Err(e) => Err(e) case Ok(x) => Recognise(x)
    else match env.legacy(data) case None => Err(BadLegacyString) case Some(a) => Ok(a)
  }

  /** `_transformString` with at most this many nested calls, None when they do not suffice: for a
      text with a colon it calls `decodeCashAddress`, which calls it again. */
  function TransformWithin(env: Env, s: string, calls: nat): Option<Result<Address>>
    decreases calls
  {
    if calls == 0 then None
    else
      var data := Trim(s);
      if ':' in data then TransformWithin(env, data, calls - 1) else Some(Transform(env, data))
  }

  lemma {:induction false} TrimKeepsColons(s: string)
    ensures ':' in Trim(s) <==> ':' in s
  {
    if s != [] {
      if IsSpace(s[0]) {
        TrimKeepsColons(s[1..]);
        assert s == [s[0]] + s[1..];
      } else if IsSpace(s[|s| - 1]) {
        TrimKeepsColons(s[..|s| - 1]);
        assert s == s[..|s| - 1] + [s[|s| - 1]];
      }
    }
  }

  lemma {:induction false} ColonNeverEnds(env: Env, s: string, calls: nat)
    requires ':' in s
    ensures TransformWithin(env, s, calls).None?
    decreases calls
  {
    if calls > 0 {
      TrimKeepsColons(s);
      ColonNeverEnds(env, Trim(s), calls - 1);
    }
  }

  /** Parsing ends, whatever the call depth allowed, exactly for texts without a colon; those need no
      nested call. */
  lemma ParsingEndsIff(env: Env, s: string)
    ensures (exists calls: nat :: TransformWithin(env, s, calls).Some?) <==> ':' !in s
    ensures ':' !in s ==> TransformWithin(env, s, 1) == Some(Transform(env, Trim(s)))
  {
    TrimKeepsColons(s);
    if ':' in s {
      forall calls: nat ensures TransformWithin(env, s, calls).None? {
        ColonNeverEnds(env, s, calls);
      }
    } else {
      assert TransformWithin(env, s, 1) == Some(Transform(env, Trim(s)));
    }
  }

  /** `Address.fromString`, with the network the caller insists on, if any. */
  function FromString(env: Env, s: string, expected: Option<Network>): Result<Address> {
    var data := Trim(s);
    if ':' in data then Err(EndlessRecursion)   // see ParsingEndsIff
    else
      match Transform(env, data)
      case Err(e) => Err(e)
      case Ok(a) => if expected.Some? && expected.value != a.network then Err(WrongNetwork) else NewAddress(a)
  }

  /** The hash length that fits the kind. */
  predicate WellFormed(a: Address) {
    |a.hash| == if a.kind == Taproot then 33 else 20
  }

  // ----- Payloads -----

  function PushBytes(data: Buffer): Option<Buffer> {
    EncodeChunk(ChunkFor(Push(data)))
  }

  /** The script of an address is its opcodes around one push of the hash. */
  lemma {:induction false} PayloadBytes(a: Address)
    requires a.kind != Taproot
    ensures Payload(a).Some? <==> PushBytes(a.hash).Some?
    ensures Payload(a).Some? ==>
      Payload(a).value == if a.kind == ScriptHash then [OP_HASH160] + PushBytes(a.hash).value + [OP_EQUAL]
                          else [OP_DUP, OP_HASH160] + PushBytes(a.hash).value + [OP_EQUALVERIFY, OP_CHECKSIG]
  {
    hide ChunkFor, EncodeChunk, Encode;
    var items := OutputItems(a);
    var push := ChunkFor(Push(a.hash));
    EncodeNil();
    if a.kind == ScriptHash {
      var x, y := ChunkFor(Op(OP_HASH160)), ChunkFor(Op(OP_EQUAL));
      assert Built(items) == [x] + ([push] + ([y] + []));
      OpBytes(OP_HASH160); OpBytes(OP_EQUAL);
      EncodeFirst(y, []);
      EncodeFirst(push, [y] + []);
      EncodeFirst(x, [push] + ([y] + []));
    } else {
      var v, w := ChunkFor(Op(OP_DUP)), ChunkFor(Op(OP_HASH160));
      var x, y := ChunkFor(Op(OP_EQUALVERIFY)), ChunkFor(Op(OP_CHECKSIG));
      assert Built(items) == [v] + ([w] + ([push] + ([x] + ([y] + []))));
      OpBytes(OP_DUP); OpBytes(OP_HASH160); OpBytes(OP_EQUALVERIFY); OpBytes(OP_CHECKSIG);
      EncodeFirst(y, []);
      EncodeFirst(x, [y] + []);
      EncodeFirst(push, [x] + ([y] + []));
      EncodeFirst(w, [push] + ([x] + ([y] + [])));
      EncodeFirst(v, [w] + ([push] + ([x] + ([y] + []))));
    }
  }

  lemma OpBytes(op: byte)
    ensures EncodeChunk(ChunkFor(Op(op))) == Some([op])
  {
  }

  /** A pushed hash is one length byte and the hash, when it is 20 bytes; any other length gives
      another number of bytes. */
  lemma PushLength(data: Buffer)
    requires PushBytes(data).Some?
    ensures |PushBytes(data).value| == 21 <==> |data| == 20
    ensures |data| == 20 ==> PushBytes(data).value == [20] + data
    ensures |PushBytes(data).value| > |data|
  {
  }

  lemma EncodesSmall(data: Buffer)
    requires |data| == 20
    ensures PushBytes(data).Some?
  {
  }

  function P2PKH(hash: Buffer): Buffer {
    [OP_DUP, OP_HASH160, 20] + hash + [OP_EQUALVERIFY, OP_CHECKSIG]
  }

  function P2SH(hash: Buffer): Buffer {
    [OP_HASH160, 20] + hash + [OP_EQUAL]
  }

  /** A 20-byte hash gives the standard script; another length gives a script of another length. */
  lemma ScriptOf(a: Address)
    requires a.kind != Taproot
    ensures |a.hash| == 20 ==> Payload(a) == Some(if a.kind == ScriptHash then P2SH(a.hash) else P2PKH(a.hash))
    ensures Payload(a).Some? && |a.hash| != 20 ==> |Payload(a).value| != if a.kind == ScriptHash then 23 else 25
    ensures Payload(a).Some? ==>
      |Payload(a).value| > |a.hash| && Payload(a).value[0] == if a.kind == ScriptHash then OP_HASH160 else OP_DUP
  {
    hide PushBytes, Payload;
    PayloadBytes(a);
    if |a.hash| == 20 {
      EncodesSmall(a.hash);
    }
    if PushBytes(a.hash).Some? {
      PushLength(a.hash);
      if |a.hash| == 20 {
        assert [OP_DUP, OP_HASH160] + ([20] + a.hash) == [OP_DUP, OP_HASH160, 20] + a.hash;
        assert [OP_HASH160] + ([20] + a.hash) == [OP_HASH160, 20] + a.hash;
      }
    }
  }

  /** The embedded script gives the address back exactly when the hash has the kind's length. */
  lemma RecogniseIff(a: Address, prefix: string)
    requires Payload(a).Some?
    ensures Recognise(XAddress(Payload(a).value, a.network, KindOf([TypeByte(a.kind)]), prefix)) == Ok(a) <==>
      WellFormed(a)
  {
    if a.kind != Taproot {
      hide Payload;
      ScriptOf(a);
      var p := Payload(a).value;
      if WellFormed(a) {
        assert a.kind == PubKeyHash ==> p[..3] == [OP_DUP, OP_HASH160, 20] && p[3..23] == a.hash;
        assert a.kind == ScriptHash ==> p[..2] == [OP_HASH160, 20] && p[2..22] == a.hash;
      }
    }
  }

  // ----- Round trips -----

  lemma PlainTrim(s: string)
    requires s != [] ==> !IsSpace(s[0]) && !IsSpace(s[|s| - 1])
    ensures Trim(s) == s
  {
  }

  lemma StringShape(env: Env, p: Buffer, n: Network, k: Kind)
    requires Lawful(env)
    ensures var s := XEncode(env, XAddress(p, n, k, TOKEN_NAME));
      Trim(s) == s && ':' !in s && 0 < Split(s) < |s|
  {
    hide Checksum;
    var c := NetworkChar(n);
    var t := [TypeByte(k)];
    var body := env.base58(t + p + Checksum(env, TOKEN_NAME, [c], t, p));
    var s := TOKEN_NAME + [c] + body;
    assert Plain(body) && Plain(TOKEN_NAME) && NoSplit(TOKEN_NAME) && Plain([c]);
    assert Plain(s);
    PlainTrim(s);
    SplitAt(TOKEN_NAME, c, body);
  }

  /** Parsing an address's string on any network gives back hash, network and kind exactly when the
      hash has the length its kind calls for (33 bytes for Taproot, 20 for the others) and the
      caller insists on no other network: although P2PKH and P2SH share a type byte. */
  lemma RoundTripIff(env: Env, a: Address, network: Option<Network>, expected: Option<Network>)
    requires Lawful(env) && ToString(env, a, network).Some?
    ensures var n := if network.Some? then network.value else a.network;
      FromString(env, ToString(env, a, network).value, expected) == Ok(a.(network := n)) <==>
      WellFormed(a) && (expected.Some? ==> expected.value == n)
  {
    hide Checksum, Split, Trim, Recognise, Encode, Built, XDecode;
    var n := if network.Some? then network.value else a.network;
    var b := a.(network := n);
    var p := Payload(a).value;
    assert Payload(b) == Payload(a);
    StringShape(env, p, n, a.kind);
    assert NoSplit(TOKEN_NAME);
    DecodeLayout(env, TOKEN_NAME, n, TypeByte(a.kind), p);
    RecogniseIff(b, TOKEN_NAME);
    RecognisedLength(XAddress(p, n, KindOf([TypeByte(a.kind)]), TOKEN_NAME), b);
  }

  /** If the constructor turns a recognised address into one whose string it was, it left it alone. */
  lemma RecognisedLength(x: XAddress, b: Address)
    requires Payload(b).Some? && x == XAddress(Payload(b).value, b.network, KindOf([TypeByte(b.kind)]), x.prefix)
    ensures Recognise(x).Ok? && NewAddress(Recognise(x).value) == Ok(b) ==> Recognise(x) == Ok(b)
    ensures Recognise(x).Ok? ==> Recognise(x).value.network == b.network
  {
    if b.kind != Taproot {
      hide Payload;
      ScriptOf(b);
    }
  }

  // ----- Which strings are canonical -----

  /** The type byte and payload bytes that `toString` writes. In particular a P2PKH script must end
      in OP_EQUALVERIFY OP_CHECKSIG, which the parser does not look at. */
  predicate Canonical(t: Buffer, payload: Buffer) {
    || (t == [2] && |payload| == 33)
    || (t == [0] && P2PKHHead(payload) && payload[23..] == [OP_EQUALVERIFY, OP_CHECKSIG])
    || (t == [0] && P2SHScript(payload))
  }

  /** The parts of a string with a split point, when Base58 accepts the rest. */
  predicate HasParts(env: Env, s: string, prefix: string, n: Network, t: byte, payload: Buffer) {
    NoSplit(prefix) && prefix != [] &&
    s == prefix + [NetworkChar(n)] + env.base58([t] + payload + Checksum(env, prefix, [NetworkChar(n)], [t], payload))
  }

  /** The recognised shapes are the standard scripts, the P2PKH one up to its last two bytes. */
  lemma ScriptShapes(b: Buffer)
    ensures P2PKHHead(b) ==> (b == P2PKH(b[3..23]) <==> b[23..] == [OP_EQUALVERIFY, OP_CHECKSIG])
    ensures P2SHScript(b) ==> b == P2SH(b[2..22])
  {
    if P2PKHHead(b) {
      assert b == b[..3] + b[3..23] + b[23..];
      assert P2PKH(b[3..23])[23..] == [OP_EQUALVERIFY, OP_CHECKSIG];
    }
    if P2SHScript(b) {
      assert b == b[..2] + b[2..22] + [b[22]];
    }
  }

  lemma HeadsExclude(b: Buffer)
    ensures !(P2PKHHead(b) && P2SHScript(b))
  {
  }

  lemma CanonicalPayload(a: Address, t: byte, payload: Buffer, prefix: string)
    requires Recognise(XAddress(payload, a.network, KindOf([t]), prefix)) == Ok(a)
    ensures Canonical([t], payload) ==> Payload(a) == Some(payload) && TypeByte(a.kind) == t && WellFormed(a)
    ensures Payload(a) == Some(payload) && TypeByte(a.kind) == t ==> Canonical([t], payload)
  {
    if a.kind != Taproot {
      hide Payload, P2PKH, P2SH, P2PKHHead, P2SHScript;
      ScriptOf(a);
      ScriptShapes(payload);
      HeadsExclude(payload);
      SizesOf(payload);
    }
  }

  lemma SizesOf(b: Buffer)
    ensures (P2PKHHead(b) ==> |b| == 25) && (P2SHScript(b) ==> |b| == 23)
  {
  }

  /** A string in XAddress form that parses as an address is that address's own string exactly when
      its prefix is "lotus" and its type byte and payload are canonical. */
  lemma ReencodeIff(env: Env, prefix: string, n: Network, t: byte, payload: Buffer, s: string)
    requires Lawful(env) && HasParts(env, s, prefix, n, t, payload) && Trim(s) == s && ':' !in s
    requires FromString(env, s, None).Ok?
    ensures ToString(env, FromString(env, s, None).value, None) == Some(s) <==>
      prefix == TOKEN_NAME && Canonical([t], payload)
  {
    hide Checksum, Split, Trim, Recognise, Encode, Built, XDecode, Payload, Canonical, NewAddress;
    SplitAt(prefix, NetworkChar(n), env.base58([t] + payload + Checksum(env, prefix, [NetworkChar(n)], [t], payload)));
    DecodeLayout(env, prefix, n, t, payload);
    var x := XAddress(payload, n, KindOf([t]), prefix);
    var r := Recognise(x).value;
    var a := FromString(env, s, None).value;
    assert NewAddress(r) == Ok(a);
    RecognisedNetwork(x);
    CanonicalPayload(r, t, payload, prefix);
    if prefix == TOKEN_NAME && Canonical([t], payload) {
      WellFormedStays(r);
    }
    if ToString(env, a, None) == Some(s) {
      var p := Payload(a).value;
      NewNetwork(r);
      assert NoSplit(TOKEN_NAME);
      DecodeLayout(env, TOKEN_NAME, a.network, TypeByte(a.kind), p);
      assert p == payload && prefix == TOKEN_NAME;
      SameStringSameType(env, prefix, n, TypeByte(a.kind), t, payload);
      RecognisedLength(x, a);
    }
  }

  /** Every accepted string in XAddress form has that layout under a valid checksum; the overlap of
      type byte and checksum in a 4-byte body is never accepted. */
  lemma AcceptedHasParts(env: Env, s: string, expected: Option<Network>)
    returns (prefix: string, n: Network, t: byte, payload: Buffer)
    requires Lawful(env) && FromString(env, s, expected).Ok? && 0 < Split(Trim(s)) < |Trim(s)|
    ensures HasParts(env, Trim(s), prefix, n, t, payload) && n == FromString(env, s, expected).value.network
    ensures Recognise(XAddress(payload, n, KindOf([t]), prefix)).Ok?
    ensures NewAddress(Recognise(XAddress(payload, n, KindOf([t]), prefix)).value) == FromString(env, s, expected)
  {
    hide Checksum, Trim, Split, XDecode, Recognise, NewAddress, HasParts;
    var data := Trim(s);
    var x := XDecode(env, data).value;
    prefix, n, payload := x.prefix, x.network, x.hash;
    RecognisedNetwork(x);
    NewNetwork(Recognise(x).value);
    NoEmptyHash(x);
    t := DecodedParts(env, data);
  }

  /** A decoded string with a nonempty payload is laid out as the encoder does. */
  lemma DecodedParts(env: Env, data: string) returns (t: byte)
    requires Lawful(env) && 0 < Split(data) < |data| && XDecode(env, data).Ok? && XDecode(env, data).value.hash != []
    ensures var x := XDecode(env, data).value;
      HasParts(env, data, x.prefix, x.network, t, x.hash) && x.kind == KindOf([t])
  {
    hide Checksum;
    var i := Split(data);
    var x := XDecode(env, data).value;
    var b := env.unbase58(data[i + 1..]).value;
    t := b[0];
    assert [data[i]] == [NetworkChar(x.network)] && b[..1] == [t];
    assert b == [t] + x.hash + b[|b| - 4..];
    assert data == x.prefix + [data[i]] + data[i + 1..];
  }

  lemma NoEmptyHash(x: XAddress)
    requires Recognise(x).Ok? && NewAddress(Recognise(x).value).Ok?
    ensures x.hash != []
  {
  }

  lemma RecognisedNetwork(x: XAddress)
    ensures Recognise(x).Ok? ==> Recognise(x).value.network == x.network
  {
  }

  lemma NewNetwork(a: Address)
    ensures NewAddress(a).Ok? ==> NewAddress(a).value.network == a.network && NewAddress(a).value.kind == a.kind
  {
  }

  lemma WellFormedStays(a: Address)
    requires WellFormed(a)
    ensures NewAddress(a) == Ok(a)
  {
  }

  lemma SameStringSameType(env: Env, prefix: string, n: Network, t: byte, t': byte, payload: Buffer)
    requires Lawful(env)
    requires var c := [NetworkChar(n)];
      prefix + c + env.base58([t] + payload + Checksum(env, prefix, c, [t], payload)) ==
      prefix + c + env.base58([t'] + payload + Checksum(env, prefix, c, [t'], payload))
    ensures t == t'
  {
    hide Checksum;
    var c := [NetworkChar(n)];
    var b := [t] + payload + Checksum(env, prefix, c, [t], payload);
    var b' := [t'] + payload + Checksum(env, prefix, c, [t'], payload);
    var head := prefix + c;
    assert env.base58(b) == (head + env.base58(b))[|head|..];
    assert env.base58(b') == (head + env.base58(b'))[|head|..];
    assert env.unbase58(env.base58(b)) == Some(b) && env.unbase58(env.base58(b')) == Some(b');
    assert b[0] == t && b'[0] == t';
  }
}
