/** Address strings by position: which characters and bytes they consist of, what their checksum covers,
    and what every payload means (lib/bitcore/xaddress.ts, lib/bitcore/address.ts). */
module AddressStrings {
  import opened Buffers
  import opened Networks
  import opened Addresses

  /** The byte of the character that names the network. */
  function Mark(n: Network): byte {
    match n case Livenet => 0x5f case Testnet => 0x54 case Regtest => 0x52
  }

  predicate UpperOrUnderscore(b: int) {
    65 <= b <= 90 || b == 95
  }

  /** The prefix, the network's character, and the Base58 text of type byte, payload and four bytes. */
  predicate InLayout(env: Env, s: string, prefix: string, n: Network, t: byte, payload: Buffer, sum: Buffer) {
    && (forall i :: 0 <= i < |prefix| ==> !UpperOrUnderscore(prefix[i] as int))
    && |sum| == 4 && s == prefix + [Mark(n) as char] + env.base58([t] + payload + sum)
  }

  /** What the checksum is taken of. */
  function Hashed(env: Env, prefix: string, n: Network, t: byte, payload: Buffer): Buffer {
    env.utf8(prefix) + [Mark(n)] + [t] + payload
  }

  /** UTF-8 is injective, writes no byte of an upper-case letter or underscore for other characters,
      and writes those as themselves. */
  ghost predicate Utf8Laws(env: Env) {
    && (forall a, b :: env.utf8(a) == env.utf8(b) ==> a == b)
    && (forall s :: NoSplit(s) ==> NoMarks(env.utf8(s)))
    && (forall n: Network :: env.utf8([Mark(n) as char]) == [Mark(n)])
  }

  predicate NoMarks(b: Buffer) {
    forall i :: 0 <= i < |b| ==> !UpperOrUnderscore(b[i])
  }

  lemma Marks(n: Network)
    ensures NetworkChar(n) == Mark(n) as char && NetworkOf([Mark(n) as char]) == Some(n)
    ensures UpperOrUnderscore(Mark(n))
  {
  }

  lemma PrefixRule(prefix: string)
    ensures NoSplit(prefix) <==> forall i :: 0 <= i < |prefix| ==> !UpperOrUnderscore(prefix[i] as int)
  {
  }

  lemma ChecksumMeans(env: Env, prefix: string, n: Network, t: byte, payload: Buffer)
    requires Lawful(env) && Utf8Laws(env)
    ensures Checksum(env, prefix, [NetworkChar(n)], [t], payload) == env.sha256(Hashed(env, prefix, n, t, payload))[..4]
  {
    Marks(n);
    assert env.utf8([Mark(n) as char]) == [Mark(n)];
  }

  /** A string in the layout is accepted exactly when its four bytes start the SHA-256 of everything
      before them; with any other four bytes the checksum is reported as wrong. */
  lemma LayoutDecodesIff(env: Env, s: string, prefix: string, n: Network, t: byte, payload: Buffer, sum: Buffer)
    requires Lawful(env) && Utf8Laws(env) && InLayout(env, s, prefix, n, t, payload, sum)
    ensures XDecode(env, s) ==
      if sum != env.sha256(Hashed(env, prefix, n, t, payload))[..4] then Err(BadChecksum)
      else Ok(XAddress(payload, n, if t == 1 then ScriptHash else if t == 2 then Taproot else PubKeyHash, prefix))
  {
    hide Checksum, Split, Lawful, Utf8Laws;
    var c := [NetworkChar(n)];
    var b := [t] + payload + sum;
    Marks(n);
    PrefixRule(prefix);
    ChecksumMeans(env, prefix, n, t, payload);
    SplitAt(prefix, NetworkChar(n), env.base58(b));
    BodyComesBack(env, b);
    assert s[..|prefix|] == prefix && [s[|prefix|]] == c && s[|prefix| + 1..] == env.base58(b);
    assert b[..1] == [t] && b[1..|b| - 4] == payload && b[|b| - 4..] == sum;
  }

  lemma BodyComesBack(env: Env, b: Buffer)
    requires Lawful(env)
    ensures env.unbase58(env.base58(b)) == Some(b)
  {
  }

  /** Every address accepted in XAddress form comes from a string in the layout with that checksum. */
  lemma AcceptedInLayout(env: Env, s: string, expected: Option<Network>)
    returns (prefix: string, n: Network, t: byte, payload: Buffer, sum: Buffer)
    requires Lawful(env) && Utf8Laws(env)
    requires FromString(env, s, expected).Ok? && 0 < Split(Trim(s)) < |Trim(s)|
    ensures InLayout(env, Trim(s), prefix, n, t, payload, sum)
    ensures sum == env.sha256(Hashed(env, prefix, n, t, payload))[..4]
    ensures n == FromString(env, s, expected).value.network && (expected.Some? ==> expected.value == n)
  {
    hide Checksum, Split, Lawful, Utf8Laws, Trim, FromString;
    prefix, n, t, payload := AcceptedHasParts(env, s, expected);
    Marks(n);
    PrefixRule(prefix);
    ChecksumMeans(env, prefix, n, t, payload);
    SumLength(env, Hashed(env, prefix, n, t, payload));
    sum := Checksum(env, prefix, [NetworkChar(n)], [t], payload);
    Insisted(env, s, expected);
  }

  lemma SumLength(env: Env, b: Buffer)
    requires Lawful(env)
    ensures |env.sha256(b)[..4]| == 4
  {
  }

  lemma Insisted(env: Env, s: string, expected: Option<Network>)
    requires FromString(env, s, expected).Ok?
    ensures expected.Some? ==> expected.value == FromString(env, s, expected).value.network
  {
    hide Transform, Trim;
    NewNetworks();
  }

  lemma NewNetworks()
    ensures forall a: Address :: NewAddress(a).Ok? ==> NewAddress(a).value.network == a.network
  {
  }

  /** The checksum covers prefix, network, type and payload: two accepted strings with the same four
      bytes agree in all of them, or the two hashed inputs differ and their hashes start alike. */
  lemma ChecksumBinds(env: Env, s: string, prefix: string, n: Network, t: byte, payload: Buffer,
                      s': string, prefix': string, n': Network, t': byte, payload': Buffer, sum: Buffer)
    requires Lawful(env) && Utf8Laws(env)
    requires InLayout(env, s, prefix, n, t, payload, sum) && XDecode(env, s).Ok?
    requires InLayout(env, s', prefix', n', t', payload', sum) && XDecode(env, s').Ok?
    ensures var x, y := Hashed(env, prefix, n, t, payload), Hashed(env, prefix', n', t', payload');
      || (prefix == prefix' && n == n' && t == t' && payload == payload' && s == s')
      || (x != y && env.sha256(x)[..4] == env.sha256(y)[..4])
  {
    hide Hashed, XDecode, Utf8Laws, Lawful;
    LayoutDecodesIff(env, s, prefix, n, t, payload, sum);
    LayoutDecodesIff(env, s', prefix', n', t', payload', sum);
    SumLength(env, Hashed(env, prefix, n, t, payload));
    SumLength(env, Hashed(env, prefix', n', t', payload'));
    if Hashed(env, prefix, n, t, payload) == Hashed(env, prefix', n', t', payload') {
      HashedInjective(env, prefix, n, t, payload, prefix', n', t', payload');
    }
  }

  lemma HashedInjective(env: Env, prefix: string, n: Network, t: byte, payload: Buffer,
                        prefix': string, n': Network, t': byte, payload': Buffer)
    requires Utf8Laws(env) && NoSplit(prefix) && NoSplit(prefix')
    requires Hashed(env, prefix, n, t, payload) == Hashed(env, prefix', n', t', payload')
    ensures prefix == prefix' && n == n' && t == t' && payload == payload'
  {
    var a, b := env.utf8(prefix), env.utf8(prefix');
    Marks(n);
    Marks(n');
    assert Hashed(env, prefix, n, t, payload) == a + [Mark(n)] + ([t] + payload);
    assert Hashed(env, prefix', n', t', payload') == b + [Mark(n')] + ([t'] + payload');
    SameMark(a, Mark(n), [t] + payload, b, Mark(n'), [t'] + payload');
    assert ([t] + payload)[1..] == payload && ([t'] + payload')[1..] == payload';
    assert ([t] + payload)[0] == t && ([t'] + payload')[0] == t';
  }

  lemma SameMark(a: Buffer, m: byte, x: Buffer, b: Buffer, m': byte, y: Buffer)
    requires NoMarks(a) && NoMarks(b) && UpperOrUnderscore(m) && UpperOrUnderscore(m')
    requires a + [m] + x == b + [m'] + y
    ensures a == b && m == m' && x == y
  {
    var s, s' := a + [m] + x, b + [m'] + y;
    FirstMarkAt(a, m, x);
    FirstMarkAt(b, m', y);
    assert s[..|a|] == a && s'[..|b|] == b && s[|a|] == m && s'[|b|] == m' && s[|a| + 1..] == x && s'[|b| + 1..] == y;
  }

  function FirstMark(b: Buffer): (i: nat)
    ensures i <= |b| && NoMarks(b[..i]) && (i < |b| ==> UpperOrUnderscore(b[i]))
  {
    if b == [] || UpperOrUnderscore(b[0]) then 0
    else
      var i := FirstMark(b[1..]);
      assert b[..1 + i] == [b[0]] + b[1..][..i];
      1 + i
  }

  lemma {:induction false} FirstMarkAt(a: Buffer, m: byte, x: Buffer)
    requires NoMarks(a) && UpperOrUnderscore(m)
    ensures FirstMark(a + [m] + x) == |a|
  {
    var s := a + [m] + x;
    if a != [] {
      FirstMarkAt(a[1..], m, x);
      assert s[0] == a[0] && s[1..] == a[1..] + [m] + x;
    }
  }

  // ----- What the strings mean -----

  /** The address in a string of the layout with a valid checksum, without blanks and colons in its prefix:
      33 bytes, or an output script that starts with 0x62 0x51 0x21, for type 2; and for every other type
      the two standard scripts, or a bare hash, which may carry a version byte. */
  lemma PayloadTable(env: Env, s: string, prefix: string, n: Network, t: byte, payload: Buffer, sum: Buffer)
    requires Lawful(env) && Utf8Laws(env) && InLayout(env, s, prefix, n, t, payload, sum)
    requires prefix != [] && Plain(prefix) && sum == env.sha256(Hashed(env, prefix, n, t, payload))[..4]
    ensures var p, size := payload, |payload|;
      FromString(env, s, None) ==
        if t == 2 && size == 36 && p[..3] == [0x62, 0x51, 0x21] then Ok(Address(p[3..], n, Taproot))
        else if t == 2 && size == 33 then Ok(Address(p, n, Taproot))
        else if t == 2 then Err(BadTaprootLength)
        else if size == 25 && p[..3] == [0x76, 0xa9, 0x14] then Ok(Address(p[3..23], n, PubKeyHash))
        else if size == 23 && p[..2] == [0xa9, 0x14] && p[22] == 0x87 then Ok(Address(p[2..22], n, ScriptHash))
        else if size == 20 || size == 33 then Ok(Address(p, n, PubKeyHash))
        else if size == 21 && ((n == Livenet && p[0] == 0) || (n == Testnet && p[0] == 0x6f)) then
          Ok(Address(p[1..], n, PubKeyHash))
        else if size == 21 then Err(BadVersion)
        else Err(NoHash)
    ensures forall m: Network ::
      var plain := FromString(env, s, None);
      FromString(env, s, Some(m)) == if plain != Err(BadTaprootLength) && m != n then Err(WrongNetwork) else plain
  {
    hide Split, Lawful, Utf8Laws, Trim, XDecode, Hashed, Recognise;
    LayoutDecodesIff(env, s, prefix, n, t, payload, sum);
    PlainLayout(env, s, prefix, n, t, payload, sum);
    var kind := if t == 1 then ScriptHash else if t == 2 then Taproot else PubKeyHash;
    RecogniseTable(XAddress(payload, n, kind, prefix));
  }

  /** Texts without an inner upper-case letter or underscore are left to the legacy parser, and no text
      with a colon parses. */
  lemma OtherForms(env: Env, s: string)
    ensures ':' in s ==> FromString(env, s, None) == Err(EndlessRecursion)
    ensures ':' !in s && (Split(Trim(s)) == 0 || Split(Trim(s)) == |Trim(s)|) ==>
      FromString(env, s, None) == match env.legacy(Trim(s))
        case None => Err(BadLegacyString)
        case Some(a) => NewAddress(a)
  {
    hide Split, Trim;
    TrimKeepsColons(s);
  }

  /** What `toXAddress` writes for any prefix and payload. */
  lemma XStringMeans(env: Env, x: XAddress)
    requires Lawful(env) && Utf8Laws(env)
    ensures var t := if x.kind == Taproot then 2 else 0;
      XEncode(env, x) == x.prefix + [Mark(x.network) as char]
        + env.base58([t] + x.hash + env.sha256(Hashed(env, x.prefix, x.network, t, x.hash))[..4])
  {
    hide Hashed, Checksum, Lawful, Utf8Laws;
    var t := if x.kind == Taproot then 2 else 0;
    Marks(x.network);
    ChecksumMeans(env, x.prefix, x.network, t, x.hash);
  }

  lemma RecogniseTable(x: XAddress)
    ensures var p, size := x.hash, |x.hash|;
      Recognise(x) ==
        if x.kind == Taproot then
          if size == 36 && p[..3] == [0x62, 0x51, 0x21] then Ok(Address(p[3..], x.network, Taproot))
          else if size == 33 then Ok(Address(p, x.network, Taproot))
          else Err(BadTaprootLength)
        else if size == 25 && p[..3] == [0x76, 0xa9, 0x14] then Ok(Address(p[3..23], x.network, PubKeyHash))
        else if size == 23 && p[..2] == [0xa9, 0x14] && p[22] == 0x87 then Ok(Address(p[2..22], x.network, ScriptHash))
        else Ok(Address(p, x.network, PubKeyHash))
  {
    assert |x.hash| == 36 ==> x.hash[3..] == x.hash[3..36];
  }

  lemma PlainLayout(env: Env, s: string, prefix: string, n: Network, t: byte, payload: Buffer, sum: Buffer)
    requires Lawful(env) && InLayout(env, s, prefix, n, t, payload, sum) && prefix != [] && Plain(prefix)
    ensures Trim(s) == s && ':' !in s && 0 < Split(s) < |s|
  {
    hide Trim, Split, Lawful;
    var body := env.base58([t] + payload + sum);
    PlainBody(env, [t] + payload + sum);
    Marks(n);
    PlainConcat(prefix, [NetworkChar(n)]);
    PlainConcat(prefix + [NetworkChar(n)], body);
    NotColon(s);
    PlainTrim(s);
    PrefixRule(prefix);
    SplitAt(prefix, NetworkChar(n), body);
  }

  lemma PlainBody(env: Env, b: Buffer)
    requires Lawful(env)
    ensures Plain(env.base58(b))
  {
  }

  lemma PlainConcat(a: string, b: string)
    requires Plain(a) && Plain(b)
    ensures Plain(a + b)
  {
  }

  lemma NotColon(s: string)
    requires Plain(s)
    ensures ':' !in s
  {
  }

  /** The string of every address with a hash of its kind's length: "lotus", the network's mark, and the
      type, script and checksum; the script is the standard one of the kind, for Taproot the key alone. */
  lemma StringFields(env: Env, a: Address, network: Option<Network>) returns (payload: Buffer)
    requires Lawful(env) && Utf8Laws(env) && WellFormed(a)
    ensures var n := if network.Some? then network.value else a.network;
      var t := if a.kind == Taproot then 2 else 0;
      var sum := env.sha256(Hashed(env, "lotus", n, t, payload))[..4];
      ToString(env, a, network).Some? && InLayout(env, ToString(env, a, network).value, "lotus", n, t, payload, sum)
    ensures a.kind == Taproot ==> payload == a.hash
    ensures a.kind == PubKeyHash ==>
      |payload| == 25 && payload[..3] == [0x76, 0xa9, 0x14] && payload[3..23] == a.hash && payload[23..] == [0x88, 0xac]
    ensures a.kind == ScriptHash ==>
      |payload| == 23 && payload[..2] == [0xa9, 0x14] && payload[2..22] == a.hash && payload[22] == 0x87
  {
    hide Checksum, Lawful, Utf8Laws, Hashed, Payload;
    payload := StandardPayload(a);
    var n := if network.Some? then network.value else a.network;
    var t := if a.kind == Taproot then 2 else 0;
    Marks(n);
    ChecksumMeans(env, "lotus", n, t, payload);
    SumLength(env, Hashed(env, "lotus", n, t, payload));
  }

  lemma StandardPayload(a: Address) returns (p: Buffer)
    requires WellFormed(a)
    ensures Payload(a) == Some(p)
    ensures a.kind == Taproot ==> p == a.hash
    ensures a.kind == PubKeyHash ==>
      |p| == 25 && p[..3] == [0x76, 0xa9, 0x14] && p[3..23] == a.hash && p[23..] == [0x88, 0xac]
    ensures a.kind == ScriptHash ==> |p| == 23 && p[..2] == [0xa9, 0x14] && p[2..22] == a.hash && p[22] == 0x87
  {
    if a.kind == Taproot {
      p := a.hash;
    } else {
      hide Payload;
      ScriptOf(a);
      p := Payload(a).value;
      assert a.kind == PubKeyHash ==> p[..3] == [0x76, 0xa9, 0x14] && p[3..23] == a.hash && p[23..] == [0x88, 0xac];
      assert a.kind == ScriptHash ==> p[..2] == [0xa9, 0x14] && p[2..22] == a.hash;
    }
  }

  // ----- Blanks -----

  /** The characters ECMAScript trims. */
  predicate Blank(c: char) {
    c as int in {9, 10, 11, 12, 13, 32, 160, 0x1680, 0x2000, 0x2001, 0x2002, 0x2003, 0x2004, 0x2005, 0x2006, 0x2007,
                 0x2008, 0x2009, 0x200a, 0x2028, 0x2029, 0x202f, 0x205f, 0x3000, 0xfeff}
  }

  lemma SpaceIff(c: char)
    ensures IsSpace(c) <==> Blank(c)
  {
  }

  predicate AllBlank(s: string) {
    forall i :: 0 <= i < |s| ==> Blank(s[i])
  }

  /** A text is its trimmed middle between two runs of blanks, and the middle has no blank at its ends. */
  lemma {:induction false} TrimMeans(s: string) returns (before: string, after: string)
    ensures s == before + Trim(s) + after && AllBlank(before) && AllBlank(after)
    ensures var t := Trim(s); t != [] ==> !Blank(t[0]) && !Blank(t[|t| - 1])
  {
    hide IsSpace, Blank;
    before, after := "", "";
    forall c ensures IsSpace(c) <==> Blank(c) {
      SpaceIff(c);
    }
    if s != [] && IsSpace(s[0]) {
      before, after := TrimMeans(s[1..]);
      before := [s[0]] + before;
      assert s == [s[0]] + s[1..];
    } else if s != [] && IsSpace(s[|s| - 1]) {
      before, after := TrimMeans(s[..|s| - 1]);
      after := after + [s[|s| - 1]];
      assert s == s[..|s| - 1] + [s[|s| - 1]];
    }
  }

  // ----- UTF-8 -----

  /** The bytes of one character. */
  function Utf8Char(c: char): Buffer {
    var n := c as int;
    if n < 0x80 then [n]
    else if n < 0x800 then [0xc0 + n / 64, 0x80 + n % 64]
    else if n < 0x1_0000 then [0xe0 + n / 4096, 0x80 + n / 64 % 64, 0x80 + n % 64]
    else [0xf0 + n / 262144, 0x80 + n / 4096 % 64, 0x80 + n / 64 % 64, 0x80 + n % 64]
  }

  function Utf8(s: string): Buffer {
    if s == [] then [] else Utf8Char(s[0]) + Utf8(s[1..])
  }

  /** UTF-8 itself meets the laws. */
  lemma Utf8IsLawful(env: Env)
    requires env.utf8 == Utf8
    ensures Utf8Laws(env)
  {
    forall a, b | Utf8(a) == Utf8(b) ensures a == b {
      Utf8Injective(a, b);
    }
    forall s | NoSplit(s) ensures NoMarks(Utf8(s)) {
      Utf8Marks(s);
    }
    forall n: Network ensures Utf8([Mark(n) as char]) == [Mark(n)] {
      OneByte(Mark(n));
    }
  }

  lemma OneByte(b: byte)
    requires b < 0x80
    ensures Utf8([b as char]) == [b]
  {
    assert [b as char][1..] == "";
  }

  /** The code point at the front of b, and its length. */
  function FrontChar(b: Buffer): (int, nat)
    requires b != []
  {
    var first: int := b[0];
    if first < 0x80 then (first, 1)
    else if first < 0xe0 then ((first - 0xc0) * 64 + Rest(b, 1), 2)
    else if first < 0xf0 then ((first - 0xe0) * 4096 + Rest(b, 1) * 64 + Rest(b, 2), 3)
    else ((first - 0xf0) * 262144 + Rest(b, 1) * 4096 + Rest(b, 2) * 64 + Rest(b, 3), 4)
  }

  function Rest(b: Buffer, i: nat): int {
    if i < |b| then b[i] as int - 0x80 else 0
  }

  lemma FrontOfChar(c: char, rest: Buffer)
    ensures Utf8Char(c) != [] && FrontChar(Utf8Char(c) + rest) == (c as int, |Utf8Char(c)|)
  {
    SixBits(c as int);
  }

  lemma SixBits(n: nat)
    ensures n == n / 64 * 64 + n % 64 && n / 64 == n / 4096 * 64 + n / 64 % 64
    ensures n / 4096 == n / 262144 * 64 + n / 4096 % 64
  {
    DivDiv(n, 64);
    DivDiv(n, 4096);
  }

  lemma DivDiv(n: nat, m: nat)
    requires m == 64 || m == 4096
    ensures n / m / 64 == n / (m * 64)
  {
  }

  lemma {:induction false} Utf8Injective(a: string, b: string)
    requires Utf8(a) == Utf8(b)
    ensures a == b
  {
    hide Utf8Char, FrontChar;
    if a != [] && b != [] {
      var x, y := Utf8Char(a[0]), Utf8Char(b[0]);
      FrontOfChar(a[0], Utf8(a[1..]));
      FrontOfChar(b[0], Utf8(b[1..]));
      assert Utf8(a)[|x|..] == Utf8(a[1..]) && Utf8(b)[|y|..] == Utf8(b[1..]);
      Utf8Injective(a[1..], b[1..]);
      assert a == [a[0]] + a[1..] && b == [b[0]] + b[1..];
    } else {
      NotEmpty(a);
      NotEmpty(b);
    }
  }

  lemma NotEmpty(s: string)
    ensures Utf8(s) == [] <==> s == []
  {
    if s != [] {
      FrontOfChar(s[0], Utf8(s[1..]));
    }
  }

  lemma {:induction false} Utf8Marks(s: string)
    requires NoSplit(s)
    ensures NoMarks(Utf8(s))
  {
    if s != [] {
      Utf8Marks(s[1..]);
      assert NoMarks(Utf8Char(s[0]));
    }
  }
}
