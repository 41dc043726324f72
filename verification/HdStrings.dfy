/** Extended keys as strings, and derivation paths (lib/bitcore/hdprivatekey.ts and
    lib/bitcore/hdpublickey.ts). `Number(text)` is a parameter; None is NaN. */
module HdStrings {
  import opened Buffers
  import opened EllipticCurve
  import opened PublicKeys
  import opened Networks
  import opened HdKeys
  import opened Base58

  const DATA_SIZE := 78

  // ----- The 78 bytes -----

  predicate Serialisable(k: HDPrivateKey) {
    k.depth <= 255 && |k.parentFingerPrint| == 4 && k.childIndex < MAX_INDEX && |k.chainCode| == 32
  }

  function Header(version: nat, depth: byte, parentFingerPrint: Buffer, childIndex: nat, chainCode: Buffer): Buffer {
    BE(version, 4) + [depth] + parentFingerPrint + BE(childIndex, 4) + chainCode
  }

  function PrivateBytes(k: HDPrivateKey): Buffer
    requires Serialisable(k)
  {
    Header(XPrivVersion(k.network), k.depth, k.parentFingerPrint, k.childIndex, k.chainCode) + [0] + BE(k.d, 32)
  }

  function PublicBytes(k: HDPublicKey): Buffer
    requires k.point.Affine? && k.depth <= 255
  {
    Header(k.version, k.depth, k.parentFingerPrint, k.childIndex, k.chainCode) + ToDER(PublicKey(k.point, true))
  }

  /** `_transformBuffer` and the PrivateKey constructor. */
  function ParsePrivate(c: Curve, b: Buffer): Option<HDPrivateKey> {
    if |b| != DATA_SIZE then None
    else match FirstByXPriv(FromBE(b[..4]))
      case None => None
      case Some(network) =>
        var d := FromBE(b[46..]);
        if d == 0 || d >= c.n then None
        else Some(HDPrivateKey(network, b[4], b[5..9], FromBE(b[9..13]), b[13..45], d, b[45] == 1))
  }

  /** `_buildFromSerialized` after the checksum test; the version bytes are kept as they are. */
  function ParsePublic(c: Curve, b: Buffer): Option<HDPublicKey> {
    if |b| != DATA_SIZE then None
    else match FromDER(c, b[45..])
      case None => None
      case Some(key) =>
        Some(HDPublicKey(FromBE(b[..4]), b[4], b[5..9], FromBE(b[9..13]), b[13..45], key.point))
  }

  function ToXpriv(sha: Buffer -> Buffer, k: HDPrivateKey): string
    requires Serialisable(k)
  {
    CheckEncode(sha, PrivateBytes(k))
  }

  function FromXpriv(sha: Buffer -> Buffer, c: Curve, s: string): Option<HDPrivateKey> {
    match CheckDecode(sha, s) case None => None case Some(b) => ParsePrivate(c, b)
  }

  function ToXpub(sha: Buffer -> Buffer, k: HDPublicKey): string
    requires k.point.Affine? && k.depth <= 255
  {
    CheckEncode(sha, PublicBytes(k))
  }

  function FromXpub(sha: Buffer -> Buffer, c: Curve, s: string): Option<HDPublicKey> {
    match CheckDecode(sha, s) case None => None case Some(b) => ParsePublic(c, b)
  }

  lemma HeaderFields(version: nat, depth: byte, pfp: Buffer, index: nat, chainCode: Buffer, tail: Buffer)
    requires version < MAX_INDEX && |pfp| == 4 && index < MAX_INDEX && |chainCode| == 32 && |tail| == 33
    ensures var b := Header(version, depth, pfp, index, chainCode) + tail;
      && |b| == DATA_SIZE && FromBE(b[..4]) == version && b[4] == depth && b[5..9] == pfp
      && FromBE(b[9..13]) == index && b[13..45] == chainCode && b[45..] == tail
  {
    hide BE, FromBE;
    var v, i := BE(version, 4), BE(index, 4);
    FourByteRange();
    BEInverse(version, 4);
    BEInverse(index, 4);
    var b := v + [depth] + pfp + i + chainCode + tail;
    assert b[..4] == v && b[9..13] == i;
  }

  lemma FourByteRange()
    ensures Pow256(4) == MAX_INDEX
  {
  }

  /** What comes back from an extended private key's string: everything but the compressed flag,
      which is never written and so reads false, and regtest, whose version is testnet's. */
  lemma XprivRoundTrip(sha: Buffer -> Buffer, env: Env, k: HDPrivateKey)
    requires HashLength(sha) && ValidPrivate(env, k) && Serialisable(k)
    ensures FromXpriv(sha, env.curve, ToXpriv(sha, k)) ==
      Some(k.(compressed := false, network := if k.network == Regtest then Testnet else k.network))
    ensures FromXpriv(sha, env.curve, ToXpriv(sha, k)) == Some(k) <==> !k.compressed && k.network != Regtest
  {
    hide CheckEncode, CheckDecode, ParsePrivate, Lawful;
    CheckDecodeIff(sha, ToXpriv(sha, k), PrivateBytes(k));
    SecretRange(env, k);
    ParseWritten(env.curve, k);
  }

  lemma ParseWritten(c: Curve, k: HDPrivateKey)
    requires Serialisable(k) && 0 < k.d < c.n && k.d < Pow256(32)
    ensures ParsePrivate(c, PrivateBytes(k)) ==
      Some(k.(compressed := false, network := if k.network == Regtest then Testnet else k.network))
  {
    hide BE, FromBE, Header, Pow256;
    var tail := [0] + BE(k.d, 32);
    ConcatAssoc(Header(XPrivVersion(k.network), k.depth, k.parentFingerPrint, k.childIndex, k.chainCode),
                [0], BE(k.d, 32));
    HeaderFields(XPrivVersion(k.network), k.depth, k.parentFingerPrint, k.childIndex, k.chainCode, tail);
    var b := PrivateBytes(k);
    assert b[46..] == b[45..][1..] == BE(k.d, 32) && b[45] == b[45..][0] == 0;
    BEInverse(k.d, 32);
  }

  /** An accepted string is written back exactly when its filler byte is zero. */
  lemma XprivReserialisesIff(sha: Buffer -> Buffer, c: Curve, s: string)
    requires HashLength(sha) && FromXpriv(sha, c, s).Some?
    ensures Serialisable(FromXpriv(sha, c, s).value)
    ensures ToXpriv(sha, FromXpriv(sha, c, s).value) == s <==> CheckDecode(sha, s).value[45] == 0
  {
    hide BE, FromBE, Header, CheckEncode, CheckDecode;
    var b := CheckDecode(sha, s).value;
    var k := ParsePrivate(c, b).value;
    FourByteRange();
    FromBERange(b[9..13]);
    PrivateParts(c, b);
    CheckDecodeIff(sha, s, b);
    CheckDecodeIff(sha, ToXpriv(sha, k), PrivateBytes(k));
    CheckDecodeIff(sha, s, PrivateBytes(k));
  }

  lemma FromBERange(b: Buffer)
    ensures FromBE(b) < Pow256(|b|)
  {
  }

  lemma PrivateParts(c: Curve, b: Buffer)
    requires ParsePrivate(c, b).Some? && Serialisable(ParsePrivate(c, b).value)
    ensures PrivateBytes(ParsePrivate(c, b).value) == b <==> b[45] == 0
  {
    hide BE, FromBE;
    var k := ParsePrivate(c, b).value;
    FromBEInverse(b[..4]);
    FromBEInverse(b[9..13]);
    FromBEInverse(b[46..]);
    assert |b[..4]| == 4 && |b[9..13]| == 4 && |b[46..]| == 32;
    var h := b[..4] + [b[4]] + b[5..9] + b[9..13] + b[13..45];
    assert h == b[..45];
    var r := PrivateBytes(k);
    assert r == h + [0] + b[46..];
    assert b == h + [b[45]] + b[46..];
    assert r[45] == 0;
  }

  /** An extended public key comes back whole from its string. */
  lemma XpubRoundTrip(sha: Buffer -> Buffer, c: Curve, k: HDPublicKey)
    requires HashLength(sha) && Lawful(c) && ValidKey(c, PublicKey(k.point, true))
    requires k.version < MAX_INDEX && k.depth <= 255 && |k.parentFingerPrint| == 4
    requires k.childIndex < MAX_INDEX && |k.chainCode| == 32
    ensures FromXpub(sha, c, ToXpub(sha, k)) == Some(k)
  {
    hide BE, FromBE, Header, CheckEncode, CheckDecode, ToDER, FromDER, Lawful;
    CheckDecodeIff(sha, ToXpub(sha, k), PublicBytes(k));
    HeaderFields(k.version, k.depth, k.parentFingerPrint, k.childIndex, k.chainCode, ToDER(PublicKey(k.point, true)));
    DERRoundTrip(c, PublicKey(k.point, true));
  }

  // ----- The fields by position -----

  predicate Fields(b: Buffer, version: nat, depth: nat, parentFingerPrint: Buffer, childIndex: nat, chainCode: Buffer) {
    && |b| == 78 && FromBE(b[..4]) == version && b[4] == depth && b[5..9] == parentFingerPrint
    && FromBE(b[9..13]) == childIndex && b[13..45] == chainCode
  }

  /** Where each field of an extended key is written, with the version numbers of the networks. */
  lemma WrittenFields(env: Env, k: HDPrivateKey)
    requires ValidPrivate(env, k) && Serialisable(k)
    ensures PointOf(env, k).Affine?
    ensures var b := PrivateBytes(k);
      && Fields(b, if k.network == Livenet then 0x0488ade4 else 0x04358394, k.depth, k.parentFingerPrint, k.childIndex,
                k.chainCode)
      && b[45] == 0 && FromBE(b[46..]) == k.d
    ensures var b := PublicBytes(Neuter(env, k));
      && Fields(b, if k.network == Livenet then 0x0488b21e else 0x043587cf, k.depth, k.parentFingerPrint, k.childIndex,
                k.chainCode)
      && FromDER(env.curve, b[45..]) == Some(PublicKey(PointOf(env, k), true))
  {
    hide BE, FromBE, Header, Pow256, Lawful, ToDER, FromDER, Mul;
    SecretRange(env, k);
    PointOfIsFinite(env, k);
    var tail := [0] + BE(k.d, 32);
    var h := Header(XPrivVersion(k.network), k.depth, k.parentFingerPrint, k.childIndex, k.chainCode);
    ConcatAssoc(h, [0], BE(k.d, 32));
    HeaderFields(XPrivVersion(k.network), k.depth, k.parentFingerPrint, k.childIndex, k.chainCode, tail);
    var b := PrivateBytes(k);
    assert b[46..] == b[45..][1..] == BE(k.d, 32) && b[45] == b[45..][0] == 0;
    BEInverse(k.d, 32);
    var der := ToDER(PublicKey(PointOf(env, k), true));
    DERRoundTrip(env.curve, PublicKey(PointOf(env, k), true));
    DERFields(env.curve, PublicKey(PointOf(env, k), true));
    HeaderFields(XPubVersion(k.network), k.depth, k.parentFingerPrint, k.childIndex, k.chainCode, der);
  }

  /** What is read: 78 bytes with a private version number and a secret between 1 and n - 1; the filler
      byte becomes the compressed flag. */
  lemma ParsePrivateIff(c: Curve, b: Buffer, k: HDPrivateKey)
    ensures ParsePrivate(c, b) == Some(k) <==>
      && k.network != Regtest
      && Fields(b, if k.network == Livenet then 0x0488ade4 else 0x04358394, k.depth, k.parentFingerPrint, k.childIndex,
                k.chainCode)
      && FromBE(b[46..]) == k.d && 0 < k.d < c.n && k.compressed == (b[45] == 1)
  {
    hide FromBE;
  }

  lemma ParsePublicIff(c: Curve, b: Buffer, k: HDPublicKey)
    ensures ParsePublic(c, b) == Some(k) <==>
      && Fields(b, k.version, k.depth, k.parentFingerPrint, k.childIndex, k.chainCode)
      && FromDER(c, b[45..]) == Some(PublicKey(k.point, true))
  {
    hide FromBE, FromDER;
    if |b| == 78 && FromDER(c, b[45..]).Some? {
      ReadCompressed(c, b[45..]);
    }
  }

  lemma ReadCompressed(c: Curve, b: Buffer)
    requires |b| == 33 && FromDER(c, b).Some?
    ensures FromDER(c, b).value.compressed
  {
  }

  /** `toBuffer` of the private key: one zeroed buffer, filled field by field. */
  method ToBuffer(k: HDPrivateKey) returns (buf: array<byte>)
    requires Serialisable(k)
    ensures fresh(buf) && buf[..] == PrivateBytes(k)
  {
    hide BE;
    buf := new byte[78](_ => 0);
    WriteAt(buf, 0, BE(XPrivVersion(k.network), 4));
    WriteAt(buf, 4, [k.depth]);
    WriteAt(buf, 5, k.parentFingerPrint);
    WriteAt(buf, 9, BE(k.childIndex, 4));
    WriteAt(buf, 13, k.chainCode);
    assert buf[45] == 0;
    WriteAt(buf, 46, BE(k.d, 32));
    ghost var h := Header(XPrivVersion(k.network), k.depth, k.parentFingerPrint, k.childIndex, k.chainCode);
    assert buf[..] == h + [0] + BE(k.d, 32);
  }

  /** `data.copy(buf, at)`. */
  method WriteAt(buf: array<byte>, at: nat, data: Buffer)
    requires at + |data| <= buf.Length
    modifies buf
    ensures buf[at..at + |data|] == data
    ensures forall i :: 0 <= i < buf.Length && !(at <= i < at + |data|) ==> buf[i] == old(buf[i])
  {
    for i := 0 to |data|
      invariant buf[at..at + i] == data[..i]
      invariant forall j :: 0 <= j < buf.Length && !(at <= j < at + i) ==> buf[j] == old(buf[j])
    {
      buf[at + i] := data[i];
    }
  }

  // ----- Paths -----

  type Number = string -> Option<int>

  /** `path.split('/')`. */
  function Steps(path: string): (steps: seq<string>)
    ensures |steps| >= 1
  {
    if path == "" then [""]
    else if path[0] == '/' then [""] + Steps(path[1..])
    else var rest := Steps(path[1..]); [[path[0]] + rest[0]] + rest[1..]
  }

  predicate RootAlias(s: string) {
    s == "m" || s == "M" || s == "m'" || s == "M'"
  }

  /** One step of a private path; None is NaN. */
  function PrivateIndex(number: Number, step: string): Option<int> {
    var hardened := step != "" && step[|step| - 1] == '\'';
    var text := if hardened then step[..|step| - 1] else step;
    if text == "" || text[0] == '-' then None
    else match number(text)
      case None => None
      case Some(i) => Some(if hardened then i + HARDENED else i)
  }

  function PrivateIndexes(number: Number, steps: seq<string>): Option<seq<int>> {
    if steps == [] then Some([])
    else match (PrivateIndex(number, steps[0]), PrivateIndexes(number, steps[1..]))
      case (Some(i), Some(rest)) => Some([i] + rest)
      case _ => None
  }

  function PublicIndexes(number: Number, steps: seq<string>): Option<seq<int>> {
    if steps == [] then Some([])
    else match (number(steps[0]), PublicIndexes(number, steps[1..]))
      case (Some(i), Some(rest)) => Some([i] + rest)
      case _ => None
  }

  /** `_getDerivationIndexes`. */
  function ParsePrivatePath(number: Number, path: string): Option<seq<int>> {
    if RootAlias(path) then Some([])
    else if !RootAlias(Steps(path)[0]) then None
    else PrivateIndexes(number, Steps(path)[1..])
  }

  /** `_deriveFromString` of the private key. */
  function DerivePrivateString(env: Env, number: Number, k: HDPrivateKey, path: string,
                               nonCompliant: bool): (r: Option<HDPrivateKey>)
    requires ValidPrivate(env, k)
    ensures r.Some? ==> ValidPrivate(env, r.value)
  {
    match ParsePrivatePath(number, path) case None => None case Some(ix) => DerivePrivatePath(env, k, ix, nonCompliant)
  }

  /** `_deriveFromString` of the public key: no quote, and a NaN fails the range test. */
  function DerivePublicString(env: Env, number: Number, k: HDPublicKey, path: string): (r: Option<HDPublicKey>)
    requires k.point.Affine?
    ensures r.Some? ==> r.value.point.Affine?
  {
    if '\'' in path then None
    else match PublicIndexes(number, Steps(path)[1..]) case None => None case Some(ix) => DerivePublicPath(env, k, ix)
  }

  /** The steps a private path allows beyond what a public one does: none empty, none negative. */
  predicate PlainStep(step: string) {
    step != "" && step[0] != '-'
  }

  predicate PlainSteps(steps: seq<string>) {
    forall i :: 0 <= i < |steps| ==> PlainStep(steps[i])
  }

  lemma {:induction false} NoQuotes(path: string)
    requires '\'' !in path
    ensures forall i :: 0 <= i < |Steps(path)| ==> '\'' !in Steps(path)[i]
  {
    if path != "" {
      NoQuotes(path[1..]);
    }
  }

  lemma {:induction false} IndexesAgreeIff(number: Number, steps: seq<string>)
    requires forall i :: 0 <= i < |steps| ==> '\'' !in steps[i]
    ensures PrivateIndexes(number, steps).Some? <==> PublicIndexes(number, steps).Some? && PlainSteps(steps)
    ensures PrivateIndexes(number, steps).Some? ==> PrivateIndexes(number, steps) == PublicIndexes(number, steps)
  {
    if steps != [] {
      IndexesAgreeIff(number, steps[1..]);
      assert PlainSteps(steps) <==> PlainStep(steps[0]) && PlainSteps(steps[1..]);
    }
  }

  lemma AliasSteps(path: string)
    requires RootAlias(path) && '\'' !in path
    ensures Steps(path) == [path]
  {
    assert path == "m" || path == "M";
    assert path[1..] == "" && Steps("") == [""];
    assert [path[0]] + "" == path;
  }

  /** Without a quote, a path of normal indices means the same to both parsers exactly when it
      starts at the root and has no empty or negative step; the public parser checks neither. */
  lemma PathsAgreeIff(number: Number, path: string)
    requires '\'' !in path
    ensures ParsePrivatePath(number, path) == PublicIndexes(number, Steps(path)[1..]) &&
            ParsePrivatePath(number, path).Some?
      <==> PublicIndexes(number, Steps(path)[1..]).Some? && RootAlias(Steps(path)[0]) && PlainSteps(Steps(path)[1..])
  {
    var steps := Steps(path)[1..];
    NoQuotes(path);
    IndexesAgreeIff(number, steps);
    if RootAlias(path) {
      AliasSteps(path);
    }
  }

  /** Derivation by path string commutes with neutering, for every path the private parser reads: the
      public side succeeds within 255 levels exactly when the path has no quote and no private step
      throws or leaves the normal range, and then gives the public key of the private result. */
  lemma StringDerivationCommutes(env: Env, number: Number, k: HDPrivateKey, path: string, nonCompliant: bool)
    requires ValidPrivate(env, k) && ParsePrivatePath(number, path).Some?
    ensures PointOf(env, k).Affine?
    ensures var ix := ParsePrivatePath(number, path).value;
      var public := DerivePublicString(env, number, Neuter(env, k), path);
      && (public.Some? && k.depth + |ix| <= 255 <==> '\'' !in path && StaysNormal(env, k, ix, nonCompliant))
      && (public.Some? && k.depth + |ix| <= 255 ==>
            DerivePrivateString(env, number, k, path, nonCompliant).Some?
            && Agree(env, public.value, DerivePrivateString(env, number, k, path, nonCompliant).value))
  {
    hide Lawful, Mul, DerivePublicPath, DerivePrivatePath, StaysNormal, Steps, PublicIndexes, PrivateIndexes,
      PointOf, Agree;
    var ix := ParsePrivatePath(number, path).value;
    DerivationCommutes(env, k, ix, nonCompliant);
    if '\'' !in path {
      NoQuotes(path);
      IndexesAgreeIff(number, Steps(path)[1..]);
      PathsAgreeIff(number, path);
      if RootAlias(path) {
        AliasSteps(path);
        NoIndexes(number);
      }
    }
  }

  lemma NoIndexes(number: Number)
    ensures PublicIndexes(number, []) == Some([])
  {
  }

  /** The public parser accepts paths the private one refuses: an empty step counts as index 0. */
  lemma EmptyStepIsZero(number: Number)
    requires number("") == Some(0)
    ensures '\'' !in "m/" && ParsePrivatePath(number, "m/").None?
    ensures PublicIndexes(number, Steps("m/")[1..]) == Some([0])
  {
    assert "m/"[1..] == "/" && "/"[1..] == "";
    assert Steps("") == [""];
    assert Steps("/") == ["", ""];
    assert ['m'] + "" == "m";
    assert Steps("m/") == [['m'] + Steps("/")[0]] + Steps("/")[1..];
    assert Steps("m/") == ["m", ""];
    var last := [""];
    assert Steps("m/")[1..] == last && last[1..] == [];
    NoIndexes(number);
    var zero: seq<int> := [0];
    assert zero + [] == zero && PublicIndexes(number, last) == Some(zero + []);
  }
}
