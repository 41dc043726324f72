/** One derivation step, read back from the bytes that are hashed and serialised
    (lib/bitcore/hdprivatekey.ts and lib/bitcore/hdpublickey.ts). */
module HdSteps {
  import opened Buffers
  import opened EllipticCurve
  import opened PublicKeys
  import opened HdKeys

  // ----- The hashed bytes -----

  /** 37 bytes: the compressed key and the index. */
  predicate IsNormalData(data: Buffer, q: Point, index: nat)
    requires q.Affine?
  {
    && |data| == 37 && data[0] == (if q.y % 2 == 0 then 2 else 3) && FromBE(data[1..33]) == q.x
    && FromBE(data[33..]) == index
  }

  /** A zero byte, the secret and the index; only the flag `nonCompliant` leaves out leading zeros. */
  predicate IsHardenedData(data: Buffer, d: nat, index: nat, nonCompliant: bool) {
    && |data| >= 5 && data[0] == 0 && FromBE(data[1..|data| - 4]) == d && FromBE(data[|data| - 4..]) == index
    && (if nonCompliant then |data| == 5 || data[1] != 0 else |data| == 37)
  }

  /** These are the hashed bytes, they are a compressed key and an index, and no others have the fields. */
  lemma NormalDataIff(c: Curve, q: Point, index: nat, data: Buffer)
    requires Lawful(c) && c.onCurve(q) && q.Affine? && index < 0x1_0000_0000
    ensures IsNormalData(data, q, index) <==> data == ToDER(PublicKey(q, true)) + BE(index, 4)
    ensures IsNormalData(data, q, index) ==> FromDER(c, data[..33]) == Some(PublicKey(q, true))
  {
    hide Lawful, ToDER, FromDER, BE, FromBE;
    var der, i := ToDER(PublicKey(q, true)), BE(index, 4);
    DERFields(c, PublicKey(q, true));
    DERRoundTrip(c, PublicKey(q, true));
    IndexBytes(index);
    var x := der + i;
    assert x[..33] == der && x[1..33] == der[1..33] && x[33..] == i;
    if IsNormalData(data, q, index) {
      FromBEInverse(data[1..33]);
      FromBEInverse(der[1..33]);
      FromBEInverse(data[33..]);
      assert data == [data[0]] + data[1..33] + data[33..];
      assert der == [der[0]] + der[1..33];
    }
  }

  lemma IndexBytes(index: nat)
    requires index < 0x1_0000_0000
    ensures |BE(index, 4)| == 4 && FromBE(BE(index, 4)) == index
  {
    assert Pow256(4) == 0x1_0000_0000;
    BEInverse(index, 4);
  }

  lemma HardenedDataMeans(env: Env, k: HDPrivateKey, index: nat, nonCompliant: bool)
    requires ValidPrivate(env, k) && index < 0x1_0000_0000
    ensures IsHardenedData(HardenedData(k, index, nonCompliant), k.d, index, nonCompliant)
  {
    hide BE, FromBE, MinimalBE, Pow256, Lawful;
    var secret, i := if nonCompliant then MinimalBE(k.d) else BE(k.d, 32), BE(index, 4);
    IndexBytes(index);
    SecretRange(env, k);
    BEInverse(k.d, 32);
    MinimalBytes(k.d);
    BELength(k.d);
    var data := HardenedData(k, index, nonCompliant);
    assert data[1..|data| - 4] == secret && data[|data| - 4..] == i;
    assert secret != [] ==> data[1] == secret[0];
  }

  lemma BELength(n: nat)
    ensures |BE(n, 32)| == 32
  {
  }

  lemma {:induction false} MinimalBytes(n: nat)
    ensures FromBE(MinimalBE(n)) == n && (n > 0 ==> MinimalBE(n) != [] && MinimalBE(n)[0] != 0)
  {
    if n > 0 {
      var front := MinimalBE(n / 256);
      MinimalBytes(n / 256);
      assert (front + [n % 256])[..|front|] == front;
    }
  }

  /** What is hashed for the child at this index, in the hardened or the normal way. */
  predicate IsChildData(env: Env, data: Buffer, k: HDPrivateKey, index: nat, hardened: bool, nonCompliant: bool)
    requires PointOf(env, k).Affine?
  {
    if hardened then IsHardenedData(data, k.d, index, nonCompliant) else IsNormalData(data, PointOf(env, k), index)
  }

  /** The first four bytes of the hash of a serialised key. */
  ghost predicate IsFingerPrint(env: Env, f: Buffer, q: Point, compressed: bool)
    requires q.Affine?
  {
    exists key :: IsKeyBytes(key, q, compressed) && f == (var h := env.hash160(key); if |h| <= 4 then h else h[..4])
  }

  predicate IsKeyBytes(b: Buffer, q: Point, compressed: bool)
    requires q.Affine?
  {
    && |b| == (if compressed then 33 else 65) && FromBE(b[1..33]) == q.x
    && (if compressed then b[0] == (if q.y % 2 == 0 then 2 else 3) else b[0] == 4 && FromBE(b[33..]) == q.y)
  }

  lemma FingerPrintMeans(env: Env, q: Point, compressed: bool)
    requires Lawful(env.curve) && env.curve.onCurve(q) && q.Affine?
    ensures IsFingerPrint(env, FingerPrint(env, q, compressed), q, compressed)
  {
    hide Lawful, ToDER, FromBE;
    DERFields(env.curve, PublicKey(q, compressed));
    var key := ToDER(PublicKey(q, compressed));
    assert !compressed ==> key[33..] == key[33..65];
    assert IsKeyBytes(key, q, compressed);
  }

  // ----- Private steps -----

  /** The index a request stands for: the flag moves those below 2^31 up by 2^31, also negative ones. */
  function Asked(index: int, hardened: bool): int {
    if hardened && index < 0x8000_0000 then index + 0x8000_0000 else index
  }

  /** One turn of the private derivation for any request: out of range it throws; a zero child goes on
      at the next index; a depth above 255 throws; otherwise every field of the child is given by the
      parent and the hash of the bytes above. */
  lemma PrivateTurn(env: Env, k: HDPrivateKey, index: int, hardened: bool, nonCompliant: bool) returns (data: Buffer)
    requires ValidPrivate(env, k)
    ensures PointOf(env, k).Affine? && env.curve.n > 0
    ensures var i, r := Asked(index, hardened), DerivePrivate(env, k, index, hardened, nonCompliant);
      if !(0 <= i < 0x1_0000_0000) then r == None
      else
        && IsChildData(env, data, k, i, hardened || i >= 0x8000_0000, nonCompliant)
        && if Secret(env, k, data) == 0 then r == DerivePrivate(env, k, i + 1, false, nonCompliant)
           else if k.depth >= 255 then r == None
           else r.Some? && IsPrivateChild(env, k, data, i, r.value)
  {
    hide Lawful, Mul, FromBE, FingerPrint, PrivateHmac, IsChildData, IsFingerPrint, DerivePrivate;
    PointOfIsFinite(env, k);
    SecretRange(env, k);
    var i := Asked(index, hardened);
    if 0 <= i < 0x1_0000_0000 {
      UnfoldPrivate(env, k, index, hardened, nonCompliant);
      data := ChildData(env, k, i, hardened || i >= 0x8000_0000, nonCompliant);
      FingerPrintMeans(env, PointOf(env, k), k.compressed);
    } else {
      OutOfRange(env, k, index, hardened, nonCompliant);
      data := [];
    }
  }

  /** The parent's secret plus the left half, modulo the order. */
  function Secret(env: Env, k: HDPrivateKey, data: Buffer): nat
    requires env.curve.n > 0
  {
    (FromBE((env.hmac)(k.chainCode, data).0) + k.d) % env.curve.n
  }

  /** Every field of the child at this index. */
  ghost predicate IsPrivateChild(env: Env, k: HDPrivateKey, data: Buffer, index: nat, child: HDPrivateKey)
    requires env.curve.n > 0 && PointOf(env, k).Affine?
  {
    && child.network == k.network && child.depth == k.depth + 1 && child.childIndex == index
    && child.chainCode == (env.hmac)(k.chainCode, data).1 && child.d == Secret(env, k, data)
    && child.compressed == k.compressed && IsFingerPrint(env, child.parentFingerPrint, PointOf(env, k), k.compressed)
  }

  lemma OutOfRange(env: Env, k: HDPrivateKey, index: int, hardened: bool, nonCompliant: bool)
    requires ValidPrivate(env, k) && !(0 <= Asked(index, hardened) < 0x1_0000_0000)
    ensures DerivePrivate(env, k, index, hardened, nonCompliant) == None
  {
    hide Lawful, PointOf, FromBE, FingerPrint, PrivateHmac;
  }

  lemma UnfoldPrivate(env: Env, k: HDPrivateKey, index: int, hardened: bool, nonCompliant: bool)
    requires ValidPrivate(env, k) && env.curve.n > 0 && PointOf(env, k).Affine?
    requires 0 <= Asked(index, hardened) < 0x1_0000_0000
    ensures var i := Asked(index, hardened);
      var (left, right) := PrivateHmac(env, k, i, hardened || i >= 0x8000_0000, nonCompliant);
      DerivePrivate(env, k, index, hardened, nonCompliant) == Turned(env, k, i, left, right, nonCompliant)
  {
    hide Lawful, PointOf, FromBE, FingerPrint, PrivateHmac;
    if hardened && index < 0x8000_0000 {
      UnfoldFlagged(env, k, index, nonCompliant);
    } else {
      UnfoldPlain(env, k, index, hardened, nonCompliant);
    }
  }

  function Turned(env: Env, k: HDPrivateKey, i: nat, left: Half, right: Half, nonCompliant: bool): Option<HDPrivateKey>
    requires ValidPrivate(env, k) && env.curve.n > 0 && PointOf(env, k).Affine?
  {
    var child := (FromBE(left) + k.d) % env.curve.n;
    if child == 0 then DerivePrivate(env, k, i + 1, false, nonCompliant)
    else if k.depth >= 255 then None
    else Some(HDPrivateKey(k.network, k.depth + 1, FingerPrint(env, PointOf(env, k), k.compressed),
                           i, right, child, k.compressed))
  }

  lemma UnfoldPlain(env: Env, k: HDPrivateKey, i: int, hardened: bool, nonCompliant: bool)
    requires ValidPrivate(env, k) && env.curve.n > 0 && PointOf(env, k).Affine?
    requires 0 <= i < 0x1_0000_0000 && (hardened ==> i >= 0x8000_0000)
    ensures var (left, right) := PrivateHmac(env, k, i, i >= 0x8000_0000, nonCompliant);
      DerivePrivate(env, k, i, hardened, nonCompliant) == Turned(env, k, i, left, right, nonCompliant)
  {
    hide Lawful, PointOf, FromBE, FingerPrint, PrivateHmac;
  }

  lemma UnfoldFlagged(env: Env, k: HDPrivateKey, index: int, nonCompliant: bool)
    requires ValidPrivate(env, k) && env.curve.n > 0 && PointOf(env, k).Affine?
    requires -0x8000_0000 <= index < 0x8000_0000
    ensures var i := index + 0x8000_0000;
      var (left, right) := PrivateHmac(env, k, i, true, nonCompliant);
      DerivePrivate(env, k, index, true, nonCompliant) == Turned(env, k, i, left, right, nonCompliant)
  {
    hide Lawful, PointOf, FromBE, FingerPrint, PrivateHmac;
  }

  lemma ChildData(env: Env, k: HDPrivateKey, index: nat, hardened: bool, nonCompliant: bool) returns (data: Buffer)
    requires ValidPrivate(env, k) && index < 0x1_0000_0000
    ensures PointOf(env, k).Affine? && IsChildData(env, data, k, index, hardened, nonCompliant)
    ensures (env.hmac)(k.chainCode, data) == PrivateHmac(env, k, index, hardened, nonCompliant)
  {
    hide Lawful, Mul, ToDER, BE, FromBE, HardenedData, IsNormalData, IsHardenedData;
    PointOfIsFinite(env, k);
    if hardened {
      data := HardenedData(k, index, nonCompliant);
      HardenedDataMeans(env, k, index, nonCompliant);
    } else {
      data := ToDER(PublicKey(PointOf(env, k), true)) + BE(index, 4);
      NormalDataIff(env.curve, PointOf(env, k), index, data);
    }
  }

  /** The hash at this index gives the secret zero. */
  ghost predicate Skipped(env: Env, k: HDPrivateKey, index: nat, hardened: bool, nonCompliant: bool)
    requires PointOf(env, k).Affine? && env.curve.n > 0
  {
    exists data :: IsChildData(env, data, k, index, hardened, nonCompliant) && Secret(env, k, data) == 0
  }

  /** Every child that is returned stands at the first index from the one asked for on whose secret is
      not zero: the parent's secret plus the left half modulo the order; its chain code is the right
      half, its depth one more, its fingerprint that of the parent in its own form. */
  lemma {:induction false} PrivateChild(env: Env, k: HDPrivateKey, index: int, hardened: bool, nonCompliant: bool)
    returns (data: Buffer)
    requires ValidPrivate(env, k) && DerivePrivate(env, k, index, hardened, nonCompliant).Some?
    ensures PointOf(env, k).Affine? && env.curve.n > 0
    ensures var child := DerivePrivate(env, k, index, hardened, nonCompliant).value;
      FirstChild(env, k, Asked(index, hardened), hardened, nonCompliant, data, child)
    decreases 0x1_0000_0000 - Asked(index, hardened)
  {
    hide Lawful, PointOf, Secret, DerivePrivate, IsChildData, IsPrivateChild, Skipped, FirstChild;
    var i := Asked(index, hardened);
    SecretRange(env, k);
    data := PrivateTurn(env, k, index, hardened, nonCompliant);
    var child := DerivePrivate(env, k, index, hardened, nonCompliant).value;
    if Secret(env, k, data) == 0 {
      var first := data;
      data := PrivateChild(env, k, i + 1, false, nonCompliant);
      SkipOne(env, k, i, hardened, nonCompliant, first, data, child);
    } else {
      FoundAtOnce(env, k, i, hardened, nonCompliant, data, child);
    }
  }

  /** Which way index j is hashed when the request stands for `start`. */
  predicate HashedHardened(hardened: bool, start: int, j: int) {
    (hardened && j == start) || j >= 0x8000_0000
  }

  ghost predicate FirstChild(env: Env, k: HDPrivateKey, start: int, hardened: bool, nonCompliant: bool, data: Buffer,
                             child: HDPrivateKey)
    requires PointOf(env, k).Affine? && env.curve.n > 0
  {
    && 0 <= start <= child.childIndex < 0x1_0000_0000
    && (forall j :: start <= j < child.childIndex ==>
          Skipped(env, k, j, HashedHardened(hardened, start, j), nonCompliant))
    && IsChildData(env, data, k, child.childIndex, HashedHardened(hardened, start, child.childIndex), nonCompliant)
    && IsPrivateChild(env, k, data, child.childIndex, child) && child.d != 0
  }

  lemma FoundAtOnce(env: Env, k: HDPrivateKey, i: nat, hardened: bool, nonCompliant: bool, data: Buffer,
                    child: HDPrivateKey)
    requires PointOf(env, k).Affine? && env.curve.n > 0 && i < 0x1_0000_0000
    requires IsChildData(env, data, k, i, hardened || i >= 0x8000_0000, nonCompliant) && Secret(env, k, data) != 0
    requires IsPrivateChild(env, k, data, i, child)
    ensures FirstChild(env, k, i, hardened, nonCompliant, data, child)
  {
    hide Secret, IsChildData, PointOf;
  }

  lemma SkipOne(env: Env, k: HDPrivateKey, i: nat, hardened: bool, nonCompliant: bool, first: Buffer, data: Buffer,
                child: HDPrivateKey)
    requires PointOf(env, k).Affine? && env.curve.n > 0 && i < 0x1_0000_0000
    requires IsChildData(env, first, k, i, hardened || i >= 0x8000_0000, nonCompliant) && Secret(env, k, first) == 0
    requires FirstChild(env, k, i + 1, false, nonCompliant, data, child)
    ensures FirstChild(env, k, i, hardened, nonCompliant, data, child)
  {
    hide Secret, IsChildData, IsPrivateChild, PointOf;
    assert Skipped(env, k, i, HashedHardened(hardened, i, i), nonCompliant);
    forall j | i < j < child.childIndex ensures Skipped(env, k, j, HashedHardened(hardened, i, j), nonCompliant) {
      assert Skipped(env, k, j, HashedHardened(false, i + 1, j), nonCompliant);
    }
  }

  // ----- Public steps -----

  lemma PublicTurn(env: Env, k: HDPublicKey, index: int, hardened: bool) returns (data: Buffer)
    requires Lawful(env.curve) && env.curve.onCurve(k.point) && k.point.Affine?
    ensures var r := DerivePublic(env, k, index, hardened);
      if hardened || !(0 <= index < 0x8000_0000) then r == None
      else
        && IsNormalData(data, k.point, index)
        && if Sum(env, k, data) == Infinity then r == DerivePublic(env, k, index + 1, false)
           else r.Some? && IsPublicChild(env, k, data, index, r.value)
  {
    hide Lawful, Mul, ToDER, BE, FromBE, FingerPrint, IsNormalData, IsFingerPrint;
    data := [];
    if 0 <= index < 0x8000_0000 {
      data := ToDER(PublicKey(k.point, true)) + BE(index, 4);
      NormalDataIff(env.curve, k.point, index, data);
      FingerPrintMeans(env, k.point, true);
    }
  }

  /** G times the left half plus the parent's point. */
  function Sum(env: Env, k: HDPublicKey, data: Buffer): Point {
    (env.curve.add)(Mul(env.curve, FromBE((env.hmac)(k.chainCode, data).0), env.curve.g), k.point)
  }

  ghost predicate IsPublicChild(env: Env, k: HDPublicKey, data: Buffer, index: nat, child: HDPublicKey)
    requires k.point.Affine?
  {
    && child.version == WrittenVersion(k.version) && child.depth == (k.depth + 1) % 256 && child.childIndex == index
    && child.chainCode == (env.hmac)(k.chainCode, data).1 && child.point == Sum(env, k, data)
    && IsFingerPrint(env, child.parentFingerPrint, k.point, true)
  }

  /** The version of a child: livenet's or the test networks' public number, or zero for a number that
      no network has. */
  function WrittenVersion(version: nat): nat {
    if version in {0, 0x80, 5, 0x0488b21e, 0x0488ade4} then 0x0488b21e
    else if version in {0x6f, 0xef, 0xc4, 0x043587cf, 0x04358394} then 0x043587cf
    else 0
  }

  /** The same for an extended public key: the first index whose sum is not infinity. */
  lemma {:induction false} PublicChild(env: Env, k: HDPublicKey, index: int, hardened: bool) returns (data: Buffer)
    requires Lawful(env.curve) && env.curve.onCurve(k.point) && k.point.Affine?
    requires DerivePublic(env, k, index, hardened).Some?
    ensures var child := DerivePublic(env, k, index, hardened).value;
      && !hardened && 0 <= index <= child.childIndex < 0x8000_0000
      && (forall j :: index <= j < child.childIndex ==> SumSkipped(env, k, j))
      && IsNormalData(data, k.point, child.childIndex)
      && IsPublicChild(env, k, data, child.childIndex, child) && child.point != Infinity
    decreases 0x8000_0000 - index
  {
    hide Lawful, Sum, DerivePublic, IsNormalData, IsFingerPrint;
    data := PublicTurn(env, k, index, hardened);
    if Sum(env, k, data) == Infinity {
      assert SumSkipped(env, k, index);
      data := PublicChild(env, k, index + 1, false);
    }
  }

  /** The hash at this index gives the sum infinity. */
  ghost predicate SumSkipped(env: Env, k: HDPublicKey, index: nat)
    requires k.point.Affine?
  {
    exists data :: IsNormalData(data, k.point, index) && Sum(env, k, data) == Infinity
  }
}
