/** BIP 32 child key derivation: lib/bitcore/hdprivatekey.ts and lib/bitcore/hdpublickey.ts.
    HMAC-SHA512 and RIPEMD-160 of SHA-256 are parameters. */
module HdKeys {
  import opened Buffers
  import opened ModArith
  import opened EllipticCurve
  import opened PublicKeys
  import opened Networks

  const HARDENED := 0x8000_0000
  const MAX_INDEX := 0x1_0000_0000

  type Half = b: Buffer | |b| == 32 witness seq(32, _ => 0)

  /** `hmac(key, data)` gives the two halves of HMAC-SHA512. */
  datatype Env = Env(curve: Curve, hmac: (Buffer, Buffer) -> (Half, Half), hash160: Buffer -> Buffer)

  datatype HDPrivateKey = HDPrivateKey(
    network: Network, depth: nat, parentFingerPrint: Buffer, childIndex: nat, chainCode: Buffer,
    d: nat, compressed: bool)

  /** The public side keeps the version bytes and looks its network up by them. */
  datatype HDPublicKey = HDPublicKey(
    version: nat, depth: nat, parentFingerPrint: Buffer, childIndex: nat, chainCode: Buffer, point: Point)

  ghost predicate ValidPrivate(env: Env, k: HDPrivateKey) {
    Lawful(env.curve) && 0 < k.d < env.curve.n && k.depth <= 255
  }

  function PointOf(env: Env, k: HDPrivateKey): Point {
    Mul(env.curve, k.d, env.curve.g)
  }

  lemma PointOfIsFinite(env: Env, k: HDPrivateKey)
    requires ValidPrivate(env, k)
    ensures PointOf(env, k).Affine? && env.curve.onCurve(PointOf(env, k))
  {
    MulZeroIff(env.curve, k.d, env.curve.g);
    ModUnique(k.d, 0, k.d, env.curve.n);
    MulOnCurve(env.curve, k.d, env.curve.g);
  }

  /** The `hdPublicKey` of a private key: its publicKey is always compressed. */
  function Neuter(env: Env, k: HDPrivateKey): HDPublicKey {
    HDPublicKey(XPubVersion(k.network), k.depth, k.parentFingerPrint, k.childIndex, k.chainCode, PointOf(env, k))
  }

  /** First four bytes of the hash of a serialised key. */
  function FingerPrint(env: Env, q: Point, compressed: bool): Buffer
    requires q.Affine?
  {
    Slice(env.hash160(ToDER(PublicKey(q, compressed))), 0, 4)
  }

  /** What both sides feed to HMAC for a normal index. */
  function NormalHmac(env: Env, chainCode: Buffer, q: Point, index: nat): (Half, Half)
    requires q.Affine?
  {
    (env.hmac)(chainCode, ToDER(PublicKey(q, true)) + BE(index, 4))
  }

  /** Big-endian bytes without leading zeros. */
  function MinimalBE(n: nat): Buffer {
    if n == 0 then [] else MinimalBE(n / 256) + [n % 256]
  }

  // ----- Private derivation -----

  /** `isValidPath(index, hardened)` for a number. */
  predicate IsValidIndex(index: int, hardened: bool) {
    var arg := if index < HARDENED && hardened then index + HARDENED else index;
    0 <= arg < MAX_INDEX
  }

  function HardenedData(k: HDPrivateKey, index: nat, nonCompliant: bool): Buffer {
    [0] + (if nonCompliant then MinimalBE(k.d) else BE(k.d, 32)) + BE(index, 4)
  }

  lemma {:induction false} MinimalBELength(n: nat, size: nat)
    ensures |MinimalBE(n)| <= size <==> n < Pow256(size)
    ensures MinimalBE(n) == BE(n, |MinimalBE(n)|)
  {
    if n > 0 {
      MinimalBELength(n / 256, if size > 0 then size - 1 else 0);
    }
  }

  /** The two ways to derive a hardened child, `deriveChild` and `derive`, hash the same bytes
      exactly when the secret has no leading zero byte. */
  lemma HardenedDataAgreesIff(env: Env, k: HDPrivateKey, index: nat)
    requires ValidPrivate(env, k)
    ensures HardenedData(k, index, true) == HardenedData(k, index, false) <==> k.d >= Pow256(31)
  {
    hide MinimalBE, BE, Pow256;
    assert k.d < Pow256(32) by { SecretRange(env, k); }
    MinimalBELength(k.d, 31);
    MinimalBELength(k.d, 32);
    var a, b, i := MinimalBE(k.d), BE(k.d, 32), BE(index, 4);
    if HardenedData(k, index, true) == HardenedData(k, index, false) {
      assert |[0] + a + i| == |[0] + b + i|;
    }
  }

  lemma SecretRange(env: Env, k: HDPrivateKey)
    requires ValidPrivate(env, k)
    ensures k.d < env.curve.n < Pow256(32)
  {
  }

  /** HMAC of the private side; `nonCompliant` skips the zero padding of the secret. */
  function PrivateHmac(env: Env, k: HDPrivateKey, index: nat, hardened: bool, nonCompliant: bool): (Half, Half)
    requires ValidPrivate(env, k)
  {
    PointOfIsFinite(env, k);
    if hardened then (env.hmac)(k.chainCode, HardenedData(k, index, nonCompliant))
    else NormalHmac(env, k.chainCode, PointOf(env, k), index)
  }

  /** `_deriveWithNumber`; None when it throws. A zero child retries at the next index without the
      flag, and the depth byte overflows at 256. */
  function DerivePrivate(env: Env, k: HDPrivateKey, index: int, hardened: bool,
                         nonCompliant: bool): (r: Option<HDPrivateKey>)
    requires ValidPrivate(env, k)
    ensures r.Some? ==> ValidPrivate(env, r.value) && r.value.compressed == k.compressed && r.value.depth == k.depth + 1
    decreases MAX_INDEX - (if index < HARDENED && hardened then index + HARDENED else index)
  {
    if !IsValidIndex(index, hardened) then None
    else
      var isHardened := index >= HARDENED || hardened;
      var i := if index < HARDENED && isHardened then index + HARDENED else index;
      var (left, right) := PrivateHmac(env, k, i, isHardened, nonCompliant);
      var child := (FromBE(left) + k.d) % env.curve.n;
      if child == 0 then DerivePrivate(env, k, i + 1, false, nonCompliant)
      else if k.depth + 1 > 255 then None
      else
        PointOfIsFinite(env, k);
        Some(HDPrivateKey(k.network, k.depth + 1, FingerPrint(env, PointOf(env, k), k.compressed),
                          i, right, child, k.compressed))
  }

  /** `_deriveFromString` after parsing: all indices are checked first, then reduced over. */
  function DerivePrivatePath(env: Env, k: HDPrivateKey, path: seq<int>, nonCompliant: bool): (r: Option<HDPrivateKey>)
    requires ValidPrivate(env, k)
    ensures r.Some? ==> ValidPrivate(env, r.value)
  {
    if exists i :: 0 <= i < |path| && !IsValidIndex(path[i], false) then None
    else ReducePrivate(env, k, path, nonCompliant)
  }

  function ReducePrivate(env: Env, k: HDPrivateKey, path: seq<int>, nonCompliant: bool): (r: Option<HDPrivateKey>)
    requires ValidPrivate(env, k)
    ensures r.Some? ==> ValidPrivate(env, r.value)
    decreases |path|
  {
    if path == [] then Some(k)
    else
      match DerivePrivate(env, k, path[0], false, nonCompliant)
      case None => None
      case Some(child) => ReducePrivate(env, child, path[1..], nonCompliant)
  }

  // ----- Public derivation -----

  /** `network` of an extended public key. */
  function NetworkOf(k: HDPublicKey): Option<Network> {
    LastByNumber(k.version)
  }

  /** The version written for a child: that of the network found, zero for none. */
  function ChildVersion(k: HDPublicKey): nat {
    match NetworkOf(k) case None => 0 case Some(n) => XPubVersion(n)
  }

  /** A testnet key's extended public key says regtest, whose numbers are the same. */
  lemma NeuteredNetworkIff(env: Env, k: HDPrivateKey)
    ensures NetworkOf(Neuter(env, k)) == Some(k.network) <==> k.network != Testnet
    ensures ChildVersion(Neuter(env, k)) == Neuter(env, k).version
  {
  }

  /** `_deriveWithNumber` of the public key; a sum at infinity retries at the next index. The depth
      byte is written modulo 256. */
  function DerivePublic(env: Env, k: HDPublicKey, index: int, hardened: bool): (r: Option<HDPublicKey>)
    requires k.point.Affine?
    ensures r.Some? ==> r.value.point.Affine?
    decreases HARDENED - index
  {
    if index >= HARDENED || hardened || index < 0 then None
    else
      var (left, right) := NormalHmac(env, k.chainCode, k.point, index);
      var sum := (env.curve.add)(Mul(env.curve, FromBE(left), env.curve.g), k.point);
      if sum == Infinity then DerivePublic(env, k, index + 1, false)
      else Some(HDPublicKey(ChildVersion(k), (k.depth + 1) % 256, FingerPrint(env, k.point, true), index, right, sum))
  }

  function DerivePublicPath(env: Env, k: HDPublicKey, path: seq<int>): (r: Option<HDPublicKey>)
    requires k.point.Affine?
    ensures r.Some? ==> r.value.point.Affine?
  {
    if exists i :: 0 <= i < |path| && !(0 <= path[i] < HARDENED) then None
    else ReducePublic(env, k, path)
  }

  function ReducePublic(env: Env, k: HDPublicKey, path: seq<int>): (r: Option<HDPublicKey>)
    requires k.point.Affine?
    ensures r.Some? ==> r.value.point.Affine?
    decreases |path|
  {
    if path == [] then Some(k)
    else
      match DerivePublic(env, k, path[0], false)
      case None => None
      case Some(child) => ReducePublic(env, child, path[1..])
  }

  // ----- Commutation -----

  /** G times the left half plus the parent's point is the point of the child secret. */
  lemma ChildPoint(c: Curve, left: nat, d: nat)
    requires Lawful(c)
    ensures (c.add)(Mul(c, left, c.g), Mul(c, d, c.g)) == Mul(c, (left + d) % c.n, c.g)
    ensures Mul(c, (left + d) % c.n, c.g) == Infinity <==> (left + d) % c.n == 0
  {
    MulAdd(c, left, d, c.g);
    MulMod(c, left + d, c.g);
    MulZeroIff(c, left + d, c.g);
  }

  /** What the public side makes of a neutered key, in terms of the child secret. */
  lemma PublicStep(env: Env, k: HDPrivateKey, index: int)
    requires ValidPrivate(env, k) && 0 <= index < HARDENED
    ensures PointOf(env, k).Affine?
    ensures var (left, right) := NormalHmac(env, k.chainCode, PointOf(env, k), index);
      var child := (FromBE(left) + k.d) % env.curve.n;
      DerivePublic(env, Neuter(env, k), index, false) ==
        if child == 0 then DerivePublic(env, Neuter(env, k), index + 1, false)
        else Some(HDPublicKey(XPubVersion(k.network), (k.depth + 1) % 256, FingerPrint(env, PointOf(env, k), true),
                              index, right, Mul(env.curve, child, env.curve.g)))
  {
    hide Lawful, Mul, ToDER, BE, FromBE, ChildVersion, NetworkOf;
    PointOfIsFinite(env, k);
    NeuteredNetworkIff(env, k);
    var (left, right) := NormalHmac(env, k.chainCode, PointOf(env, k), index);
    ChildPoint(env.curve, FromBE(left), k.d);
  }

  /** The same step on the private side. */
  lemma PrivateStep(env: Env, k: HDPrivateKey, index: int, nonCompliant: bool)
    requires ValidPrivate(env, k) && 0 <= index < HARDENED
    ensures PointOf(env, k).Affine?
    ensures var (left, right) := NormalHmac(env, k.chainCode, PointOf(env, k), index);
      var child := (FromBE(left) + k.d) % env.curve.n;
      DerivePrivate(env, k, index, false, nonCompliant) ==
        if child == 0 then DerivePrivate(env, k, index + 1, false, nonCompliant)
        else if k.depth == 255 then None
        else Some(HDPrivateKey(k.network, k.depth + 1, FingerPrint(env, PointOf(env, k), k.compressed), index, right,
                               child, k.compressed))
  {
    hide Lawful, Mul, ToDER, BE, FromBE, FingerPrint, NormalHmac;
    PointOfIsFinite(env, k);
  }

  /** The public key belongs to the private one: it is the neutered key, except that for an
      uncompressed private key the recorded parent fingerprint may differ. */
  ghost predicate Agree(env: Env, public: HDPublicKey, private: HDPrivateKey) {
    && public == Neuter(env, private).(parentFingerPrint := public.parentFingerPrint)
    && (private.compressed ==> public == Neuter(env, private))
  }

  /** One step at a normal index: the public side succeeds exactly when the private retry stays
      below 2^31, and below depth 255 it then returns the public key of the private child. */
  lemma {:induction false} StepCommutes(env: Env, k: HDPrivateKey, index: int, nonCompliant: bool)
    requires ValidPrivate(env, k) && 0 <= index < HARDENED
    ensures PointOf(env, k).Affine?
    ensures k.depth < 255 ==>
      var private := DerivePrivate(env, k, index, false, nonCompliant);
      var public := DerivePublic(env, Neuter(env, k), index, false);
      && (public.Some? <==> private.Some? && private.value.childIndex < HARDENED)
      && (public.Some? ==> Agree(env, public.value, private.value))
    ensures k.depth == 255 ==> DerivePublic(env, Neuter(env, k), index, false).Some? ==>
      && DerivePrivate(env, k, index, false, nonCompliant).None?
      && DerivePublic(env, Neuter(env, k), index, false).value.depth == 0
    decreases HARDENED - index
  {
    hide Lawful, Mul, ToDER, BE, FromBE, FingerPrint, DerivePublic, DerivePrivate, NormalHmac;
    PublicStep(env, k, index);
    PrivateStep(env, k, index, nonCompliant);
    var (left, right) := NormalHmac(env, k.chainCode, PointOf(env, k), index);
    if (FromBE(left) + k.d) % env.curve.n == 0 {
      if index + 1 < HARDENED {
        StepCommutes(env, k, index + 1, nonCompliant);
      } else {
        PublicStops(env, Neuter(env, k), index + 1);
        HardenedStays(env, k, index + 1, nonCompliant);
      }
    }
  }

  /** What a public key derives does not depend on its own parent's fingerprint. */
  lemma {:induction false} IgnoresFingerprint(env: Env, k: HDPublicKey, parent: Buffer, index: int)
    requires k.point.Affine?
    ensures DerivePublic(env, k.(parentFingerPrint := parent), index, false) == DerivePublic(env, k, index, false)
    decreases HARDENED - index
  {
    hide FingerPrint, NormalHmac, Mul, FromBE;
    if 0 <= index < HARDENED {
      IgnoresFingerprint(env, k, parent, index + 1);
    }
  }

  lemma PublicStops(env: Env, k: HDPublicKey, index: int)
    requires k.point.Affine? && index >= HARDENED
    ensures DerivePublic(env, k, index, false).None?
  {
  }

  /** Retrying from a hardened index never comes back to a normal one. */
  lemma {:induction false} HardenedStays(env: Env, k: HDPrivateKey, index: int, nonCompliant: bool)
    requires ValidPrivate(env, k) && index >= HARDENED
    ensures var r := DerivePrivate(env, k, index, false, nonCompliant);
      r.Some? ==> r.value.childIndex >= HARDENED
    decreases MAX_INDEX - index
  {
    hide Lawful, Mul, ToDER, BE, FromBE, ChildVersion, NetworkOf;
    if index < MAX_INDEX {
      var (left, right) := PrivateHmac(env, k, index, true, nonCompliant);
      if (FromBE(left) + k.d) % env.curve.n == 0 {
        HardenedStays(env, k, index + 1, nonCompliant);
      }
    }
  }

  /** No step of the private derivation leaves the normal range. */
  ghost predicate StaysNormal(env: Env, k: HDPrivateKey, path: seq<int>, nonCompliant: bool)
    requires ValidPrivate(env, k)
    decreases |path|
  {
    path == [] ||
    (match DerivePrivate(env, k, path[0], false, nonCompliant)
     case None => false
     case Some(child) => child.childIndex < HARDENED && StaysNormal(env, child, path[1..], nonCompliant))
  }

  /** One step from matching keys, at any index and depth. */
  lemma MatchedStep(env: Env, q: HDPublicKey, k: HDPrivateKey, index: int, nonCompliant: bool)
    requires ValidPrivate(env, k) && Agree(env, q, k)
    ensures q.point.Affine?
    ensures var private := DerivePrivate(env, k, index, false, nonCompliant);
      var public := DerivePublic(env, q, index, false);
      && (private.Some? && private.value.childIndex < HARDENED <==> public.Some? && k.depth < 255)
      && (private.Some? && private.value.childIndex < HARDENED ==>
            0 <= index < HARDENED && Agree(env, public.value, private.value))
  {
    hide Lawful, Mul, ToDER, BE, FromBE, FingerPrint, NormalHmac, DerivePrivate, DerivePublic;
    PointOfIsFinite(env, k);
    IgnoresFingerprint(env, Neuter(env, k), q.parentFingerPrint, index);
    if 0 <= index < HARDENED {
      StepCommutes(env, k, index, nonCompliant);
      if k.depth == 255 {
        DeepestDerivesNothing(env, k, index, nonCompliant);
      }
    } else if index >= HARDENED {
      PublicStops(env, q, index);
      HardenedStays(env, k, index, nonCompliant);
    } else {
      NegativeFails(env, q, k, index, nonCompliant);
    }
  }

  lemma {:induction false} DeepestDerivesNothing(env: Env, k: HDPrivateKey, index: int, nonCompliant: bool)
    requires ValidPrivate(env, k) && k.depth == 255
    ensures DerivePrivate(env, k, index, false, nonCompliant).None?
    decreases MAX_INDEX - index
  {
    hide Lawful, Mul, ToDER, BE, FromBE, FingerPrint, NormalHmac, PrivateHmac;
    if IsValidIndex(index, false) {
      DeepestDerivesNothing(env, k, index + 1, nonCompliant);
    }
  }

  lemma NegativeFails(env: Env, q: HDPublicKey, k: HDPrivateKey, index: int, nonCompliant: bool)
    requires ValidPrivate(env, k) && q.point.Affine? && index < 0
    ensures DerivePrivate(env, k, index, false, nonCompliant).None? && DerivePublic(env, q, index, false).None?
  {
  }

  lemma {:induction false} ReduceCommutes(env: Env, q: HDPublicKey, k: HDPrivateKey, path: seq<int>, nonCompliant: bool)
    requires ValidPrivate(env, k) && Agree(env, q, k)
    ensures q.point.Affine?
    ensures ReducePublic(env, q, path).Some? && k.depth + |path| <= 255 <==> StaysNormal(env, k, path, nonCompliant)
    ensures StaysNormal(env, k, path, nonCompliant) ==>
      var private := ReducePrivate(env, k, path, nonCompliant);
      private.Some? && Agree(env, ReducePublic(env, q, path).value, private.value)
    ensures StaysNormal(env, k, path, nonCompliant) ==> forall i :: 0 <= i < |path| ==> 0 <= path[i] < HARDENED
    decreases |path|
  {
    hide Lawful, Mul, ToDER, BE, FromBE, DerivePrivate, DerivePublic, PointOf, Agree;
    MatchedStep(env, q, k, if path == [] then 0 else path[0], nonCompliant);
    if path != [] {
      var private := DerivePrivate(env, k, path[0], false, nonCompliant);
      if private.Some? && private.value.childIndex < HARDENED {
        ReduceCommutes(env, DerivePublic(env, q, path[0], false).value, private.value, path[1..], nonCompliant);
      }
    }
  }

  /** For every list of indices and every private key: deriving the neutered key succeeds within 255
      levels exactly when no private step throws or is pushed into the hardened range, and then gives
      the public key of the derived private key: the same version bytes, point, chain code, depth and
      child index, and for compressed keys the same parent fingerprint. */
  lemma DerivationCommutes(env: Env, k: HDPrivateKey, path: seq<int>, nonCompliant: bool)
    requires ValidPrivate(env, k)
    ensures PointOf(env, k).Affine?
    ensures DerivePublicPath(env, Neuter(env, k), path).Some? && k.depth + |path| <= 255 <==>
      StaysNormal(env, k, path, nonCompliant)
    ensures StaysNormal(env, k, path, nonCompliant) ==>
      var private := DerivePrivatePath(env, k, path, nonCompliant);
      private.Some? && Agree(env, DerivePublicPath(env, Neuter(env, k), path).value, private.value)
  {
    hide Lawful, Mul, ToDER, BE, FromBE, DerivePrivate, DerivePublic, ReducePrivate, ReducePublic, StaysNormal, Agree;
    NeuterAgrees(env, k);
    ReduceCommutes(env, Neuter(env, k), k, path, nonCompliant);
    if exists i :: 0 <= i < |path| && path[i] >= HARDENED {
      PublicRefusesHardened(env, Neuter(env, k), path);
    }
  }

  lemma NeuterAgrees(env: Env, k: HDPrivateKey)
    ensures Agree(env, Neuter(env, k), k)
  {
  }

  /** Hardened derivation needs the secret: the public side refuses every hardened request. */
  lemma PublicRefusesHardened(env: Env, k: HDPublicKey, path: seq<int>)
    requires k.point.Affine? && exists i :: 0 <= i < |path| && path[i] >= HARDENED
    ensures DerivePublicPath(env, k, path).None?
  {
  }

  /** An uncompressed private key records a different parent fingerprint in its children, unless
      the two serialisations hash alike; everything else still agrees. */
  lemma UncompressedFingerprint(env: Env, k: HDPrivateKey, index: int, nonCompliant: bool)
    requires ValidPrivate(env, k) && 0 <= index < HARDENED && k.depth < 255 && !k.compressed
    ensures PointOf(env, k).Affine?
    ensures var private := DerivePrivate(env, k, index, false, nonCompliant);
      var public := DerivePublic(env, Neuter(env, k), index, false);
      public.Some? && private.Some? ==>
        && public.value == Neuter(env, private.value).(parentFingerPrint := FingerPrint(env, PointOf(env, k), true))
        && private.value.parentFingerPrint == FingerPrint(env, PointOf(env, k), false)
    decreases HARDENED - index
  {
    hide Lawful, Mul, ToDER, BE, FromBE, ChildVersion, NetworkOf;
    hide FingerPrint, DerivePublic, DerivePrivate, NormalHmac;
    PublicStep(env, k, index);
    PrivateStep(env, k, index, nonCompliant);
    PublicStops(env, Neuter(env, k), HARDENED);
    var (left, right) := NormalHmac(env, k.chainCode, PointOf(env, k), index);
    if (FromBE(left) + k.d) % env.curve.n == 0 && index + 1 < HARDENED {
      UncompressedFingerprint(env, k, index + 1, nonCompliant);
    }
  }

  // ----- The exceptions occur for some hash -----

  /** The same environment with this left half for data ending in `tail`, and zero otherwise. */
  function WithLeft(env: Env, tail: Buffer, left: Half): Env {
    env.(hmac := (key, data) => (if EndsIn(data, tail) then left else BE(0, 32), BE(0, 32)))
  }

  predicate EndsIn(data: Buffer, tail: Buffer) {
    |data| >= |tail| && data[|data| - |tail|..] == tail
  }

  lemma EndsInIff(front: Buffer, a: Buffer, b: Buffer)
    requires |a| == |b|
    ensures EndsIn(front + a, b) <==> a == b
  {
    assert (front + a)[|front|..] == a;
  }

  lemma IndexBytesDiffer(i: nat, j: nat)
    requires i < MAX_INDEX && j < MAX_INDEX && i != j
    ensures BE(i, 4) != BE(j, 4)
  {
    assert Pow256(4) == MAX_INDEX;
    BEInverse(i, 4);
    BEInverse(j, 4);
  }

  lemma ZeroLeft(env: Env, k: HDPrivateKey)
    requires ValidPrivate(env, k)
    ensures FromBE(BE(0, 32)) == 0 && (FromBE(BE(0, 32)) + k.d) % env.curve.n == k.d
    ensures FromBE(BE(env.curve.n - k.d, 32)) == env.curve.n - k.d
    ensures (FromBE(BE(env.curve.n - k.d, 32)) + k.d) % env.curve.n == 0
  {
    hide BE, FromBE, Pow256;
    SecretRange(env, k);
    BEInverse(0, 32);
    BEInverse(env.curve.n - k.d, 32);
    ModUnique(k.d, 0, k.d, env.curve.n);
    ModUnique(env.curve.n, 1, 0, env.curve.n);
  }

  /** For every private key there is a hash under which the last normal index gives a zero secret: the
      private side goes on to a hardened child, and the public side throws. */
  lemma RetryLeavesNormalRange(env: Env, k: HDPrivateKey, nonCompliant: bool) returns (e: Env)
    requires ValidPrivate(env, k) && k.depth < 255
    ensures e.curve == env.curve && ValidPrivate(e, k) && PointOf(e, k).Affine?
    ensures DerivePublic(e, Neuter(e, k), HARDENED - 1, false).None?
    ensures var private := DerivePrivate(e, k, HARDENED - 1, false, nonCompliant);
      private.Some? && private.value.childIndex == HARDENED
  {
    hide Lawful, Mul, ToDER, BE, FromBE, FingerPrint, NormalHmac, HardenedData, WithLeft, DerivePrivate, DerivePublic;
    e := WithLeft(env, BE(HARDENED - 1, 4), BE(env.curve.n - k.d, 32));
    SameCurve(env, BE(HARDENED - 1, 4), BE(env.curve.n - k.d, 32));
    PointOfIsFinite(e, k);
    ZeroLeft(env, k);
    LastNormalLeft(env, k, BE(env.curve.n - k.d, 32));
    FirstHardenedLeft(env, k, BE(env.curve.n - k.d, 32), nonCompliant);
    PublicStep(e, k, HARDENED - 1);
    PrivateStep(e, k, HARDENED - 1, nonCompliant);
    PublicStops(e, Neuter(e, k), HARDENED);
    FirstHardened(e, k, nonCompliant);
  }

  lemma SameCurve(env: Env, tail: Buffer, left: Half)
    ensures WithLeft(env, tail, left).curve == env.curve
  {
  }

  lemma LastNormalLeft(env: Env, k: HDPrivateKey, left: Half)
    requires PointOf(env, k).Affine?
    ensures var e := WithLeft(env, BE(HARDENED - 1, 4), left);
      PointOf(e, k) == PointOf(env, k) && NormalHmac(e, k.chainCode, PointOf(env, k), HARDENED - 1).0 == left
  {
    hide Lawful, Mul, ToDER, BE, EndsIn;
    EndsInIff(ToDER(PublicKey(PointOf(env, k), true)), BE(HARDENED - 1, 4), BE(HARDENED - 1, 4));
  }

  lemma FirstHardenedLeft(env: Env, k: HDPrivateKey, left: Half, nonCompliant: bool)
    ensures var e := WithLeft(env, BE(HARDENED - 1, 4), left);
      (e.hmac)(k.chainCode, HardenedData(k, HARDENED, nonCompliant)).0 == BE(0, 32)
  {
    hide BE, EndsIn, MinimalBE;
    IndexBytesDiffer(HARDENED, HARDENED - 1);
    EndsInIff([0] + (if nonCompliant then MinimalBE(k.d) else BE(k.d, 32)), BE(HARDENED, 4), BE(HARDENED - 1, 4));
  }

  lemma FirstHardened(e: Env, k: HDPrivateKey, nonCompliant: bool)
    requires ValidPrivate(e, k) && k.depth < 255
    requires (FromBE((e.hmac)(k.chainCode, HardenedData(k, HARDENED, nonCompliant)).0) + k.d) % e.curve.n != 0
    ensures var private := DerivePrivate(e, k, HARDENED, false, nonCompliant);
      private.Some? && private.value.childIndex == HARDENED
  {
    hide Lawful, Mul, ToDER, BE, FromBE, FingerPrint, HardenedData;
    PointOfIsFinite(e, k);
  }

  /** For every private key at depth 255 there is a hash under which the public side derives a child of
      depth 0, while the private side throws. */
  lemma DepthWraps(env: Env, k: HDPrivateKey, index: int, nonCompliant: bool) returns (e: Env)
    requires ValidPrivate(env, k) && k.depth == 255 && 0 <= index < HARDENED
    ensures e.curve == env.curve && ValidPrivate(e, k) && PointOf(e, k).Affine?
    ensures DerivePrivate(e, k, index, false, nonCompliant).None?
    ensures var public := DerivePublic(e, Neuter(e, k), index, false); public.Some? && public.value.depth == 0
  {
    hide Lawful, Mul, ToDER, BE, FromBE, FingerPrint, EndsIn;
    e := WithLeft(env, [], BE(0, 32));
    PointOfIsFinite(e, k);
    ZeroLeft(env, k);
    PublicStep(e, k, index);
    DeepestDerivesNothing(e, k, index, nonCompliant);
  }
}
