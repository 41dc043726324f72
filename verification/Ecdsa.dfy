/** Signing, verification and public key recovery of lib/bitcore/crypto/ecdsa.ts over the curve
    group. Hash buffers become integers; the RFC 6979 nonce stream is a parameter. */
module Ecdsa {
  import opened Buffers
  import opened ModArith
  import opened EllipticCurve

  const SECP256K1_P := 0xFFFFFFFF_FFFFFFFF_FFFFFFFF_FFFFFFFF_FFFFFFFF_FFFFFFFF_FFFFFFFE_FFFFFC2F
  const SECP256K1_N := 0xFFFFFFFF_FFFFFFFF_FFFFFFFF_FFFFFFFE_BAAEDCE6_AF48A03B_BFD25E8C_D0364141
  const LOW_S_THRESHOLD := 0x7FFFFFFF_FFFFFFFF_FFFFFFFF_FFFFFFFF_5D576E73_57A4501D_DFE92F46_681B20A0

  ghost predicate IsSecp256k1(c: Curve) {
    Lawful(c) && c.p == SECP256K1_P && c.n == SECP256K1_N
  }

  datatype Endian = Little | Big

  function HashToInt(hash: Buffer, endian: Endian): nat {
    if endian == Little then FromLE(hash) else FromBE(hash)
  }

  // ----- One signing attempt, verification, low S -----

  /** The pair (r, s) computed from nonce k, unless one of them is zero. */
  function Attempt(c: Curve, d: nat, e: nat, k: nat): (rs: Option<(nat, nat)>)
    requires Lawful(c) && 0 < k < c.n
    ensures rs.Some? ==> 0 < rs.value.0 < c.n && 0 < rs.value.1 < c.n
  {
    MulZeroIff(c, k, c.g);
    ModUnique(k, 0, k, c.n);
    var r := Mul(c, k, c.g).x % c.n;
    var s := (Inverse(k, c.n) * (e + d * r)) % c.n;
    if r == 0 || s == 0 then None else Some((r, s))
  }

  datatype SigError = OutOfRange | PointAtInfinity | InvalidSignature

  /** `sigError` for a 32-byte hash; None is its `false`. */
  function CheckSignature(c: Curve, q: Point, e: nat, r: int, s: int): Option<SigError>
    requires Lawful(c) && c.onCurve(q)
  {
    if !(0 < r < c.n && 0 < s < c.n) then Some(OutOfRange)
    else
      ModUnique(s, 0, s, c.n);
      var sinv := Inverse(s, c.n);
      var u1 := (sinv * e) % c.n;
      var u2 := (sinv * r) % c.n;
      var p := (c.add)(Mul(c, u1, c.g), Mul(c, u2, q));
      if p == Infinity then Some(PointAtInfinity)
      else if p.x % c.n != r then Some(InvalidSignature)
      else None
  }

  function ToLowS(c: Curve, s: int): int {
    if s > LOW_S_THRESHOLD then c.n - s else s
  }

  /** The threshold literal is (n - 1) / 2: normalised values are exactly the lower half. */
  lemma LowSRange(c: Curve, s: int)
    requires c.n == SECP256K1_N && 0 < s < c.n
    ensures 1 <= ToLowS(c, s) <= (c.n - 1) / 2
    ensures s <= (c.n - 1) / 2 <==> ToLowS(c, s) == s
    ensures ToLowS(c, c.n - s) == ToLowS(c, s)
  {
  }

  // ----- What verification computes -----

  /** k is the nonce behind (r, s): s * k = e + r * d modulo n. */
  ghost predicate NonceOf(c: Curve, d: nat, e: nat, r: nat, s: nat, k: nat)
    requires c.n > 0
  {
    Cong(s * k, e + d * r, c.n)
  }

  /** The nonce is determined: s^-1 * (e + d * r). */
  function RecoveredNonce(c: Curve, d: nat, e: nat, r: nat, s: nat): (k: nat)
    requires Lawful(c) && 0 < s < c.n
    ensures k < c.n
  {
    ModUnique(s, 0, s, c.n);
    DivMod(Inverse(s, c.n) * (e + d * r), c.n);
    (Inverse(s, c.n) * (e + d * r)) % c.n
  }

  lemma RecoveredNonceCorrect(c: Curve, d: nat, e: nat, r: nat, s: nat)
    requires Lawful(c) && 0 < s < c.n
    ensures NonceOf(c, d, e, r, s, RecoveredNonce(c, d, e, r, s)) && s % c.n != 0
    ensures Cong(RecoveredNonce(c, d, e, r, s), Inverse(s, c.n) * (e + d * r), c.n)
  {
    ModUnique(s, 0, s, c.n);
    NonceLemma(s, Inverse(s, c.n), e + d * r, c.n);
  }

  lemma NonceCong(c: Curve, d: nat, e: nat, r: nat, s: nat)
    requires Lawful(c) && 0 < s < c.n
    ensures Cong(s * RecoveredNonce(c, d, e, r, s), e + d * r, c.n) && RecoveredNonce(c, d, e, r, s) < c.n && Prime(c.n)
  {
    RecoveredNonceCorrect(c, d, e, r, s);
    assert e + d * r == e + r * d;
  }

  lemma NonceLemma(s: int, i: int, m: int, n: int)
    requires n > 0 && Cong(s * i, 1, n)
    ensures Cong(s * ((i * m) % n), m, n) && Cong((i * m) % n, i * m, n)
  {
    CongMod(i * m, n);
    CongScale((i * m) % n, i * m, s, n);
    CongScale(s * i, 1, m, n);
    assert s * (i * m) == (s * i) * m;
  }

  /** The point verification compares is the nonce times the base point. */
  lemma VerifiedPoint(c: Curve, d: nat, e: nat, r: nat, s: nat)
    requires Lawful(c) && 0 < r < c.n && 0 < s < c.n
    ensures s % c.n != 0
    ensures var sinv := Inverse(s, c.n);
      (c.add)(Mul(c, (sinv * e) % c.n, c.g), Mul(c, (sinv * r) % c.n, Mul(c, d, c.g)))
        == Mul(c, RecoveredNonce(c, d, e, r, s), c.g)
  {
    RecoveredNonceCorrect(c, d, e, r, s);
    var sinv, n := Inverse(s, c.n), c.n;
    var u1, u2 := (sinv * e) % n, (sinv * r) % n;
    NatProduct(u2, d);
    MulMul(c, u2, d, c.g);
    MulAdd(c, u1, u2 * d, c.g);
    var k := RecoveredNonce(c, d, e, r, s);
    CombinedScalar(sinv, e, r, d, n);
    MulCong(c, u1 + u2 * d, k, c.g);
  }

  lemma CombinedScalar(i: int, e: int, r: int, d: int, n: int)
    requires n > 0
    ensures Cong((i * e) % n + (i * r) % n * d, i * (e + d * r), n)
  {
    CongMod(i * e, n);
    CongMod(i * r, n);
    CongScale((i * r) % n, i * r, d, n);
    CongAdd((i * e) % n, i * e, (i * r) % n * d, i * r * d, n);
    assert i * e + i * r * d == i * (e + d * r) by {
      assert i * r * d == i * (d * r);
    }
  }

  /** Verification accepts exactly when the nonce behind (r, s) has a point with x mod n = r. */
  lemma AcceptedIffNonce(c: Curve, d: nat, e: nat, r: nat, s: nat)
    requires Lawful(c) && 0 < r < c.n && 0 < s < c.n
    ensures c.onCurve(Mul(c, d, c.g))
    ensures var k := RecoveredNonce(c, d, e, r, s);
      CheckSignature(c, Mul(c, d, c.g), e, r, s) == None <==>
        k != 0 && Mul(c, k, c.g).Affine? && Mul(c, k, c.g).x % c.n == r
  {
    MulOnCurve(c, d, c.g);
    VerifiedPoint(c, d, e, r, s);
    var k := RecoveredNonce(c, d, e, r, s);
    MulZeroIff(c, k, c.g);
    ModUnique(k, 0, k, c.n);
  }

  /** Which error is reported: a number out of range first, then the point at infinity, which needs
      e + d * r to be a multiple of n, and any other pair that is not accepted is an invalid signature. */
  lemma SigErrorIff(c: Curve, d: nat, e: nat, r: int, s: int)
    requires Lawful(c)
    ensures c.onCurve(Mul(c, d, c.g))
    ensures var error := CheckSignature(c, Mul(c, d, c.g), e, r, s);
      var ranges := 1 <= r <= c.n - 1 && 1 <= s <= c.n - 1;
      && (error == Some(OutOfRange) <==> !ranges)
      && (error == Some(PointAtInfinity) <==> ranges && (e + d * r) % c.n == 0)
      && (error == Some(InvalidSignature) <==> ranges && (e + d * r) % c.n != 0 && error != None)
  {
    hide Lawful, Mul, RecoveredNonce;
    BasePoint(c);
    MulOnCurve(c, d, c.g);
    PositiveOrder(c);
    if 1 <= r <= c.n - 1 && 1 <= s <= c.n - 1 {
      VerifiedPoint(c, d, e, r, s);
      ZeroNonceIff(c, d, e, r, s);
    }
  }

  lemma PositiveOrder(c: Curve)
    requires Lawful(c)
    ensures c.n > 0
  {
  }

  lemma ZeroNonceIff(c: Curve, d: nat, e: nat, r: nat, s: nat)
    requires Lawful(c) && 0 < s < c.n
    ensures Mul(c, RecoveredNonce(c, d, e, r, s), c.g) == Infinity <==> (e + d * r) % c.n == 0
  {
    hide Lawful, Mul, RecoveredNonce;
    var k, n := RecoveredNonce(c, d, e, r, s), c.n;
    NonceCong(c, d, e, r, s);
    PositiveOrder(c);
    BasePoint(c);
    MulZeroIff(c, k, c.g);
    ModUnique(k, 0, k, n);
    if k == 0 {
      assert s * k == 0;
      CongZero(e + d * r, n);
    }
    if (e + d * r) % n == 0 {
      CongZero(e + d * r, n);
      FactorOfZero(s, k, e + d * r, n);
    }
  }

  lemma CongZero(x: nat, n: nat)
    requires n > 0
    ensures Cong(0, x, n) <==> x % n == 0
  {
  }

  lemma FactorOfZero(s: nat, k: nat, x: nat, n: nat)
    requires Prime(n) && 0 < s < n && k < n && Cong(s * k, x, n) && Cong(0, x, n)
    ensures k == 0
  {
    ModUnique(s, 0, s, n);
    assert s * 0 == 0;
    Cancel(s, k, 0, n);
    ModUnique(k, 0, k, n);
    ModUnique(0, 0, 0, n);
  }

  /** What is accepted was signed: (r, s) verifies for the key d exactly when some nonce below n
      produces it. */
  lemma AcceptedIffSigned(c: Curve, d: nat, e: nat, r: nat, s: nat)
    requires Lawful(c)
    ensures c.onCurve(Mul(c, d, c.g))
    ensures CheckSignature(c, Mul(c, d, c.g), e, r, s) == None <==>
      exists k: nat | 0 < k < c.n :: Attempt(c, d, e, k) == Some((r, s))
  {
    MulOnCurve(c, d, c.g);
    if CheckSignature(c, Mul(c, d, c.g), e, r, s) == None {
      AcceptedIffNonce(c, d, e, r, s);
      RecoveredNonceCorrect(c, d, e, r, s);
      var k := RecoveredNonce(c, d, e, r, s);
      AttemptWithNonce(c, d, e, r, s, k);
      assert Attempt(c, d, e, k) == Some((r, s));
    }
    if k: nat :| 0 < k < c.n && Attempt(c, d, e, k) == Some((r, s)) {
      AttemptIsAccepted(c, d, e, k);
    }
  }

  lemma AttemptWithNonce(c: Curve, d: nat, e: nat, r: nat, s: nat, k: nat)
    requires Lawful(c) && 0 < r < c.n && 0 < s < c.n && 0 < k < c.n && NonceOf(c, d, e, r, s, k)
    requires Mul(c, k, c.g).Affine? && Mul(c, k, c.g).x % c.n == r
    ensures Attempt(c, d, e, k) == Some((r, s))
  {
    ModUnique(k, 0, k, c.n);
    ModUnique(s, 0, s, c.n);
    SolveForS(s, k, Inverse(k, c.n), e + d * r, c.n);
  }

  lemma SolveForS(s: int, k: int, kinv: int, m: int, n: int)
    requires n > 0 && Cong(s * k, m, n) && Cong(k * kinv, 1, n)
    ensures Cong(kinv * m, s, n)
  {
    CongScale(s * k, m, kinv, n);
    CongScale(k * kinv, 1, s, n);
    assert s * k * kinv == s * (k * kinv) && m * kinv == kinv * m;
  }

  lemma AttemptNonce(c: Curve, d: nat, e: nat, k: nat)
    requires Lawful(c) && 0 < k < c.n && Attempt(c, d, e, k).Some?
    ensures var (r, s) := Attempt(c, d, e, k).value;
      NonceOf(c, d, e, r, s, k) && Mul(c, k, c.g).Affine? && Mul(c, k, c.g).x % c.n == r
  {
    MulZeroIff(c, k, c.g);
    ModUnique(k, 0, k, c.n);
    var (r, s) := Attempt(c, d, e, k).value;
    var kinv, m := Inverse(k, c.n), e + d * r;
    NonceLemma(k, kinv, m, c.n);
    assert s * k == k * s;
  }

  /** Two nonces of the same (r, s) agree modulo n. */
  lemma NonceUnique(c: Curve, d: nat, e: nat, r: nat, s: nat, k: nat, l: nat)
    requires Lawful(c) && 0 < s < c.n && NonceOf(c, d, e, r, s, k) && NonceOf(c, d, e, r, s, l)
    ensures Cong(k, l, c.n)
  {
    ModUnique(s, 0, s, c.n);
    Cancel(s, k, l, c.n);
  }

  lemma AttemptIsAccepted(c: Curve, d: nat, e: nat, k: nat)
    requires Lawful(c) && 0 < k < c.n && Attempt(c, d, e, k).Some?
    ensures c.onCurve(Mul(c, d, c.g))
    ensures var (r, s) := Attempt(c, d, e, k).value; CheckSignature(c, Mul(c, d, c.g), e, r, s) == None
  {
    var (r, s) := Attempt(c, d, e, k).value;
    AttemptNonce(c, d, e, k);
    RecoveredNonceCorrect(c, d, e, r, s);
    var l := RecoveredNonce(c, d, e, r, s);
    NonceUnique(c, d, e, r, s, k, l);
    ModUnique(k, 0, k, c.n);
    ModUnique(l, 0, l, c.n);
    AcceptedIffNonce(c, d, e, r, s);
  }

  /** Negating s changes nothing for the verifier: it accepts both halves or neither. */
  lemma NegatedSAccepted(c: Curve, d: nat, e: nat, r: nat, s: nat)
    requires Lawful(c) && 0 < r < c.n && 0 < s < c.n
    ensures c.onCurve(Mul(c, d, c.g))
    ensures CheckSignature(c, Mul(c, d, c.g), e, r, s) == None <==>
      CheckSignature(c, Mul(c, d, c.g), e, r, c.n - s) == None
  {
    hide Lawful, Mul, CheckSignature, RecoveredNonce, NonceOf;
    AcceptedIffNonce(c, d, e, r, s);
    AcceptedIffNonce(c, d, e, r, c.n - s);
    NonceCong(c, d, e, r, s);
    NonceCong(c, d, e, r, c.n - s);
    var k, l := RecoveredNonce(c, d, e, r, s), RecoveredNonce(c, d, e, r, c.n - s);
    OppositeNonces(s, k, l, e + d * r, c.n);
    OppositePoints(c, k, l);
  }

  /** Opposite nonces are both zero or have points with the same x-coordinate. */
  lemma OppositePoints(c: Curve, k: nat, l: nat)
    requires Lawful(c) && k < c.n && l < c.n && (k + l) % c.n == 0
    ensures k == 0 <==> l == 0
    ensures k != 0 ==> Mul(c, k, c.g).Affine? && Mul(c, l, c.g).Affine? && Mul(c, k, c.g).x == Mul(c, l, c.g).x
  {
    ModUnique(k, 0, k, c.n);
    ModUnique(l, 0, l, c.n);
    if k != 0 {
      MulZeroIff(c, k, c.g);
      MulOnCurve(c, k, c.g);
      MulOpposite(c, k, l, c.g);
      NegFacts(c, Mul(c, k, c.g));
    }
  }

  lemma OppositeNonces(s: nat, k: nat, l: nat, m: nat, n: nat)
    requires Prime(n) && 0 < s < n && Cong(s * k, m, n) && Cong((n - s) * l, m, n)
    ensures (k + l) % n == 0
  {
    assert (n - s) * l == n * l - s * l;
    var negL := 0 - l;
    assert s * negL == -(s * l);
    CongMultiple((n - s) * l, s * negL, l, n);
    ModUnique(s, 0, s, n);
    Cancel(s, k, negL, n);
    CongAdd(k, negL, l, l, n);
    ModUnique(0, 0, 0, n);
  }

  /** Every signature `_findSignature` returns is low-S and verifies for the same hash and key. */
  lemma SignThenVerify(c: Curve, d: nat, e: nat, k: nat)
    requires IsSecp256k1(c) && 0 < k < c.n
    ensures c.onCurve(Mul(c, d, c.g))
    ensures match Attempt(c, d, e, k)
      case None => true
      case Some((r, s)) =>
        1 <= ToLowS(c, s) <= (c.n - 1) / 2 && CheckSignature(c, Mul(c, d, c.g), e, r, ToLowS(c, s)) == None
  {
    MulOnCurve(c, d, c.g);
    if Attempt(c, d, e, k).Some? {
      var (r, s) := Attempt(c, d, e, k).value;
      AttemptIsAccepted(c, d, e, k);
      NegatedSAccepted(c, d, e, r, s);
      LowSRange(c, s);
    }
  }

  // ----- Public key recovery -----

  /** G.mul of a reduced negated hash: non-negative scalars are ordinary multiples, a negative one
      is whatever the curve library returns for it. */
  function MulBase(c: Curve, k: int): Point {
    if k >= 0 then Mul(c, k, c.g) else (c.mulNegative)(k, c.g)
  }

  /** `e.neg().mod(n)`: the remainder takes the sign of the dividend. */
  function NegatedHash(c: Curve, e: nat): (r: int)
    requires c.n > 0
    ensures 0 - c.n < r <= 0
  {
    0 - e % c.n
  }

  /** `toPublicKey` for recovery index i; None when it throws. */
  function RecoverPoint(c: Curve, e: nat, r: nat, s: nat, i: int): Option<Point>
    requires Lawful(c) && r % c.n != 0
  {
    if !(0 <= i < 4) then None
    else
      var x := if i / 2 != 0 then r + c.n else r;
      match c.fromX(i % 2 != 0, x)
      case None => None
      case Some(nonce) =>
        if Mul(c, c.n, nonce) != Infinity then None
        else
          var q := Mul(c, Inverse(r, c.n), (c.add)(Mul(c, s, nonce), MulBase(c, NegatedHash(c, e))));
          if q == Infinity then None else Some(q)
  }

  /** The index of the nonce point: bit 0 its parity, bit 1 whether x overflowed the group order. */
  function RecoveryIndex(r: nat, nonce: Point): (i: nat)
    ensures i < 4
  {
    (if nonce.Affine? && nonce.x == r then 0 else 2) + (if Odd(nonce) then 1 else 0)
  }

  /** A point whose parity is bit 0 of the index and whose x is r, or r + n when bit 1 is set, modulo p. */
  ghost predicate NonceAt(c: Curve, r: nat, i: nat, nonce: Point)
    requires c.p > 0
  {
    && c.onCurve(nonce) && nonce.Affine? && nonce.y % 2 == i % 2
    && nonce.x == (if i >= 2 then r + c.n else r) % c.p
  }

  /** r * q is s * nonce + t, and not infinity. */
  predicate IsRecovered(c: Curve, r: nat, s: nat, nonce: Point, t: Point, q: Point) {
    q != Infinity && Mul(c, r, q) == (c.add)(Mul(c, s, nonce), t)
  }

  /** What is recovered at index i: r times it is s times the point the index stands for plus the base
      point times minus the hash; and nothing only if there is no such point or that sum is infinity. */
  lemma RecoveredMeans(c: Curve, e: nat, r: nat, s: nat, i: nat)
    requires Lawful(c) && 0 < r < c.n && i < 4 && c.onCurve(MulBase(c, 0 - e % c.n))
    ensures r % c.n != 0 && c.p > 0
    ensures var q, t := RecoverPoint(c, e, r, s, i), MulBase(c, 0 - e % c.n);
      && (q.Some? ==> exists nonce :: NonceAt(c, r, i, nonce) && IsRecovered(c, r, s, nonce, t, q.value))
      && (q.None? ==> forall nonce :: NonceAt(c, r, i, nonce) ==> (c.add)(Mul(c, s, nonce), t) == Infinity)
  {
    hide Lawful, Mul, MulBase;
    ModUnique(r, 0, r, c.n);
    ValidNumbers(c);
    var x := if i >= 2 then r + c.n else r;
    forall nonce | NonceAt(c, r, i, nonce) ensures c.fromX(i % 2 != 0, x) == Some(nonce) {
      LiftOfX(c, i % 2 != 0, x, nonce);
    }
    if c.fromX(i % 2 != 0, x).Some? {
      var nonce := c.fromX(i % 2 != 0, x).value;
      LiftedNonce(c, r, i, nonce);
      TimesR(c, r, s, nonce, MulBase(c, 0 - e % c.n));
    }
  }

  lemma ValidNumbers(c: Curve)
    requires Lawful(c)
    ensures c.n > 0 && c.p > 0 && Prime(c.n)
  {
  }

  lemma LiftedNonce(c: Curve, r: nat, i: nat, nonce: Point)
    requires Lawful(c) && c.p > 0 && i < 4
    requires c.fromX(i % 2 != 0, if i >= 2 then r + c.n else r) == Some(nonce)
    ensures NonceAt(c, r, i, nonce) && Mul(c, c.n, nonce) == Infinity
  {
    assert LiftLaw(c, i % 2 != 0, if i >= 2 then r + c.n else r);
    assert OrderLaw(c, nonce);
  }

  /** r undoes its inverse, and the inverse keeps a finite point finite. */
  lemma TimesR(c: Curve, r: nat, s: nat, nonce: Point, t: Point)
    requires Lawful(c) && 0 < r < c.n && r % c.n != 0 && c.onCurve(nonce) && c.onCurve(t)
    ensures var sum := (c.add)(Mul(c, s, nonce), t);
      var q := Mul(c, Inverse(r, c.n), sum);
      Mul(c, r, q) == sum && (q == Infinity <==> sum == Infinity)
  {
    hide Lawful, Mul;
    ValidNumbers(c);
    MulOnCurve(c, s, nonce);
    SumOnCurve(c, Mul(c, s, nonce), t);
    var sum, i := (c.add)(Mul(c, s, nonce), t), Inverse(r, c.n);
    MulMul(c, r, i, sum);
    MulCong(c, r * i, 1, sum);
    MulOne(c, sum);
    ModUnique(i, 0, i, c.n);
    if sum != Infinity {
      MulZeroIff(c, i, sum);
    } else {
      MulInfinity(c, i);
    }
  }

  /** Since p < 2n, lifting r or r + n with the right parity gives the nonce point back. */
  lemma NonceIsLifted(c: Curve, r: nat, nonce: Point)
    requires IsSecp256k1(c) && c.onCurve(nonce) && nonce.Affine? && nonce.x % c.n == r
    ensures var i := RecoveryIndex(r, nonce);
      c.fromX(i % 2 != 0, if i / 2 != 0 then r + c.n else r) == Some(nonce)
  {
    assert CoordinateLaw(c, nonce);
    var x := nonce.x;
    assert x < 2 * SECP256K1_N;
    if x < c.n {
      ModUnique(x, 0, x, c.n);
    } else {
      ModUnique(x, 1, x - c.n, c.n);
    }
    ModUnique(x, 0, x, c.p);
    LiftOfX(c, Odd(nonce), x, nonce);
  }

  /** With the right nonce, recovery returns the signer's point exactly when the library's multiple
      of G cancels the hash that was signed. */
  lemma RecoveredPoint(c: Curve, d: nat, e: nat, r: nat, s: nat, k: nat, t: Point)
    requires Lawful(c) && 0 < r < c.n && NonceOf(c, d, e, r, s, k) && c.onCurve(t)
    ensures r % c.n != 0
    ensures Mul(c, Inverse(r, c.n), (c.add)(Mul(c, s, Mul(c, k, c.g)), t)) == Mul(c, d, c.g) <==>
      t == Neg(c, Mul(c, e % c.n, c.g))
  {
    ModUnique(r, 0, r, c.n);
    var n, g, rinv := c.n, c.g, Inverse(r, c.n);
    var q, eg := Mul(c, d, g), Mul(c, e, g);
    NatProduct(s, k);
    NatProduct(d, r);
    MulMul(c, s, k, g);
    MulCong(c, s * k, e + d * r, g);
    MulAdd(c, e, d * r, g);
    MulMul(c, r, d, g);
    MulMod(c, e, g);
    MulOnCurve(c, e, g);
    MulOnCurve(c, d, g);
    MulOnCurve(c, r, q);
    // s * R + t = (eG + rQ) + t
    var sum := (c.add)((c.add)(eg, Mul(c, r, q)), t);
    assert AddLaw(c, eg, Mul(c, r, q)) && AddLaw(c, (c.add)(eg, Mul(c, r, q)), t);
    CancelScalar(c, r, sum, q);
    CancelSum(c, eg, Mul(c, r, q), t);
  }

  /** r^-1 * a = q exactly when a = r * q. */
  lemma CancelScalar(c: Curve, r: nat, a: Point, q: Point)
    requires Lawful(c) && r % c.n != 0 && c.onCurve(a) && c.onCurve(q)
    ensures Mul(c, Inverse(r, c.n), a) == q <==> a == Mul(c, r, q)
  {
    var i := Inverse(r, c.n);
    NatProduct(i, r);
    MulMul(c, r, i, a);
    MulMul(c, i, r, q);
    MulCong(c, r * i, 1, a);
    MulCong(c, i * r, 1, q);
    MulOne(c, a);
    MulOne(c, q);
  }

  /** (a + b) + t = b exactly when t = -a. */
  lemma CancelSum(c: Curve, a: Point, b: Point, t: Point)
    requires Lawful(c) && c.onCurve(a) && c.onCurve(b) && c.onCurve(t)
    ensures (c.add)((c.add)(a, b), t) == b <==> t == Neg(c, a)
  {
    var nb, at := Neg(c, b), (c.add)(a, t);
    assert NegLaw(c, a) && NegLaw(c, b) && AddLaw(c, a, t) && AddLaw(c, a, b);
    assert AssocLaw(c, b, a, t);  // (b + a) + t = b + (a + t)
    assert AddLaw(c, b, nb) && AssocLaw(c, nb, b, at) && IdentityLaw(c, at);
    assert AddLaw(c, b, Infinity) && IdentityLaw(c, b) && AddLaw(c, nb, b);
    if (c.add)((c.add)(a, b), t) == b {
      NegUnique(c, a, t);
    }
  }

  /** At the nonce point's index, `toPublicKey` returns the signer's point exactly when the library's
      G.mul(-e mod n) is the opposite of the signed hash times G. */
  lemma RecoverAtIndexIff(c: Curve, d: nat, signed: nat, e: nat, r: nat, s: nat, k: nat)
    requires IsSecp256k1(c) && 0 < d < c.n && 0 < r < c.n && 0 < k < c.n
    requires NonceOf(c, d, signed, r, s, k) && Mul(c, k, c.g).Affine? && Mul(c, k, c.g).x % c.n == r
    requires c.onCurve(MulBase(c, NegatedHash(c, e)))
    ensures r % c.n != 0
    ensures RecoverPoint(c, e, r, s, RecoveryIndex(r, Mul(c, k, c.g))) == Some(Mul(c, d, c.g)) <==>
      MulBase(c, NegatedHash(c, e)) == Neg(c, Mul(c, signed % c.n, c.g))
  {
    var nonce, t := Mul(c, k, c.g), MulBase(c, NegatedHash(c, e));
    MulOnCurve(c, k, c.g);
    NonceIsLifted(c, r, nonce);
    assert OrderLaw(c, nonce);
    RecoveredPoint(c, d, signed, r, s, k, t);
    MulZeroIff(c, d, c.g);
    ModUnique(d, 0, d, c.n);
  }

  lemma MulBaseExact(c: Curve, e: nat)
    requires Lawful(c) && NegativeScalarsAreExact(c)
    ensures MulBase(c, NegatedHash(c, e)) == Neg(c, Mul(c, e % c.n, c.g))
    ensures c.onCurve(MulBase(c, NegatedHash(c, e)))
  {
    DivMod(e, c.n);
    assert NegativeScalarLaw(c, e % c.n);
    MulOnCurve(c, e % c.n, c.g);
    assert NegLaw(c, Mul(c, e % c.n, c.g));
  }

  /** For every signature the verifier accepts, hence for every one that was signed, low-S or not,
      one of the four indices recovers the signer's point. */
  lemma RecoveryFindsSigner(c: Curve, d: nat, e: nat, r: nat, s: nat)
    requires IsSecp256k1(c) && NegativeScalarsAreExact(c) && 0 < d < c.n
    ensures c.onCurve(Mul(c, d, c.g))
    ensures CheckSignature(c, Mul(c, d, c.g), e, r, s) == None ==>
      r % c.n != 0 && exists i: nat | i < 4 :: RecoverPoint(c, e, r, s, i) == Some(Mul(c, d, c.g))
  {
    MulOnCurve(c, d, c.g);
    if CheckSignature(c, Mul(c, d, c.g), e, r, s) == None {
      AcceptedIffNonce(c, d, e, r, s);
      RecoveredNonceCorrect(c, d, e, r, s);
      MulBaseExact(c, e);
      var k := RecoveredNonce(c, d, e, r, s);
      RecoverAtIndexIff(c, d, e, e, r, s, k);
      var i := RecoveryIndex(r, Mul(c, k, c.g));
      assert RecoverPoint(c, e, r, s, i) == Some(Mul(c, d, c.g));
    }
  }

  // ----- All four indices -----

  /** The x-coordinates the four indices try. */
  predicate TriedX(c: Curve, r: nat, x: nat)
    requires c.p > 0
  {
    x == r || x == (r + c.n) % c.p
  }

  /** The one nonce point from which recovery gets to the signer, when the library's multiple of G is t:
      s^-1 * (r * Q - t). */
  function NeededNonce(c: Curve, d: nat, r: nat, s: nat, t: Point): Point
    requires Lawful(c) && s % c.n != 0
  {
    Mul(c, Inverse(s, c.n), (c.add)(Mul(c, r, Mul(c, d, c.g)), Neg(c, t)))
  }

  /** One of the four indices recovers the signer's point. */
  ghost predicate SomeIndexRecovers(c: Curve, d: nat, e: nat, r: nat, s: nat)
    requires Lawful(c) && 0 < r < c.n
  {
    ModUnique(r, 0, r, c.n);
    exists i: nat | i < 4 :: RecoverPoint(c, e, r, s, i) == Some(Mul(c, d, c.g))
  }

  /** The verifier accepts (r, s) for the key of d and the hash e. */
  predicate Accepts(c: Curve, d: nat, e: nat, r: nat, s: nat)
    requires Lawful(c)
  {
    MulOnCurve(c, d, c.g);
    CheckSignature(c, Mul(c, d, c.g), e, r, s) == None
  }

  /** The point of the nonce behind (r, s) when the hash reads e. */
  function NoncePoint(c: Curve, d: nat, e: nat, r: nat, s: nat): Point
    requires Lawful(c) && 0 < s < c.n
  {
    Mul(c, RecoveredNonce(c, d, e, r, s), c.g)
  }

  lemma SumOnCurve(c: Curve, a: Point, b: Point)
    requires Lawful(c) && c.onCurve(a) && c.onCurve(b)
    ensures c.onCurve((c.add)(a, b)) && (c.add)(a, b) == (c.add)(b, a)
  {
    assert AddLaw(c, a, b);
  }

  /** a + t = b exactly when a = b - t. */
  lemma MoveOver(c: Curve, a: Point, t: Point, b: Point)
    requires Lawful(c) && c.onCurve(a) && c.onCurve(t) && c.onCurve(b)
    ensures c.onCurve(Neg(c, t)) && c.onCurve((c.add)(b, Neg(c, t)))
    ensures (c.add)(a, t) == b <==> a == (c.add)(b, Neg(c, t))
  {
    var u := Neg(c, t);
    assert NegLaw(c, t) && AddLaw(c, a, t) && AddLaw(c, b, u) && AddLaw(c, u, t);
    assert AssocLaw(c, a, t, u) && AssocLaw(c, b, u, t) && AddLaw(c, a, Infinity) && AddLaw(c, b, Infinity);
    assert IdentityLaw(c, a) && IdentityLaw(c, b) && AddLaw(c, t, u);
  }

  lemma RecoversFrom(c: Curve, d: nat, r: nat, s: nat, nonce: Point, t: Point)
    requires Lawful(c) && r % c.n != 0 && s % c.n != 0 && c.onCurve(nonce) && c.onCurve(t)
    ensures Mul(c, Inverse(r, c.n), (c.add)(Mul(c, s, nonce), t)) == Mul(c, d, c.g) <==>
      nonce == NeededNonce(c, d, r, s, t)
  {
    hide Lawful, Mul, Inverse;
    BasePoint(c);
    var q, a := Mul(c, d, c.g), Mul(c, s, nonce);
    MulOnCurve(c, d, c.g);
    MulOnCurve(c, s, nonce);
    MulOnCurve(c, r, q);
    SumOnCurve(c, a, t);
    CancelScalar(c, r, (c.add)(a, t), q);
    MoveOver(c, a, t, Mul(c, r, q));
    var b := (c.add)(Mul(c, r, q), Neg(c, t));
    CancelScalar(c, s, b, nonce);
  }

  lemma NeededOnCurve(c: Curve, d: nat, r: nat, s: nat, t: Point)
    requires Lawful(c) && s % c.n != 0 && c.onCurve(t)
    ensures c.onCurve(NeededNonce(c, d, r, s, t))
  {
    hide Lawful, Mul, Inverse;
    BasePoint(c);
    var q := Mul(c, d, c.g);
    MulOnCurve(c, d, c.g);
    MulOnCurve(c, r, q);
    MoveOver(c, q, t, Mul(c, r, q));
    MulOnCurve(c, Inverse(s, c.n), (c.add)(Mul(c, r, q), Neg(c, t)));
  }

  lemma LiftedX(c: Curve, odd: bool, x: nat)
    requires Lawful(c) && c.fromX(odd, x).Some?
    ensures c.p > 0 && c.onCurve(c.fromX(odd, x).value)
    ensures c.fromX(odd, x).value.Affine? && c.fromX(odd, x).value.x == x % c.p
  {
    assert LiftLaw(c, odd, x);
  }

  lemma PointOrder(c: Curve, q: Point)
    requires Lawful(c) && c.onCurve(q)
    ensures Mul(c, c.n, q) == Infinity
  {
    assert OrderLaw(c, q);
  }

  /** What index i lifts. */
  function LiftAt(c: Curve, r: nat, i: nat): Option<Point> {
    c.fromX(i % 2 != 0, if i / 2 != 0 then r + c.n else r)
  }

  lemma RecoversAtIff(c: Curve, d: nat, e: nat, r: nat, s: nat, i: nat)
    requires Lawful(c) && 0 < d < c.n && 0 < r < c.n && 0 < s < c.n && i < 4
    requires c.onCurve(MulBase(c, NegatedHash(c, e)))
    ensures r % c.n != 0 && s % c.n != 0
    ensures RecoverPoint(c, e, r, s, i) == Some(Mul(c, d, c.g)) <==>
      LiftAt(c, r, i) == Some(NeededNonce(c, d, r, s, MulBase(c, NegatedHash(c, e))))
  {
    hide Lawful, Mul, Inverse, NegatedHash, MulBase, NeededNonce;
    BasePoint(c);
    ModUnique(r, 0, r, c.n);
    ModUnique(s, 0, s, c.n);
    MulZeroIff(c, d, c.g);
    ModUnique(d, 0, d, c.n);
    match LiftAt(c, r, i)
    case None =>
    case Some(nonce) =>
      LiftedX(c, i % 2 != 0, if i / 2 != 0 then r + c.n else r);
      PointOrder(c, nonce);
      RecoversFrom(c, d, r, s, nonce, MulBase(c, NegatedHash(c, e)));
  }

  /** Some index lifts a point on the curve exactly when its x-coordinate is tried. */
  lemma LiftedIff(c: Curve, r: nat, nonce: Point)
    requires IsSecp256k1(c) && r < c.n && c.onCurve(nonce)
    ensures (exists i: nat | i < 4 :: LiftAt(c, r, i) == Some(nonce)) <==> nonce.Affine? && TriedX(c, r, nonce.x)
  {
    hide Lawful, Mul;
    ModUnique(r, 0, r, c.p);
    if nonce.Affine? {
      var odd := if Odd(nonce) then 1 else 0;
      if nonce.x == r {
        LiftOfX(c, Odd(nonce), r, nonce);
        assert LiftAt(c, r, odd) == Some(nonce);
      } else if nonce.x == (r + c.n) % c.p {
        LiftOfX(c, Odd(nonce), r + c.n, nonce);
        assert LiftAt(c, r, 2 + odd) == Some(nonce);
      }
    }
    forall i: nat | i < 4 && LiftAt(c, r, i) == Some(nonce)
      ensures nonce.Affine? && TriedX(c, r, nonce.x)
    {
      LiftedX(c, i % 2 != 0, if i / 2 != 0 then r + c.n else r);
    }
  }

  /** Whatever point on the curve the library returns for G.mul(-e mod n): some index recovers the
      signer exactly when the one nonce point that needs has an x-coordinate the indices try. */
  lemma LibraryRecoversIff(c: Curve, d: nat, e: nat, r: nat, s: nat)
    requires IsSecp256k1(c) && 0 < d < c.n && 0 < r < c.n && 0 < s < c.n
    requires c.onCurve(MulBase(c, NegatedHash(c, e)))
    ensures s % c.n != 0
    ensures var nonce := NeededNonce(c, d, r, s, MulBase(c, NegatedHash(c, e)));
      SomeIndexRecovers(c, d, e, r, s) <==> nonce.Affine? && TriedX(c, r, nonce.x)
  {
    hide Lawful, Mul, Inverse, NegatedHash, MulBase, NeededNonce, RecoverPoint, LiftAt;
    BasePoint(c);
    ModUnique(r, 0, r, c.n);
    ModUnique(s, 0, s, c.n);
    var q, t := Mul(c, d, c.g), MulBase(c, NegatedHash(c, e));
    var nonce := NeededNonce(c, d, r, s, t);
    NeededOnCurve(c, d, r, s, t);
    forall i: nat | i < 4
      ensures RecoverPoint(c, e, r, s, i) == Some(q) <==> LiftAt(c, r, i) == Some(nonce)
    {
      RecoversAtIff(c, d, e, r, s, i);
    }
    LiftedIff(c, r, nonce);
  }

  /** With exact negative scalars the needed nonce point is that of the nonce behind (r, s). */
  lemma NeededNonceExact(c: Curve, d: nat, e: nat, r: nat, s: nat)
    requires Lawful(c) && NegativeScalarsAreExact(c) && 0 < r < c.n && 0 < s < c.n
    ensures s % c.n != 0 && c.onCurve(MulBase(c, NegatedHash(c, e)))
    ensures NeededNonce(c, d, r, s, MulBase(c, NegatedHash(c, e))) == NoncePoint(c, d, e, r, s)
  {
    hide Lawful, Mul, Inverse, NonceOf, RecoveredNonce, NegatedHash, MulBase, NeededNonce, NegativeScalarsAreExact;
    BasePoint(c);
    ModUnique(r, 0, r, c.n);
    ModUnique(s, 0, s, c.n);
    var k, t := RecoveredNonce(c, d, e, r, s), MulBase(c, NegatedHash(c, e));
    MulOnCurve(c, k, c.g);
    RecoveredNonceCorrect(c, d, e, r, s);
    MulBaseExact(c, e);
    RecoveredPoint(c, d, e, r, s, k, t);
    RecoversFrom(c, d, r, s, Mul(c, k, c.g), t);
  }

  /** Some index recovers the signer exactly when the nonce behind (r, s) under the hash as
      `toPublicKey` reads it has an x-coordinate the indices try. */
  lemma RecoverableIff(c: Curve, d: nat, e: nat, r: nat, s: nat)
    requires IsSecp256k1(c) && NegativeScalarsAreExact(c) && 0 < d < c.n && 0 < r < c.n && 0 < s < c.n
    ensures var nonce := NoncePoint(c, d, e, r, s);
      SomeIndexRecovers(c, d, e, r, s) <==> nonce.Affine? && TriedX(c, r, nonce.x)
  {
    hide Lawful, NegatedHash, MulBase, NeededNonce, NegativeScalarsAreExact, SomeIndexRecovers, NoncePoint, TriedX;
    NeededNonceExact(c, d, e, r, s);
    LibraryRecoversIff(c, d, e, r, s);
  }

  /** Recovery finds the signer exactly for the pairs the verifier accepts under the same reading of
      the hash, and for those it rejects only because r + n wraps around the field prime onto the
      nonce point's coordinate. */
  lemma RecoverableIffAccepted(c: Curve, d: nat, e: nat, r: nat, s: nat)
    requires IsSecp256k1(c) && NegativeScalarsAreExact(c) && 0 < d < c.n && 0 < r < c.n && 0 < s < c.n
    ensures var nonce := NoncePoint(c, d, e, r, s);
      SomeIndexRecovers(c, d, e, r, s) <==>
      Accepts(c, d, e, r, s) || (r + c.n >= c.p && nonce.Affine? && nonce.x == r + c.n - c.p)
  {
    hide Lawful, NegativeScalarsAreExact, SomeIndexRecovers, Accepts, NoncePoint;
    RecoverableIff(c, d, e, r, s);
    AcceptedX(c, d, e, r, s);
    WrapAround(c, r);
  }

  /** The verifier accepts exactly the two field elements that r stands for. */
  lemma AcceptedX(c: Curve, d: nat, e: nat, r: nat, s: nat)
    requires IsSecp256k1(c) && 0 < r < c.n && 0 < s < c.n
    ensures var nonce := NoncePoint(c, d, e, r, s);
      && (nonce.Affine? ==> nonce.x < c.p)
      && (Accepts(c, d, e, r, s) <==> nonce.Affine? && (nonce.x == r || nonce.x == r + c.n))
  {
    hide Lawful, Mul, RecoveredNonce, CheckSignature;
    BasePoint(c);
    AcceptedIffNonce(c, d, e, r, s);
    var k := RecoveredNonce(c, d, e, r, s);
    var nonce := Mul(c, k, c.g);
    MulOnCurve(c, k, c.g);
    MulZeroIff(c, k, c.g);
    ModUnique(k, 0, k, c.n);
    if nonce.Affine? {
      CoordinateBound(c, nonce);
      XModuloN(c, r, nonce.x);
    }
  }

  /** r + n reduced modulo the field prime. */
  lemma WrapAround(c: Curve, r: nat)
    requires c.n == SECP256K1_N && c.p == SECP256K1_P && r < c.n
    ensures (r + c.n) % c.p == if r + c.n < c.p then r + c.n else r + c.n - c.p
  {
    if r + c.n < c.p {
      ModUnique(r + c.n, 0, r + c.n, c.p);
    } else {
      ModUnique(r + c.n, 1, r + c.n - c.p, c.p);
    }
  }

  lemma XModuloN(c: Curve, r: nat, x: nat)
    requires c.n == SECP256K1_N && c.p == SECP256K1_P && r < c.n && x < c.p
    ensures x % c.n == r <==> x == r || x == r + c.n
  {
    if x < c.n {
      ModUnique(x, 0, x, c.n);
    } else {
      ModUnique(x, 1, x - c.n, c.n);
    }
  }

  // ----- One pair under two readings of the hash -----

  /** The readings agree modulo n, or they are opposite about the key: e1 + e2 + 2 * d * r = 0. */
  predicate Alike(n: nat, e1: int, e2: int, dr: int)
    requires n > 0
  {
    Cong(e1, e2, n) || Cong(e1 + e2 + 2 * dr, 0, n)
  }

  lemma NonceArithmetic(s: nat, k1: nat, k2: nat, m1: int, m2: int, n: nat)
    requires Prime(n) && 0 < s < n && Cong(s * k1, m1, n) && Cong(s * k2, m2, n)
    ensures Cong(k1, k2, n) <==> Cong(m1, m2, n)
    ensures Cong(k1 + k2, 0, n) <==> Cong(m1 + m2, 0, n)
  {
    ModUnique(s, 0, s, n);
    if Cong(k1, k2, n) {
      CongScale(k1, k2, s, n);
    }
    if Cong(m1, m2, n) {
      Cancel(s, k1, k2, n);
    }
    CongAdd(s * k1, m1, s * k2, m2, n);
    assert s * (k1 + k2) == s * k1 + s * k2;
    if Cong(k1 + k2, 0, n) {
      CongScale(k1 + k2, 0, s, n);
    }
    if Cong(m1 + m2, 0, n) {
      Cancel(s, k1 + k2, 0, n);
    }
  }

  lemma AlikeSums(n: nat, e1: int, e2: int, dr: int)
    requires n > 0
    ensures Alike(n, e1, e2, dr) <==> Cong(e1 + dr, e2 + dr, n) || Cong((e1 + dr) + (e2 + dr), 0, n)
  {
    if Cong(e1, e2, n) {
      CongAdd(e1, e2, dr, dr, n);
    }
    if Cong(e1 + dr, e2 + dr, n) {
      CongAdd(e1 + dr, e2 + dr, 0 - dr, 0 - dr, n);
    }
    assert e1 + e2 + 2 * dr == (e1 + dr) + (e2 + dr);
  }

  /** Multiples of G share an x-coordinate exactly when their scalars are equal or opposite. */
  lemma SameXIff(c: Curve, a: nat, b: nat)
    requires Lawful(c) && Mul(c, a, c.g).Affine?
    ensures Mul(c, b, c.g).Affine? && Mul(c, b, c.g).x == Mul(c, a, c.g).x <==>
      Cong(a, b, c.n) || Cong(a + b, 0, c.n)
  {
    hide Lawful, Mul;
    BasePoint(c);
    var p, q := Mul(c, a, c.g), Mul(c, b, c.g);
    MulOnCurve(c, a, c.g);
    MulOnCurve(c, b, c.g);
    MulInjective(c, a, b, c.g);
    NegFacts(c, p);
    ModUnique(0, 0, 0, c.n);
    if Cong(a + b, 0, c.n) {
      MulOpposite(c, a, b, c.g);
    }
    if q == Neg(c, p) {
      PlusOpposite(c, p);
      MulAdd(c, a, b, c.g);
      MulZeroIff(c, a + b, c.g);
    }
    if q.Affine? && q.x == p.x {
      EqualOrOpposite(c, p, q);
    }
  }

  lemma PlusOpposite(c: Curve, q: Point)
    requires Lawful(c) && c.onCurve(q)
    ensures (c.add)(q, Neg(c, q)) == Infinity
  {
    assert NegLaw(c, q);
  }

  lemma EqualOrOpposite(c: Curve, a: Point, b: Point)
    requires Lawful(c) && c.onCurve(a) && c.onCurve(b) && a.Affine? && b.Affine? && a.x == b.x
    ensures b == a || b == Neg(c, a)
  {
    assert SameXLaw(c, a, b) && CoordinateLaw(c, a) && CoordinateLaw(c, b);
  }

  /** The nonces behind one pair under two readings share their x-coordinate exactly for alike readings. */
  lemma SameNonceXIff(c: Curve, d: nat, e1: nat, e2: nat, r: nat, s: nat)
    requires Lawful(c) && 0 < s < c.n && NoncePoint(c, d, e1, r, s).Affine?
    ensures var one, two := NoncePoint(c, d, e1, r, s), NoncePoint(c, d, e2, r, s);
      two.Affine? && two.x == one.x <==> Alike(c.n, e1, e2, d * r)
  {
    hide Lawful, Mul, RecoveredNonce, Alike, Cong;
    NatProduct(d, r);
    NonceCong(c, d, e1, r, s);
    NonceCong(c, d, e2, r, s);
    var k1, k2 := RecoveredNonce(c, d, e1, r, s), RecoveredNonce(c, d, e2, r, s);
    SameXIff(c, k1, k2);
    NonceArithmetic(s, k1, k2, e1 + d * r, e2 + d * r, c.n);
    AlikeSums(c.n, e1, e2, d * r);
  }

  /** A pair accepted under one reading of the hash is accepted under another exactly when the
      readings are alike, or the two nonce points have the two x-coordinates r and r + n; the latter
      needs r + n < p. */
  lemma AcceptedUnderBothIff(c: Curve, d: nat, e1: nat, e2: nat, r: nat, s: nat)
    requires IsSecp256k1(c) && Accepts(c, d, e1, r, s)
    ensures 0 < r < c.n && 0 < s < c.n
    ensures var one, two := NoncePoint(c, d, e1, r, s), NoncePoint(c, d, e2, r, s);
      && one.Affine? && (one.x == r || one.x == r + c.n < c.p)
      && (Accepts(c, d, e2, r, s) <==>
          Alike(c.n, e1, e2, d * r) || (two.Affine? && two.x == 2 * r + c.n - one.x))
    ensures r + c.n >= c.p ==> (Accepts(c, d, e2, r, s) <==> Alike(c.n, e1, e2, d * r))
  {
    InRange(c, d, e1, r, s);
    hide Lawful, NoncePoint, Accepts, Alike;
    AcceptedX(c, d, e1, r, s);
    AcceptedX(c, d, e2, r, s);
    SameNonceXIff(c, d, e1, e2, r, s);
  }

  lemma InRange(c: Curve, d: nat, e: nat, r: nat, s: nat)
    requires Lawful(c) && Accepts(c, d, e, r, s)
    ensures 0 < r < c.n && 0 < s < c.n
  {
  }

  /** A signature accepted under its own byte order. Recovery reads the hash big-endian. The nonce
      point's index still recovers the signer exactly when both readings agree modulo n. Some index
      does exactly when the readings are alike, or the other reading's nonce point has the second
      x-coordinate that r stands for. */
  lemma ByteOrderIff(c: Curve, d: nat, hash: Buffer, endian: Endian, r: nat, s: nat)
    requires IsSecp256k1(c) && NegativeScalarsAreExact(c) && 0 < d < c.n
    requires Accepts(c, d, HashToInt(hash, endian), r, s)
    ensures 0 < r < c.n && 0 < s < c.n
    ensures OwnIndexRecovers(c, d, HashToInt(hash, endian), FromBE(hash), r, s) <==>
      Cong(HashToInt(hash, endian), FromBE(hash), c.n)
    ensures var one := NoncePoint(c, d, HashToInt(hash, endian), r, s);
      var two := NoncePoint(c, d, FromBE(hash), r, s);
      && one.Affine?
      && (SomeIndexRecovers(c, d, FromBE(hash), r, s) <==>
          Alike(c.n, HashToInt(hash, endian), FromBE(hash), d * r)
          || (two.Affine? && two.x == SecondX(c, r, one.x)))
  {
    hide Lawful, NoncePoint, Accepts, Alike, SomeIndexRecovers, OwnIndexRecovers, NegativeScalarsAreExact,
      HashToInt, FromBE, Cong;
    ReadingsIff(c, d, HashToInt(hash, endian), FromBE(hash), r, s);
  }

  /** The index of the nonce point the signer used recovers the signer. */
  predicate OwnIndexRecovers(c: Curve, d: nat, signed: nat, e: nat, r: nat, s: nat)
    requires Lawful(c) && 0 < r < c.n && 0 < s < c.n
  {
    ModUnique(r, 0, r, c.n);
    RecoverPoint(c, e, r, s, RecoveryIndex(r, NoncePoint(c, d, signed, r, s))) == Some(Mul(c, d, c.g))
  }

  lemma ReadingsIff(c: Curve, d: nat, signed: nat, e: nat, r: nat, s: nat)
    requires IsSecp256k1(c) && NegativeScalarsAreExact(c) && 0 < d < c.n && Accepts(c, d, signed, r, s)
    ensures 0 < r < c.n && 0 < s < c.n
    ensures OwnIndexRecovers(c, d, signed, e, r, s) <==> Cong(signed, e, c.n)
    ensures var one, two := NoncePoint(c, d, signed, r, s), NoncePoint(c, d, e, r, s);
      && one.Affine?
      && (SomeIndexRecovers(c, d, e, r, s) <==>
          Alike(c.n, signed, e, d * r) || (two.Affine? && two.x == SecondX(c, r, one.x)))
  {
    InRange(c, d, signed, r, s);
    hide Lawful, NoncePoint, Accepts, Alike, SomeIndexRecovers, OwnIndexRecovers, NegativeScalarsAreExact, TriedX,
      SecondX, Cong;
    OwnIndexIff(c, d, signed, e, r, s);
    AcceptedX(c, d, signed, r, s);
    RecoverableIff(c, d, e, r, s);
    SameNonceXIff(c, d, signed, e, r, s);
    var two := NoncePoint(c, d, e, r, s);
    if two.Affine? {
      OtherX(c, r, NoncePoint(c, d, signed, r, s).x, two.x);
    }
  }

  /** r stands for the x-coordinates r and r + n; the other one than x, as a field element. */
  function SecondX(c: Curve, r: nat, x: nat): int
    requires c.p > 0
  {
    (2 * r + c.n - x) % c.p
  }

  /** Of the two x-coordinates the indices try, one is x, the other the second that r stands for. */
  lemma OtherX(c: Curve, r: nat, x: nat, y: nat)
    requires c.n == SECP256K1_N && c.p == SECP256K1_P && r < c.n && x < c.p && (x == r || x == r + c.n)
    ensures TriedX(c, r, y) <==> y == x || y == SecondX(c, r, x)
  {
    WrapAround(c, r);
    ModUnique(r, 0, r, c.p);
  }

  lemma OwnIndexIff(c: Curve, d: nat, signed: nat, e: nat, r: nat, s: nat)
    requires IsSecp256k1(c) && NegativeScalarsAreExact(c) && 0 < d < c.n && 0 < r < c.n && 0 < s < c.n
    requires Accepts(c, d, signed, r, s)
    ensures OwnIndexRecovers(c, d, signed, e, r, s) <==> Cong(signed, e, c.n)
  {
    hide Lawful, Mul, RecoveredNonce, CheckSignature, RecoverPoint, NegativeScalarsAreExact, MulBase, NegatedHash,
      NonceOf;
    BasePoint(c);
    var k := RecoveredNonce(c, d, signed, r, s);
    AcceptedIffNonce(c, d, signed, r, s);
    RecoveredNonceCorrect(c, d, signed, r, s);
    MulBaseExact(c, e);
    RecoverAtIndexIff(c, d, signed, e, r, s, k);
    DivMod(e, c.n);
    DivMod(signed, c.n);
    MulOnCurve(c, e % c.n, c.g);
    MulOnCurve(c, signed % c.n, c.g);
    NegInjective(c, Mul(c, e % c.n, c.g), Mul(c, signed % c.n, c.g));
    MulInjective(c, e % c.n, signed % c.n, c.g);
    ModUnique(e % c.n, 0, e % c.n, c.n);
    ModUnique(signed % c.n, 0, signed % c.n, c.n);
  }

  // ----- A signature that no index recovers -----

  lemma KeyArithmetic(r: nat, e1: nat, e2: nat, n: nat) returns (d: nat)
    requires Prime(n) && 0 < r < n && !Cong(e1, e2, n) && e2 % n != 0
    ensures 0 < d < n && Cong(e2 + d * r, 0, n) && !Cong(e1 + d * r, 0, n)
  {
    ModUnique(r, 0, r, n);
    var i, m := Inverse(r, n), 0 - e2;
    NonceLemma(r, i, m, n);
    DivMod(i * m, n);
    d := (i * m) % n;
    assert d * r == r * d;
    CongAdd(r * d, m, e2, e2, n);
    ModUnique(0, 0, 0, n);
    assert d == 0 ==> e2 + d * r == e2;
    if Cong(e1 + d * r, 0, n) {
      var back := 0 - d * r;
      CongAdd(e1 + d * r, e2 + d * r, back, back, n);
    }
  }

  /** A nonce whose product with m vanishes modulo n only if m does. */
  lemma NonzeroProduct(k: nat, m: int, n: nat)
    requires Prime(n) && 0 < k < n && !Cong(m, 0, n)
    ensures (Inverse(k, n) * m) % n != 0
  {
    ModUnique(k, 0, k, n);
    ModUnique(0, 0, 0, n);
    NonceLemma(k, Inverse(k, n), m, n);
    var x := (Inverse(k, n) * m) % n;
    assert x == 0 ==> k * x == 0;
  }

  /** Under the reading that makes the nonce zero, no index recovers. */
  lemma ZeroNonceIsLost(c: Curve, d: nat, e: nat, r: nat, s: nat)
    requires IsSecp256k1(c) && NegativeScalarsAreExact(c) && 0 < d < c.n && 0 < r < c.n && 0 < s < c.n
    requires Cong(e + d * r, 0, c.n)
    ensures !SomeIndexRecovers(c, d, e, r, s)
  {
    hide Lawful, NegativeScalarsAreExact, SomeIndexRecovers, RecoveredNonce;
    NonceCong(c, d, e, r, s);
    var k := RecoveredNonce(c, d, e, r, s);
    ModUnique(s, 0, s, c.n);
    Cancel(s, k, 0, c.n);
    ModUnique(k, 0, k, c.n);
    ModUnique(0, 0, 0, c.n);
    assert NoncePoint(c, d, e, r, s) == Mul(c, 0, c.g) == Infinity;
    RecoverableIff(c, d, e, r, s);
  }

  /** For every hash whose two readings differ modulo n, the big-endian one not being zero, and every
      nonce that gives a nonzero r, there is a key for which signing the little-endian reading gives a
      signature that verifies and that none of the four indices recovers. */
  lemma UnrecoveredKey(c: Curve, hash: Buffer, k: nat) returns (d: nat)
    requires IsSecp256k1(c) && NegativeScalarsAreExact(c) && 0 < k < c.n
    requires !Cong(FromLE(hash), FromBE(hash), c.n) && FromBE(hash) % c.n != 0
    requires Mul(c, k, c.g).Affine? && Mul(c, k, c.g).x % c.n != 0
    ensures 0 < d < c.n && Attempt(c, d, FromLE(hash), k).Some?
    ensures var (r, s) := Attempt(c, d, FromLE(hash), k).value;
      && 0 < ToLowS(c, s) < c.n
      && Accepts(c, d, FromLE(hash), r, ToLowS(c, s)) && !SomeIndexRecovers(c, d, FromBE(hash), r, ToLowS(c, s))
  {
    hide Lawful, FromLE, FromBE, SomeIndexRecovers, NegativeScalarsAreExact, CheckSignature, Mul, Attempt, Cong, ToLowS;
    BasePoint(c);
    var e1, e2, r := FromLE(hash), FromBE(hash), Mul(c, k, c.g).x % c.n;
    DivMod(Mul(c, k, c.g).x, c.n);
    d := KeyArithmetic(r, e1, e2, c.n);
    UsableAttempt(c, d, e1, k);
    SignThenVerify(c, d, e1, k);
    var s := Attempt(c, d, e1, k).value.1;
    LowSRange(c, s);
    ZeroNonceIsLost(c, d, e2, r, ToLowS(c, s));
  }

  /** A nonce gives a signature when neither r nor e + d * r vanishes modulo n. */
  lemma UsableAttempt(c: Curve, d: nat, e: nat, k: nat)
    requires Lawful(c) && 0 < k < c.n && Mul(c, k, c.g).Affine? && Mul(c, k, c.g).x % c.n != 0
    requires !Cong(e + d * (Mul(c, k, c.g).x % c.n), 0, c.n)
    ensures Attempt(c, d, e, k).Some? && Attempt(c, d, e, k).value.0 == Mul(c, k, c.g).x % c.n
  {
    hide Lawful, Mul, Inverse, Cong;
    BasePoint(c);
    NonzeroProduct(k, e + d * (Mul(c, k, c.g).x % c.n), c.n);
  }

  /** Among G, 2G and 3G one has an x-coordinate that is not zero modulo n. */
  lemma UsableNonce(c: Curve) returns (k: nat)
    requires IsSecp256k1(c)
    ensures 0 < k < c.n && Mul(c, k, c.g).Affine? && Mul(c, k, c.g).x % c.n != 0
  {
    hide Lawful, Mul;
    SmallMultiple(c, 1);
    SmallMultiple(c, 2);
    SmallMultiple(c, 3);
    DistinctX(c, 1, 2);
    DistinctX(c, 1, 3);
    DistinctX(c, 2, 3);
    k := if Mul(c, 1, c.g).x % c.n != 0 then 1 else if Mul(c, 2, c.g).x % c.n != 0 then 2 else 3;
  }

  lemma SmallMultiple(c: Curve, k: nat)
    requires IsSecp256k1(c) && 0 < k < 4
    ensures Mul(c, k, c.g).Affine? && Mul(c, k, c.g).x < c.p
    ensures Mul(c, k, c.g).x % c.n == 0 <==> Mul(c, k, c.g).x == 0 || Mul(c, k, c.g).x == c.n
  {
    hide Lawful, Mul;
    BasePoint(c);
    MulZeroIff(c, k, c.g);
    ModUnique(k, 0, k, c.n);
    MulOnCurve(c, k, c.g);
    CoordinateBound(c, Mul(c, k, c.g));
    XModuloN(c, 0, Mul(c, k, c.g).x);
  }

  lemma DistinctX(c: Curve, a: nat, b: nat)
    requires IsSecp256k1(c) && 0 < a < b < 4 && Mul(c, a, c.g).Affine? && Mul(c, b, c.g).Affine?
    ensures Mul(c, a, c.g).x != Mul(c, b, c.g).x
  {
    hide Lawful, Mul;
    SameXIff(c, a, b);
    ModUnique(a, 0, a, c.n);
    ModUnique(b, 0, b, c.n);
    ModUnique(a + b, 0, a + b, c.n);
    ModUnique(0, 0, 0, c.n);
  }

  /** There is a little-endian signature that verifies and that no index recovers: the hash is 31
      zero bytes and a one. */
  lemma UnrecoveredSignature(c: Curve) returns (hash: Buffer, d: nat, k: nat)
    requires IsSecp256k1(c) && NegativeScalarsAreExact(c)
    ensures |hash| == 32 && 0 < d < c.n && 0 < k < c.n && Attempt(c, d, FromLE(hash), k).Some?
    ensures var (r, s) := Attempt(c, d, FromLE(hash), k).value;
      && 0 < ToLowS(c, s) < c.n
      && Accepts(c, d, FromLE(hash), r, ToLowS(c, s)) && !SomeIndexRecovers(c, d, FromBE(hash), r, ToLowS(c, s))
  {
    hide Lawful, NegativeScalarsAreExact, SomeIndexRecovers, Accepts, Attempt, Mul;
    hash := BE(1, 32);
    BasePoint(c);
    OneReadTwice(c.n);
    k := UsableNonce(c);
    d := UnrecoveredKey(c, hash, k);
  }

  lemma OneReadTwice(n: nat)
    requires n == SECP256K1_N
    ensures |BE(1, 32)| == 32 && FromBE(BE(1, 32)) == 1 && FromBE(BE(1, 32)) % n != 0
    ensures !Cong(FromLE(BE(1, 32)), FromBE(BE(1, 32)), n)
  {
    hide BE, FromBE, FromLE, Pow256;
    var hash := BE(1, 32);
    TwoTo256();
    BEInverse(1, 32);
    ModUnique(1, 0, 1, n);
    LeadingByte(31);
    var e := FromLE(hash);
    LowByte(hash);
    FromLEBound(hash);
    if Cong(e, 1, n) {
      if e < n {
        ModUnique(e, 0, e, n);
      } else {
        ModUnique(e, 1, e - n, n);
      }
    }
  }

  lemma TwoTo256()
    ensures Pow256(32) == 0x1_00000000_00000000_00000000_00000000_00000000_00000000_00000000_00000000
  {
    assert Pow256(8) == 0x1_00000000_00000000;
    assert Pow256(16) == 0x1_00000000_00000000_00000000_00000000;
    assert Pow256(24) == 0x1_00000000_00000000_00000000_00000000_00000000_00000000;
  }

  lemma FromLEBound(b: Buffer)
    ensures FromLE(b) < Pow256(|b|)
  {
  }

  lemma LowByte(b: Buffer)
    requires b != []
    ensures FromLE(b) % 256 == b[0]
  {
  }

  /** A one written in more than one byte starts with zero. */
  lemma {:induction false} LeadingByte(k: nat)
    requires k > 0
    ensures BE(1, k + 1)[0] == 0 && BE(0, k)[0] == 0
  {
    ZeroBytes(k);
  }

  lemma {:induction false} ZeroBytes(k: nat)
    requires k > 0
    ensures BE(0, k)[0] == 0
  {
    if k > 1 {
      ZeroBytes(k - 1);
    }
  }

  lemma NegInjective(c: Curve, a: Point, b: Point)
    requires Lawful(c) && c.onCurve(a) && c.onCurve(b)
    ensures Neg(c, a) == Neg(c, b) <==> a == b
  {
    if a != Infinity {
      NegFacts(c, a);
    }
    if b != Infinity {
      NegFacts(c, b);
    }
  }

  // ----- The ECDSA object -----

  datatype Signature = Signature(r: nat, s: nat, i: Option<int>, compressed: bool)

  class ECDSA {
    const c: Curve
    const hashbuf: Buffer
    const endian: Endian
    const d: nat                  // privkey.bn
    const pub: Point              // pubkey.point
    const compressed: bool        // pubkey.compressed
    const nonces: nat -> nat      // deterministicK(badrs) for this key and hash
    var k: Option<nat>
    var sig: Signature
    var verified: bool

    /** A 32-byte hash, a private key in range, and nonces as `deterministicK`, `randomK` leave them. */
    ghost predicate Valid()
      reads this
    {
      && IsSecp256k1(c) && 0 < d < c.n && pub == Mul(c, d, c.g) && c.onCurve(pub) && |hashbuf| == 32
      && (forall b :: 0 < nonces(b) < c.n)
      && (k.Some? ==> 0 < k.value < c.n)
    }

    constructor (c: Curve, hashbuf: Buffer, endian: Endian, d: nat, compressed: bool,
                 nonces: nat -> nat, k: Option<nat>)
      requires IsSecp256k1(c) && 0 < d < c.n && |hashbuf| == 32
      requires (forall b :: 0 < nonces(b) < c.n) && (k.Some? ==> 0 < k.value < c.n)
      ensures Valid() && this.k == k && this.d == d && this.hashbuf == hashbuf && this.endian == endian
    {
      MulOnCurve(c, d, c.g);
      this.c, this.hashbuf, this.endian, this.d, this.compressed := c, hashbuf, endian, d, compressed;
      this.nonces, this.k, pub := nonces, k, Mul(c, d, c.g);
      sig, verified := Signature(0, 0, None, compressed), false;
    }

    /** The nonce of round b: the given k first, then the deterministic stream. */
    function Nonce(given: Option<nat>, b: nat): nat {
      if given.Some? && b == 0 then given.value else nonces(b)
    }

    /** One round of `_findSignature` with the current nonce. */
    method Round(e: nat) returns (r: nat, s: nat)
      requires Valid() && k.Some?
      ensures Attempt(c, d, e, k.value) == if r == 0 || s == 0 then None else Some((r, s))
    {
      MulZeroIff(c, k.value, c.g);
      ModUnique(k.value, 0, k.value, c.n);
      var q := Mul(c, k.value, c.g);
      r := q.x % c.n;
      s := (Inverse(k.value, c.n) * (e + d * r)) % c.n;
    }

    /** Round b is the first whose nonce gives nonzero r and s. */
    ghost predicate FirstRound(e: nat, given: Option<nat>, b: nat)
      requires Valid()
      reads this
    {
      0 < Nonce(given, b) < c.n && Attempt(c, d, e, Nonce(given, b)).Some? && NoneBefore(e, given, b)
    }

    ghost predicate NoneBefore(e: nat, given: Option<nat>, b: nat)
      requires Valid()
      reads this
    {
      forall j: nat | j < b :: 0 < Nonce(given, j) < c.n && Attempt(c, d, e, Nonce(given, j)).None?
    }

    /** `_findSignature`: retries until r and s are both nonzero, and so ends with the first nonce of
        the stream that gives such a pair. `last` is a round that succeeds. */
    method FindSignature(e: nat, ghost last: nat) returns (r: nat, s: nat, ghost round: nat)
      requires Valid() && Attempt(c, d, e, Nonce(k, last)).Some?
      modifies this`k
      ensures Valid()
      ensures round <= last && FirstRound(e, old(k), round) && k == Some(Nonce(old(k), round))
      ensures k == if old(k).Some? && round == 0 then old(k) else Some(nonces(round))
      ensures old(k).Some? && round > 0 ==> Attempt(c, d, e, old(k).value).None?
      ensures forall j: nat | (if old(k).Some? then 1 else 0) <= j < round :: Attempt(c, d, e, nonces(j)).None?
      ensures r == Attempt(c, d, e, k.value).value.0
      ensures s == ToLowS(c, Attempt(c, d, e, k.value).value.1)
    {
      hide Attempt, ToLowS, Lawful, Mul;
      var badrs := 0;
      r, s := 0, 0;
      ghost var given := k;
      while r <= 0 || s <= 0
        invariant Valid() && badrs <= last + 1
        invariant badrs == 0 ==> k == given && r == 0
        invariant badrs > 0 ==> k.Some? && k.value == Nonce(given, badrs - 1)
        invariant badrs > 0 ==> Attempt(c, d, e, k.value) == if r == 0 || s == 0 then None else Some((r, s))
        invariant NoneBefore(e, given, if badrs > 0 then badrs - 1 else 0)
        decreases last + 1 - badrs
      {
        if k.None? || badrs > 0 {
          k := Some(nonces(badrs));
        }
        badrs := badrs + 1;
        r, s := Round(e);
      }
      round := badrs - 1;
      assert given.Some? && round > 0 ==> Attempt(c, d, e, Nonce(given, 0)).None?;
      forall j: nat | (if given.Some? then 1 else 0) <= j < round ensures Attempt(c, d, e, nonces(j)).None? {
        assert Nonce(given, j) == nonces(j);
      }
      assert 0 < s < c.n;
      LowSRange(c, s);
      s := ToLowS(c, s);
    }

    /** `sign`: the stored signature is the low-S pair of the first usable nonce, and is accepted by
        `sigError` for this key and hash. */
    method Sign(ghost last: nat) returns (ghost round: nat)
      requires Valid() && Attempt(c, d, HashToInt(hashbuf, endian), Nonce(k, last)).Some?
      modifies this`k, this`sig
      ensures Valid()
      ensures round <= last && FirstRound(HashToInt(hashbuf, endian), old(k), round)
      ensures var (r, s) := Attempt(c, d, HashToInt(hashbuf, endian), Nonce(old(k), round)).value;
        sig.r == r && sig.s == ToLowS(c, s)
      ensures k == if old(k).Some? && round == 0 then old(k) else Some(nonces(round))
      ensures 1 <= sig.s <= (c.n - 1) / 2
      ensures Accepted()
      ensures var e := if endian == Little then FromLE(hashbuf) else FromBE(hashbuf);
        CheckSignature(c, pub, e, sig.r, sig.s) == None
      ensures sig.i == None && sig.compressed == compressed
    {
      var e := HashToInt(hashbuf, endian);
      var r, s;
      r, s, round := FindSignature(e, last);
      SignThenVerify(c, d, e, k.value);
      sig := Signature(r, s, None, compressed);
    }

    /** The verifier accepts the stored signature. */
    ghost predicate Accepted()
      requires Valid()
      reads this
    {
      CheckSignature(c, pub, HashToInt(hashbuf, endian), sig.r, sig.s) == None
    }

    method Verify()
      requires Valid()
      modifies this`verified
      ensures Valid()
      ensures verified <==> Accepted()
      ensures verified <==>
        CheckSignature(c, pub, if endian == Little then FromLE(hashbuf) else FromBE(hashbuf), sig.r, sig.s) == None
      ensures verified <==> exists k: nat | 0 < k < c.n ::
        Attempt(c, d, HashToInt(hashbuf, endian), k) == Some((sig.r, sig.s))
    {
      var err := CheckSignature(c, pub, HashToInt(hashbuf, endian), sig.r, sig.s);
      verified := err == None;
      AcceptedIffSigned(c, d, HashToInt(hashbuf, endian), sig.r, sig.s);
    }

    /** `calci`: for a big-endian signature the verifier accepts, stores an index that recovers the
        signer's point; without the library law it may throw, and then no index does. */
    method Calci() returns (thrown: bool)
      requires Valid() && 0 < sig.r < c.n
      modifies this`sig
      ensures Valid() && sig.r == old(sig.r) && sig.s == old(sig.s)
      ensures sig.r % c.n != 0
      ensures !thrown ==> sig.i.Some? && 0 <= sig.i.value < 4 && sig.compressed == compressed
      ensures !thrown ==> RecoverPoint(c, FromBE(hashbuf), sig.r, sig.s, sig.i.value) == Some(pub)
      ensures thrown ==> sig.i == None
      ensures thrown ==> forall i: nat | i < 4 :: RecoverPoint(c, FromBE(hashbuf), sig.r, sig.s, i) != Some(pub)
      ensures (endian == Big && NegativeScalarsAreExact(c) && old(Accepted())) ==> !thrown
    {
      ModUnique(sig.r, 0, sig.r, c.n);
      var e := FromBE(hashbuf);
      for i := 0 to 4
        invariant Valid() && sig.r == old(sig.r) && sig.s == old(sig.s)
        invariant forall j: nat | j < i :: RecoverPoint(c, e, sig.r, sig.s, j) != Some(pub)
      {
        sig := sig.(i := Some(i));
        var q := RecoverPoint(c, e, sig.r, sig.s, i);
        if q == Some(pub) {
          sig := sig.(compressed := compressed);
          return false;
        }
      }
      sig := sig.(i := None);
      ghost var (r, s) := (sig.r, sig.s);
      if NegativeScalarsAreExact(c) && CheckSignature(c, pub, e, r, s) == None {
        RecoveryFindsSigner(c, d, e, r, s);
      }
      return true;
    }
  }
}
