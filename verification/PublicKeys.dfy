/** Public keys and their compressed DER form (lib/bitcore/publickey.ts). */
module PublicKeys {
  import opened Buffers
  import opened ModArith
  import opened EllipticCurve

  datatype PublicKey = PublicKey(point: Point, compressed: bool)

  /** What the PublicKey constructor guarantees: a point on the curve other than infinity. */
  ghost predicate ValidKey(c: Curve, k: PublicKey) {
    c.onCurve(k.point) && k.point.Affine?
  }

  function ToDER(k: PublicKey): (b: Buffer)
    requires k.point.Affine?
    ensures |b| == if k.compressed then 33 else 65
  {
    if k.compressed then [if Odd(k.point) then 3 else 2] + BE(k.point.x, 32)
    else [4] + BE(k.point.x, 32) + BE(k.point.y, 32)
  }

  /** `new PublicKey(buf)` on 33 bytes; None when it throws. A prefix of 4 needs 65 bytes. */
  function FromDER(c: Curve, buf: Buffer): (k: Option<PublicKey>)
    requires |buf| == 33
    ensures k.Some? ==> k.value.point.Affine? && k.value.compressed
  {
    if buf[0] == 2 || buf[0] == 3 then
      match c.fromX(buf[0] == 3, FromBE(buf[1..]))
      case None => None
      case Some(q) => if q == Infinity then None else Some(PublicKey(q, true))
    else None
  }

  lemma DERRoundTrip(c: Curve, k: PublicKey)
    requires Lawful(c) && ValidKey(c, k) && k.compressed
    ensures FromDER(c, ToDER(k)) == Some(k)
  {
    hide Lawful, LE, BE, FromBE, Pow256;
    assert k.point.x < c.p < Pow256(32) && c.p > 0 by {
      CoordinateBound(c, k.point);
    }
    BEInverse(k.point.x, 32);
    ModUnique(k.point.x, 0, k.point.x, c.p);
    assert ToDER(k)[1..] == BE(k.point.x, 32);
    LiftOfX(c, Odd(k.point), k.point.x, k.point);
  }

  /** Two compressed keys with the same serialisation are the same key. */
  lemma DERInjective(c: Curve, a: PublicKey, b: PublicKey)
    requires Lawful(c) && ValidKey(c, a) && ValidKey(c, b) && a.compressed && b.compressed
    ensures ToDER(a) == ToDER(b) <==> a == b
  {
    DERRoundTrip(c, a);
    DERRoundTrip(c, b);
  }

  /** The bytes of a key: 2 or 3 by the parity of y and x big-endian, or 4, x and y. */
  lemma DERFields(c: Curve, k: PublicKey)
    requires Lawful(c) && ValidKey(c, k)
    ensures var b := ToDER(k);
      && FromBE(b[1..33]) == k.point.x
      && b[0] == (if !k.compressed then 4 else if k.point.y % 2 == 1 then 3 else 2)
      && (!k.compressed ==> FromBE(b[33..65]) == k.point.y)
      && |b| == if k.compressed then 33 else 65
  {
    hide Lawful, BE, FromBE, Pow256;
    CoordinateBound(c, k.point);
    YBound(c, k.point);
    BEInverse(k.point.x, 32);
    BEInverse(k.point.y, 32);
    var b := ToDER(k);
    assert b[1..33] == BE(k.point.x, 32);
    assert !k.compressed ==> b[33..65] == BE(k.point.y, 32);
  }

  lemma YBound(c: Curve, q: Point)
    requires Lawful(c) && c.onCurve(q) && q.Affine?
    ensures q.y < c.p < Pow256(32)
  {
    assert CoordinateLaw(c, q);
  }

  /** 33 bytes are a key exactly when they start with 2 or 3 and some point has that parity and the
      x-coordinate that the rest gives modulo p. */
  lemma FromDERIff(c: Curve, b: Buffer, k: PublicKey)
    requires Lawful(c) && |b| == 33
    ensures FromDER(c, b) == Some(k) <==>
      && (b[0] == 2 || b[0] == 3) && k.compressed && ValidKey(c, k)
      && k.point.x == FromBE(b[1..]) % c.p && k.point.y % 2 == b[0] - 2
  {
    hide FromBE;
    var x := FromBE(b[1..]);
    assert LiftLaw(c, b[0] == 3, x);
    if ValidKey(c, k) && k.point.x == x % c.p {
      LiftOfX(c, b[0] == 3, x, k.point);
      NegFacts(c, k.point);
    }
  }

  /** `addScalar`: the key plus t times the base point; None when the sum is infinity. */
  function AddScalar(c: Curve, k: PublicKey, t: nat): (r: Option<PublicKey>)
    ensures r.Some? ==> r.value.point.Affine? && r.value.compressed == k.compressed
  {
    var sum := (c.add)(k.point, Mul(c, t, c.g));
    if sum == Infinity then None else Some(PublicKey(sum, k.compressed))
  }

  lemma AddScalarValid(c: Curve, k: PublicKey, t: nat)
    requires Lawful(c) && ValidKey(c, k) && AddScalar(c, k, t).Some?
    ensures ValidKey(c, AddScalar(c, k, t).value) && AddScalar(c, k, t).value.compressed == k.compressed
  {
    MulOnCurve(c, t, c.g);
    assert AddLaw(c, k.point, Mul(c, t, c.g));
  }

  /** The same tweaked key arises only from scalars congruent modulo the group order. */
  lemma AddScalarInjective(c: Curve, k: PublicKey, t: nat, u: nat)
    requires Lawful(c) && ValidKey(c, k)
    ensures AddScalar(c, k, t) == AddScalar(c, k, u) <==> Cong(t, u, c.n)
  {
    hide Lawful, Cong;
    var p, a, b := k.point, Mul(c, t, c.g), Mul(c, u, c.g);
    assert c.onCurve(c.g) && c.g != Infinity && c.n > 0 by { BasePoint(c); }
    MulOnCurve(c, t, c.g);
    MulOnCurve(c, u, c.g);
    CancelLeft(c, p, a, b);
    MulInjective(c, t, u, c.g);
  }

  /** The point of the private key (d + t) mod n is the point of d plus t times the base point, and
      the sum is infinity exactly when (d + t) mod n is not a private key. */
  lemma TweakCommutes(c: Curve, d: nat, t: nat)
    requires Lawful(c)
    ensures var k := (d + t) % c.n;
      AddScalar(c, PublicKey(Mul(c, d, c.g), true), t) == if k == 0 then None else Some(PublicKey(Mul(c, k, c.g), true))
  {
    MulAdd(c, d, t, c.g);
    MulMod(c, d + t, c.g);
    MulZeroIff(c, d + t, c.g);
  }
}
