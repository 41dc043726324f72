/** The curve group behind lib/bitcore/crypto/point.ts. Points are affine coordinates or infinity;
    addition and x-lifting are parameters constrained by the group laws of secp256k1. */
module EllipticCurve {
  import opened Buffers
  import opened ModArith

  datatype Point = Infinity | Affine(x: nat, y: nat)

  datatype Curve = Curve(
    p: nat,                                 // field prime
    n: nat,                                 // group order
    g: Point,                               // base point
    onCurve: Point -> bool,
    add: (Point, Point) -> Point,
    fromX: (bool, nat) -> Option<Point>,    // Point.fromX(odd, x); None when it throws
    mulNegative: (int, Point) -> Point      // what the curve library returns for a negative scalar
  )

  predicate Odd(q: Point) {
    q.Affine? && q.y % 2 == 1
  }

  /** The scalar multiple k * q by repeated addition. */
  function Mul(c: Curve, k: nat, q: Point): Point {
    if k == 0 then Infinity else (c.add)(q, Mul(c, k - 1, q))
  }

  function Neg(c: Curve, q: Point): Point {
    match q
    case Infinity => Infinity
    case Affine(x, y) => if y <= c.p then Affine(x, c.p - y) else q
  }

  // ----- The laws, one predicate each so that proofs name the instance they use -----

  ghost predicate AddLaw(c: Curve, a: Point, b: Point) {
    c.onCurve(a) && c.onCurve(b) ==> c.onCurve((c.add)(a, b)) && (c.add)(a, b) == (c.add)(b, a)
  }

  ghost predicate AssocLaw(c: Curve, a: Point, b: Point, d: Point) {
    c.onCurve(a) && c.onCurve(b) && c.onCurve(d) ==> (c.add)((c.add)(a, b), d) == (c.add)(a, (c.add)(b, d))
  }

  ghost predicate IdentityLaw(c: Curve, a: Point) {
    c.onCurve(a) ==> (c.add)(Infinity, a) == a
  }

  ghost predicate NegLaw(c: Curve, a: Point) {
    c.onCurve(a) ==> c.onCurve(Neg(c, a)) && (c.add)(a, Neg(c, a)) == Infinity
  }

  /** Every point has order dividing n: the curve has cofactor 1. */
  ghost predicate OrderLaw(c: Curve, a: Point) {
    c.onCurve(a) ==> Mul(c, c.n, a) == Infinity
  }

  /** Coordinates are field elements and no point has y = 0. */
  ghost predicate CoordinateLaw(c: Curve, a: Point) {
    c.onCurve(a) && a.Affine? ==> a.x < c.p && 0 < a.y < c.p
  }

  /** Only opposite points share an x-coordinate. */
  ghost predicate SameXLaw(c: Curve, a: Point, b: Point) {
    c.onCurve(a) && c.onCurve(b) && a.Affine? && b.Affine? && a.x == b.x ==> a.y == b.y || a.y == c.p - b.y
  }

  /** `fromX` reduces x modulo p and returns the point with that x and parity, or throws. */
  ghost predicate LiftLaw(c: Curve, odd: bool, x: nat) {
    c.p > 0 &&
    match c.fromX(odd, x)
    case Some(q) => c.onCurve(q) && q.Affine? && q.x == x % c.p && Odd(q) == odd
    case None => forall a :: NoPointAt(c, x % c.p, a)
  }

  ghost predicate NoPointAt(c: Curve, x: nat, a: Point) {
    c.onCurve(a) && a.Affine? ==> a.x != x
  }

  ghost predicate Lawful(c: Curve) {
    && Prime(c.n) && 2 < c.n < Pow256(32) && c.p % 2 == 1 && c.p < Pow256(32)
    && c.onCurve(Infinity) && c.onCurve(c.g) && c.g != Infinity
    && (forall a, b :: AddLaw(c, a, b))
    && (forall a, b, d :: AssocLaw(c, a, b, d))
    && (forall a :: IdentityLaw(c, a))
    && (forall a :: NegLaw(c, a))
    && (forall a :: OrderLaw(c, a))
    && (forall a :: CoordinateLaw(c, a))
    && (forall a, b :: SameXLaw(c, a, b))
    && (forall odd, x :: LiftLaw(c, odd, x))
  }

  /** The curve library multiplies the base point by negative scalars above -n as the group does. */
  ghost predicate NegativeScalarsAreExact(c: Curve) {
    forall k: nat :: NegativeScalarLaw(c, k)
  }

  ghost predicate NegativeScalarLaw(c: Curve, k: nat) {
    0 < k < c.n ==> (c.mulNegative)(0 - k, c.g) == Neg(c, Mul(c, k, c.g))
  }

  // ----- Scalar multiplication -----

  lemma {:induction false} MulOnCurve(c: Curve, k: nat, q: Point)
    requires Lawful(c) && c.onCurve(q)
    ensures c.onCurve(Mul(c, k, q))
  {
    if k != 0 {
      MulOnCurve(c, k - 1, q);
      assert AddLaw(c, q, Mul(c, k - 1, q));
    }
  }

  lemma MulOne(c: Curve, q: Point)
    requires Lawful(c) && c.onCurve(q)
    ensures Mul(c, 1, q) == q
  {
    assert IdentityLaw(c, q) && AddLaw(c, q, Infinity);
    assert Mul(c, 1, q) == (c.add)(q, Mul(c, 0, q));
  }

  lemma {:induction false} MulAdd(c: Curve, a: nat, b: nat, q: Point)
    requires Lawful(c) && c.onCurve(q)
    ensures Mul(c, a + b, q) == (c.add)(Mul(c, a, q), Mul(c, b, q))
  {
    MulOnCurve(c, b, q);
    if a == 0 {
      assert IdentityLaw(c, Mul(c, b, q));
    } else {
      MulOnCurve(c, a - 1, q);
      MulAdd(c, a - 1, b, q);
      assert AssocLaw(c, q, Mul(c, a - 1, q), Mul(c, b, q));
    }
  }

  lemma {:induction false} MulMul(c: Curve, a: nat, b: nat, q: Point)
    requires Lawful(c) && c.onCurve(q)
    ensures Mul(c, a * b, q) == Mul(c, a, Mul(c, b, q))
  {
    if a == 0 {
      assert a * b == 0;
    } else {
      hide Lawful;
      MulMul(c, a - 1, b, q);
      NatProduct(a - 1, b);
      assert a * b == b + (a - 1) * b;
      MulAdd(c, b, (a - 1) * b, q);
    }
  }

  lemma {:induction false} MulSum(c: Curve, k: nat, a: Point, b: Point)
    requires Lawful(c) && c.onCurve(a) && c.onCurve(b)
    ensures Mul(c, k, (c.add)(a, b)) == (c.add)(Mul(c, k, a), Mul(c, k, b))
  {
    if k == 0 {
      assert IdentityLaw(c, Infinity);
    } else {
      MulSum(c, k - 1, a, b);
      MulOnCurve(c, k - 1, a);
      MulOnCurve(c, k - 1, b);
      AddSwap(c, a, b, Mul(c, k - 1, a), Mul(c, k - 1, b));
    }
  }

  lemma AddSwap(c: Curve, a: Point, b: Point, a': Point, b': Point)
    requires Lawful(c) && c.onCurve(a) && c.onCurve(b) && c.onCurve(a') && c.onCurve(b')
    ensures (c.add)((c.add)(a, b), (c.add)(a', b')) == (c.add)((c.add)(a, a'), (c.add)(b, b'))
  {
    assert AddLaw(c, a', b') && AddLaw(c, b, b') && AddLaw(c, b, a');
    assert AssocLaw(c, a, b, (c.add)(a', b')) && AssocLaw(c, b, a', b');
    assert AssocLaw(c, a', b, b') && AssocLaw(c, a, a', (c.add)(b, b'));
  }

  lemma {:induction false} MulInfinity(c: Curve, k: nat)
    requires Lawful(c)
    ensures Mul(c, k, Infinity) == Infinity
  {
    if k != 0 {
      MulInfinity(c, k - 1);
      assert IdentityLaw(c, Infinity);
    }
  }

  lemma MulDropsOrder(c: Curve, d: nat, m: nat, k: nat, q: Point)
    requires Lawful(c) && c.onCurve(q) && k == c.n * d + m
    ensures Mul(c, k, q) == Mul(c, m, q)
  {
    NatProduct(d, c.n);
    MulMul(c, d, c.n, q);
    assert OrderLaw(c, q);
    MulInfinity(c, d);
    MulAdd(c, d * c.n, m, q);
    MulOnCurve(c, m, q);
    assert IdentityLaw(c, Mul(c, m, q));
  }

  /** A multiple depends only on the scalar modulo the group order. */
  lemma MulMod(c: Curve, k: nat, q: Point)
    requires Lawful(c) && c.onCurve(q)
    ensures Mul(c, k, q) == Mul(c, k % c.n, q)
  {
    DivMod(k, c.n);
    MulDropsOrder(c, k / c.n, k % c.n, k, q);
  }

  lemma MulCong(c: Curve, a: nat, b: nat, q: Point)
    requires Lawful(c) && c.onCurve(q) && Cong(a, b, c.n)
    ensures Mul(c, a, q) == Mul(c, b, q)
  {
    MulMod(c, a, q);
    MulMod(c, b, q);
  }

  lemma NegUnique(c: Curve, a: Point, b: Point)
    requires Lawful(c) && c.onCurve(a) && c.onCurve(b) && (c.add)(a, b) == Infinity
    ensures b == Neg(c, a)
  {
    var na := Neg(c, a);
    assert NegLaw(c, a) && AddLaw(c, a, na) && AssocLaw(c, na, a, b);
    assert IdentityLaw(c, b) && IdentityLaw(c, na) && AddLaw(c, na, Infinity);
  }

  /** Opposite scalars give opposite points. */
  lemma MulOpposite(c: Curve, a: nat, b: nat, q: Point)
    requires Lawful(c) && c.onCurve(q) && (a + b) % c.n == 0
    ensures Mul(c, b, q) == Neg(c, Mul(c, a, q))
  {
    MulOnCurve(c, a, q);
    MulOnCurve(c, b, q);
    MulAdd(c, a, b, q);
    MulMod(c, a + b, q);
    NegUnique(c, Mul(c, a, q), Mul(c, b, q));
  }

  /** In a group of prime order a multiple of a nonzero point vanishes only at multiples of n. */
  lemma MulZeroIff(c: Curve, k: nat, q: Point)
    requires Lawful(c) && c.onCurve(q) && q != Infinity
    ensures Mul(c, k, q) == Infinity <==> k % c.n == 0
  {
    MulMod(c, k, q);
    if k % c.n != 0 && Mul(c, k, q) == Infinity {
      var i := Inverse(k, c.n);
      MulMul(c, i, k, q);
      MulInfinity(c, i);
      NatProduct(i, k);
      MulCong(c, i * k, 1, q);
      MulOne(c, q);
    }
  }

  /** Multiples of a nonzero point are equal exactly when the scalars agree modulo n. */
  lemma MulInjective(c: Curve, a: nat, b: nat, q: Point)
    requires Lawful(c) && c.onCurve(q) && q != Infinity
    ensures Mul(c, a, q) == Mul(c, b, q) <==> Cong(a, b, c.n)
  {
    if Cong(a, b, c.n) {
      MulCong(c, a, b, q);
    } else if Mul(c, a, q) == Mul(c, b, q) {
      hide Lawful, Mul;
      BasePoint(c);
      var d := c.n - b % c.n;
      MulAdd(c, a, d, q);
      MulAdd(c, b, d, q);
      MulZeroIff(c, b + d, q);
      MulZeroIff(c, a + d, q);
      SameComplement(a, b, c.n);
    }
  }

  /** Numbers with the same complement modulo n are congruent. */
  lemma SameComplement(a: nat, b: nat, n: nat)
    requires n > 0
    ensures var d := n - b % n; (b + d) % n == 0 && ((a + d) % n == 0 ==> Cong(a, b, n))
  {
    var d := n - b % n;
    CongMod(b, n);
    CongAdd(b, b % n, d, d, n);
    ModUnique(n, 1, 0, n);
    if (a + d) % n == 0 {
      CongAdd(a + d, b + d, -d, -d, n);
    }
  }

  lemma NegFacts(c: Curve, q: Point)
    requires Lawful(c) && c.onCurve(q) && q != Infinity
    ensures c.onCurve(Neg(c, q)) && Neg(c, q).Affine? && Neg(c, q).x == q.x
    ensures Odd(Neg(c, q)) == !Odd(q) && Neg(c, Neg(c, q)) == q
  {
    assert NegLaw(c, q) && CoordinateLaw(c, q);
  }

  /** Lifting the x-coordinate of a point with either parity gives the point or its opposite. */
  lemma LiftOfX(c: Curve, odd: bool, x: nat, q: Point)
    requires Lawful(c) && c.onCurve(q) && q != Infinity && x % c.p == q.x
    ensures c.fromX(odd, x) == Some(if odd == Odd(q) then q else Neg(c, q))
  {
    assert LiftLaw(c, odd, x);
    NegFacts(c, q);
    var missing := NoPointAt(c, q.x, q);  // false, so fromX did not throw
    assert SameXLaw(c, c.fromX(odd, x).value, q);
  }

  lemma CoordinateBound(c: Curve, q: Point)
    requires Lawful(c) && c.onCurve(q) && q.Affine?
    ensures q.x < c.p < Pow256(32)
  {
    assert CoordinateLaw(c, q);
  }

  lemma BasePoint(c: Curve)
    requires Lawful(c)
    ensures c.onCurve(c.g) && c.g != Infinity && c.n > 2 && Prime(c.n)
  {
  }

  lemma CancelLeft(c: Curve, p: Point, a: Point, b: Point)
    requires Lawful(c) && c.onCurve(p) && c.onCurve(a) && c.onCurve(b)
    ensures (c.add)(p, a) == (c.add)(p, b) <==> a == b
  {
    var np := Neg(c, p);
    assert NegLaw(c, p) && AddLaw(c, p, np);
    assert AssocLaw(c, np, p, a) && AssocLaw(c, np, p, b) && IdentityLaw(c, a) && IdentityLaw(c, b);
  }

  // ----- The laws are consistent -----

  /** A group of three points over the field of three elements. */
  function Toy(): Curve {
    Curve(3, 3, Affine(0, 1), ToyOn, ToyAdd, ToyFromX, ToyMulNegative)
  }

  predicate ToyOn(q: Point) {
    q == Infinity || q == Affine(0, 1) || q == Affine(0, 2)
  }

  function ToyAdd(a: Point, b: Point): Point {
    if a == Infinity then b
    else if b == Infinity then a
    else if a != b then Infinity
    else if a == Affine(0, 1) then Affine(0, 2) else Affine(0, 1)
  }

  function ToyFromX(odd: bool, x: nat): Option<Point> {
    if x % 3 != 0 then None else Some(Affine(0, if odd then 1 else 2))
  }

  function ToyMul(k: nat, q: Point): Point {
    if k == 0 then Infinity else ToyAdd(q, ToyMul(k - 1, q))
  }

  function ToyNeg(q: Point): Point {
    match q
    case Infinity => Infinity
    case Affine(x, y) => if y <= 3 then Affine(x, 3 - y) else q
  }

  function ToyMulNegative(k: int, q: Point): Point {
    if k > 0 then Infinity else ToyNeg(ToyMul(-k, q))
  }

  lemma {:induction false} ToyMulIsMul(k: nat, q: Point)
    ensures Mul(Toy(), k, q) == ToyMul(k, q)
  {
    if k > 0 {
      ToyMulIsMul(k - 1, q);
    }
  }

  /** The assumed laws, that of negative scalars included, contradict nothing: a concrete curve meets
      them all. */
  lemma LawsHaveModel()
    ensures Lawful(Toy()) && NegativeScalarsAreExact(Toy())
  {
    LawfulToy();
    forall k: nat ensures NegativeScalarLaw(Toy(), k) {
      ToyMulIsMul(k, Toy().g);
    }
  }

  lemma LawfulToy()
    ensures Lawful(Toy())
  {
    hide AddLaw, AssocLaw, IdentityLaw, NegLaw, OrderLaw, CoordinateLaw, SameXLaw, LiftLaw, Pow256, ToyOn, ToyAdd;
    var c := Toy();
    ToySize();
    forall a, b ensures AddLaw(c, a, b) && SameXLaw(c, a, b) { ToyPair(a, b); }
    forall a, b, d ensures AssocLaw(c, a, b, d) { ToyAssoc(a, b, d); }
    forall a ensures IdentityLaw(c, a) && NegLaw(c, a) && OrderLaw(c, a) && CoordinateLaw(c, a) { ToyPoint(a); }
    forall odd, x: nat ensures LiftLaw(c, odd, x) { ToyLift(odd, x); }
  }

  lemma ToySize()
    ensures 3 < Pow256(32) && Prime(3) && ToyOn(Infinity) && ToyOn(Affine(0, 1))
  {
    assert Pow256(1) == 256;
    PowGrows(1, 32);
  }

  lemma ToyPair(a: Point, b: Point)
    ensures AddLaw(Toy(), a, b) && SameXLaw(Toy(), a, b)
  {
  }

  lemma ToyAssoc(a: Point, b: Point, d: Point)
    ensures AssocLaw(Toy(), a, b, d)
  {
  }

  lemma ToyPoint(a: Point)
    ensures IdentityLaw(Toy(), a) && NegLaw(Toy(), a) && OrderLaw(Toy(), a) && CoordinateLaw(Toy(), a)
  {
    var c := Toy();
    assert Mul(c, 1, a) == ToyAdd(a, Mul(c, 0, a));
    assert Mul(c, 2, a) == ToyAdd(a, Mul(c, 1, a));
    assert Mul(c, 3, a) == ToyAdd(a, Mul(c, 2, a));
  }

  lemma ToyLift(odd: bool, x: nat)
    ensures LiftLaw(Toy(), odd, x)
  {
  }

  lemma {:induction false} PowGrows(j: nat, k: nat)
    requires j <= k
    ensures Pow256(j) <= Pow256(k)
  {
    if j < k {
      PowGrows(j, k - 1);
    }
  }
}
