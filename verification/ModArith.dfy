/** Arithmetic modulo n, and inverses modulo a prime by the extended Euclidean algorithm. */
module ModArith {

  predicate Cong(a: int, b: int, n: int)
    requires n > 0
  {
    a % n == b % n
  }

  lemma DivMod(a: int, n: int)
    requires n > 0
    ensures a == n * (a / n) + a % n && 0 <= a % n < n
    ensures a >= 0 ==> a / n >= 0
  {
  }

  lemma NatProduct(a: nat, b: nat)
    ensures 0 <= a * b == b * a
  {
  }

  lemma Monotone(n: int, d: int)
    requires n > 0 && d >= 1
    ensures n * d >= n
  {
  }

  /** Quotient and remainder are unique. */
  lemma DivisionUnique(n: int, q: int, r: int, q': int, r': int)
    requires 0 <= r < n && 0 <= r' < n && n * q + r == n * q' + r'
    ensures q == q' && r == r'
  {
    assert n * q - n * q' == n * (q - q') && n * q' - n * q == n * (q' - q);
    if q > q' {
      Monotone(n, q - q');
    } else if q < q' {
      Monotone(n, q' - q);
    }
  }

  lemma ModUnique(a: int, q: int, r: int, n: int)
    requires 0 <= r < n && a == n * q + r
    ensures a % n == r && a / n == q
  {
    DivMod(a, n);
    DivisionUnique(n, q, r, a / n, a % n);
  }

  lemma CongMultiple(a: int, b: int, k: int, n: int)
    requires n > 0 && a == b + n * k
    ensures Cong(a, b, n)
  {
    var q, r := b / n, b % n;
    assert a == n * (q + k) + r;
    ModUnique(a, q + k, r, n);
  }

  lemma CongWitness(a: int, b: int, n: int) returns (k: int)
    requires n > 0 && Cong(a, b, n)
    ensures a == b + n * k
  {
    k := a / n - b / n;
    assert a == n * (a / n) + a % n && b == n * (b / n) + b % n;
    assert n * k == n * (a / n) - n * (b / n);
  }

  lemma CongMod(a: int, n: int)
    requires n > 0
    ensures Cong(a % n, a, n)
  {
    CongMultiple(a, a % n, a / n, n);
  }

  lemma CongAdd(a: int, b: int, c: int, d: int, n: int)
    requires n > 0 && Cong(a, b, n) && Cong(c, d, n)
    ensures Cong(a + c, b + d, n)
  {
    var k := CongWitness(a, b, n);
    var l := CongWitness(c, d, n);
    assert a + c == (b + d) + n * (k + l);
    CongMultiple(a + c, b + d, k + l, n);
  }

  lemma CongScale(a: int, b: int, c: int, n: int)
    requires n > 0 && Cong(a, b, n)
    ensures Cong(a * c, b * c, n) && Cong(c * a, c * b, n)
  {
    var k := CongWitness(a, b, n);
    ScaledMultiple(b, k, c, n);
    CongMultiple(a * c, b * c, k * c, n);
    assert a * c == c * a && b * c == c * b;
  }

  lemma ScaledMultiple(b: int, k: int, c: int, n: int)
    ensures (b + n * k) * c == b * c + n * (k * c)
  {
  }

  lemma CongMul(a: int, b: int, c: int, d: int, n: int)
    requires n > 0 && Cong(a, b, n) && Cong(c, d, n)
    ensures Cong(a * c, b * d, n)
  {
    CongScale(a, b, c, n);
    CongScale(c, d, b, n);
  }

  // ----- Primes and inverses -----

  ghost predicate Prime(n: int) {
    n >= 2 && forall d :: 1 < d < n ==> n % d != 0
  }

  /** Bezout coefficients of a and b, with the greatest common divisor and its cofactors. */
  datatype Bezout = Bezout(gcd: nat, x: int, y: int, a1: nat, b1: nat)

  predicate IsBezout(a: nat, b: nat, r: Bezout) {
    && r.gcd == a * r.x + b * r.y
    && a == r.gcd * r.a1 && b == r.gcd * r.b1
    && (a > 0 || b > 0 ==> r.gcd > 0)
  }

  function Egcd(a: nat, b: nat): Bezout
    decreases b
  {
    if b == 0 then Bezout(a, 1, 0, 1, 0) else BezoutUp(a / b, Egcd(b, a % b))
  }

  /** Coefficients for (a, b) from those for (b, a - q * b). */
  function BezoutUp(q: nat, r: Bezout): Bezout {
    Bezout(r.gcd, r.y, r.x - q * r.y, q * r.a1 + r.b1, r.a1)
  }

  lemma EgcdStep(a: nat, b: nat, q: nat, m: nat, r: Bezout)
    requires b > 0 && a == b * q + m && IsBezout(b, m, r)
    ensures IsBezout(a, b, BezoutUp(q, r))
  {
    var g := r.gcd;
    calc {
      a * r.y + b * (r.x - q * r.y);
      { assert b * (r.x - q * r.y) == b * r.x - b * (q * r.y); }
      (b * q + m) * r.y + b * r.x - b * (q * r.y);
      { assert (b * q + m) * r.y == (b * q) * r.y + m * r.y; assert (b * q) * r.y == b * (q * r.y); }
      m * r.y + b * r.x;
      g;
    }
    calc {
      g * (q * r.a1 + r.b1);
      g * (q * r.a1) + g * r.b1;
      { assert g * (q * r.a1) == (g * r.a1) * q; }
      b * q + m;
      a;
    }
  }

  lemma {:induction false} EgcdCorrect(a: nat, b: nat)
    ensures IsBezout(a, b, Egcd(a, b))
    decreases b
  {
    if b != 0 {
      EgcdCorrect(b, a % b);
      DivMod(a, b);
      EgcdStep(a, b, a / b, a % b, Egcd(b, a % b));
    }
  }

  /** A number below a prime has gcd 1 with it. */
  lemma GcdOfPrime(m: nat, n: nat, r: Bezout)
    requires Prime(n) && 0 < m < n && IsBezout(m, n, r)
    ensures r.gcd == 1
  {
    assert r.gcd * 0 == 0;
    Monotone(r.gcd, r.a1);
    if r.gcd > 1 {
      ModUnique(n, r.b1, 0, r.gcd);
    }
  }

  /** `a.invm(n)` for a prime modulus: the representative below n. */
  function Inverse(a: int, n: int): (r: nat)
    requires Prime(n) && a % n != 0
    ensures 0 < r < n && Cong(a * r, 1, n)
  {
    InverseCorrect(a, n);
    Egcd(a % n, n).x % n
  }

  lemma InverseCorrect(a: int, n: int)
    requires Prime(n) && a % n != 0
    ensures var r := Egcd(a % n, n).x % n; 0 < r < n && Cong(a * r, 1, n)
  {
    var m, e := a % n, Egcd(a % n, n);
    EgcdCorrect(m, n);
    GcdOfPrime(m, n, e);
    BezoutInverts(a, m, n, e.x, e.y);
  }

  lemma BezoutInverts(a: int, m: int, n: int, x: int, y: int)
    requires n > 1 && m == a % n && m * x + n * y == 1
    ensures Cong(a * (x % n), 1, n) && x % n != 0
  {
    CongMod(a, n);
    CongMod(x, n);
    CongMul(a, m, x % n, x, n);
    assert n * (-y) == -(n * y);
    CongMultiple(m * x, 1, -y, n);
    if x % n == 0 {
      assert a * (x % n) == 0;
      ModUnique(1, 0, 1, n);
      ModUnique(0, 0, 0, n);
    }
  }

  /** A factor that is not zero modulo a prime can be cancelled. */
  lemma Cancel(a: int, b: int, c: int, n: int)
    requires Prime(n) && a % n != 0 && Cong(a * b, a * c, n)
    ensures Cong(b, c, n)
  {
    var i := Inverse(a, n);
    CongScale(a * i, 1, b, n);
    CongScale(a * i, 1, c, n);
    CongScale(a * b, a * c, i, n);
    assert a * i * b == a * b * i && a * i * c == a * c * i;
  }
}
