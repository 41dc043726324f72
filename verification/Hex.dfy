/** Hex and decimal text as JavaScript writes and Node reads it. */
module Hex {
  import opened Buffers

  const DIGITS := "0123456789abcdef"

  function Digit(n: nat): (c: char)
    requires n < 16
  {
    DIGITS[n]
  }

  /** The value of a hex digit in either case; None for other characters. */
  function Value(c: char): (v: Option<nat>)
    ensures v.Some? ==> v.value < 16
  {
    if '0' <= c <= '9' then Some((c - '0') as nat)
    else if 'a' <= c <= 'f' then Some((c - 'a') as nat + 10)
    else if 'A' <= c <= 'F' then Some((c - 'A') as nat + 10)
    else None
  }

  /** `toString('hex')` on a buffer. */
  function HexOf(b: Buffer): (s: string)
    ensures |s| == 2 * |b|
  {
    if b == [] then [] else [Digit(b[0] / 16), Digit(b[0] % 16)] + HexOf(b[1..])
  }

  /** `Buffer.from(s, 'hex')`: stops at the first pair that is not two hex digits. */
  function Unhex(s: string): (b: Buffer)
    ensures 2 * |b| <= |s|
  {
    if |s| < 2 || Value(s[0]).None? || Value(s[1]).None? then []
    else [16 * Value(s[0]).value + Value(s[1]).value] + Unhex(s[2..])
  }

  predicate IsHex(s: string) {
    forall i :: 0 <= i < |s| ==> Value(s[i]).Some?
  }

  predicate LowerHex(s: string) {
    forall i :: 0 <= i < |s| ==> '0' <= s[i] <= '9' || 'a' <= s[i] <= 'f'
  }

  lemma ValueOfDigit(n: nat)
    requires n < 16
    ensures Value(Digit(n)) == Some(n) && LowerHex([Digit(n)])
  {
  }

  lemma {:induction false} HexConcat(a: Buffer, b: Buffer)
    ensures HexOf(a + b) == HexOf(a) + HexOf(b)
  {
    hide HexOf;
    EmptyHex();
    if a == [] {
      assert a + b == b;
    } else {
      HexConcat(a[1..], b);
      HexCons(a[0], a[1..]);
      HexCons(a[0], a[1..] + b);
      assert a == [a[0]] + a[1..] && a + b == [a[0]] + (a[1..] + b);
    }
  }

  lemma HexCons(x: byte, b: Buffer)
    ensures HexOf([x] + b) == [Digit(x / 16), Digit(x % 16)] + HexOf(b)
  {
    assert ([x] + b)[1..] == b;
  }

  lemma {:induction false} UnhexHex(b: Buffer)
    ensures Unhex(HexOf(b)) == b && LowerHex(HexOf(b))
  {
    if b != [] {
      UnhexHex(b[1..]);
      ValueOfDigit(b[0] / 16);
      ValueOfDigit(b[0] % 16);
      assert HexOf(b)[2..] == HexOf(b[1..]);
    }
  }

  lemma {:induction false} HexUnhex(s: string)
    requires LowerHex(s) && |s| % 2 == 0
    ensures HexOf(Unhex(s)) == s && 2 * |Unhex(s)| == |s|
  {
    hide HexOf, LowerHex, Digit, Value, Unhex;
    if s == [] {
      EmptyHex();
    } else {
      var rest := s[2..];
      LowerParts(s);
      HexUnhex(rest);
      DigitOfValue(s[0]);
      DigitOfValue(s[1]);
      PairHex(s[0], s[1], Unhex(rest));
      UnhexPair(s);
      assert s == [s[0], s[1]] + rest;
    }
  }

  lemma EmptyHex()
    ensures Unhex([]) == [] && HexOf([]) == []
  {
  }

  lemma UnhexPair(s: string)
    requires |s| >= 2 && Value(s[0]).Some? && Value(s[1]).Some?
    ensures Unhex(s) == [16 * Value(s[0]).value + Value(s[1]).value] + Unhex(s[2..])
  {
  }

  lemma LowerParts(s: string)
    requires LowerHex(s) && |s| >= 2
    ensures LowerHex(s[2..])
    ensures forall i :: 0 <= i < 2 ==> '0' <= s[i] <= '9' || 'a' <= s[i] <= 'f'
  {
  }

  lemma PairHex(x: char, y: char, b: Buffer)
    requires Value(x).Some? && Value(y).Some?
    requires Digit(Value(x).value) == x && Digit(Value(y).value) == y
    ensures HexOf([16 * Value(x).value + Value(y).value] + b) == [x, y] + HexOf(b)
  {
    hide Digit, Value;
    var n := 16 * Value(x).value + Value(y).value;
    assert ([n] + b)[1..] == b && n / 16 == Value(x).value && n % 16 == Value(y).value;
  }

  lemma DigitOfValue(c: char)
    requires '0' <= c <= '9' || 'a' <= c <= 'f'
    ensures Value(c).Some? && Digit(Value(c).value) == c
  {
  }

  lemma {:induction false} UnhexLength(s: string)
    requires IsHex(s)
    ensures |Unhex(s)| == |s| / 2
  {
    if |s| >= 2 {
      UnhexLength(s[2..]);
    }
  }

  lemma {:induction false} UnhexConcat(a: string, b: string)
    requires IsHex(a) && |a| % 2 == 0
    ensures Unhex(a + b) == Unhex(a) + Unhex(b)
  {
    hide Unhex, Value;
    if a == [] {
      EmptyHex();
      assert a + b == b;
    } else {
      var rest := a[2..];
      assert IsHex(rest);
      UnhexConcat(rest, b);
      UnhexPair(a);
      UnhexPair(a + b);
      assert (a + b)[2..] == rest + b;
    }
  }

  // ----- Numbers -----

  /** `n.toString(16)`. */
  function HexDigits(n: nat): (s: string)
    ensures |s| >= 1
  {
    if n < 16 then [Digit(n)] else HexDigits(n / 16) + [Digit(n % 16)]
  }

  /** `toString(16)` of a possibly negative BigInt. */
  function HexText(v: int): string {
    if v < 0 then "-" + HexDigits(-v) else HexDigits(v)
  }

  function Pow16(k: nat): (r: nat)
    ensures r >= 1
  {
    if k == 0 then 1 else 16 * Pow16(k - 1)
  }

  /** n has at most k hex digits exactly when it is below 16^k. */
  lemma {:induction false} HexDigitsLength(n: nat, k: nat)
    requires k >= 1
    ensures |HexDigits(n)| <= k <==> n < Pow16(k)
    ensures LowerHex(HexDigits(n))
  {
    if n < 16 {
      ValueOfDigit(n);
      if k > 1 { Pow16AtLeast(k); }
    } else {
      ValueOfDigit(n % 16);
      if k > 1 {
        HexDigitsLength(n / 16, k - 1);
      } else {
        HexDigitsLength(n / 16, 1);
      }
    }
  }

  lemma {:induction false} Pow16AtLeast(k: nat)
    requires k >= 1
    ensures Pow16(k) >= 16
  {
    if k > 1 { Pow16AtLeast(k - 1); }
  }

  /** Reading the bytes of an even number of hex digits gives the number back. */
  lemma {:induction false} HexDigitsBytes(n: nat)
    requires |HexDigits(n)| % 2 == 0
    ensures FromBE(Unhex(HexDigits(n))) == n
  {
    hide Unhex, FromBE, Digit, LowerHex;
    var hi, lo := n / 16 % 16, n % 16;
    ValueOfDigit(hi);
    ValueOfDigit(lo);
    PairBytes(hi, lo);
    assert n >= 16 && HexDigits(n) == HexDigits(n / 16) + [Digit(lo)];
    if n / 16 < 16 {
      assert HexDigits(n) == [Digit(hi), Digit(lo)];
      SnocBytes([], n);
      assert [] + [n] == [n];
      assert FromBE([]) == 0 by { EmptyBytes(); }
    } else {
      var m := n / 256;
      assert n / 16 / 16 == m && n == 256 * m + (16 * hi + lo);
      var front := HexDigits(m);
      assert HexDigits(n) == front + [Digit(hi), Digit(lo)];
      HexDigitsBytes(m);
      HexDigitsLength(m, 1);
      LowerIsHex(front);
      UnhexConcat(front, [Digit(hi), Digit(lo)]);
      SnocBytes(Unhex(front), 16 * hi + lo);
    }
  }

  lemma EmptyBytes()
    ensures FromBE([]) == 0
  {
  }

  lemma LowerIsHex(s: string)
    requires LowerHex(s)
    ensures IsHex(s)
  {
  }

  lemma PairBytes(hi: nat, lo: nat)
    requires hi < 16 && lo < 16
    ensures Unhex([Digit(hi), Digit(lo)]) == [16 * hi + lo]
  {
    ValueOfDigit(hi);
    ValueOfDigit(lo);
    var s := [Digit(hi), Digit(lo)];
    assert s[2..] == [];
  }

  lemma SnocBytes(b: Buffer, x: byte)
    ensures FromBE(b + [x]) == 256 * FromBE(b) + x
  {
    assert (b + [x])[..|b|] == b;
  }

  predicate IsDecimal(s: string) {
    s != [] && forall i :: 0 <= i < |s| ==> '0' <= s[i] <= '9'
  }

  function FromDecimal(s: string): nat
    requires forall i :: 0 <= i < |s| ==> '0' <= s[i] <= '9'
  {
    if s == [] then 0 else 10 * FromDecimal(s[..|s| - 1]) + (s[|s| - 1] - '0') as nat
  }

  /** `n.toString()`. */
  function ToDecimal(n: nat): (s: string)
    ensures IsDecimal(s)
  {
    if n < 10 then [DIGITS[n]] else ToDecimal(n / 10) + [DIGITS[n % 10]]
  }

  lemma {:induction false} DecimalInverse(n: nat)
    ensures FromDecimal(ToDecimal(n)) == n
    ensures n > 0 ==> ToDecimal(n)[0] != '0'
  {
    if n >= 10 {
      DecimalInverse(n / 10);
      assert ToDecimal(n)[..|ToDecimal(n)| - 1] == ToDecimal(n / 10);
    }
  }

  /** A decimal text is printed back exactly when it has no leading zero. */
  lemma {:induction false} DecimalText(s: string)
    requires IsDecimal(s)
    ensures ToDecimal(FromDecimal(s)) == s <==> s == "0" || s[0] != '0'
    ensures s[0] != '0' ==> FromDecimal(s) > 0
    ensures s == "0" ==> FromDecimal(s) == 0
  {
    hide ToDecimal;
    var d := (s[|s| - 1] - '0') as nat;
    var front := s[..|s| - 1];
    assert s == front + [s[|s| - 1]] && DIGITS[d] == s[|s| - 1];
    if |s| == 1 {
      assert front == [];
      OneDigit(d);
    } else {
      DecimalText(front);
      var n := FromDecimal(front);
      assert FromDecimal(s) == 10 * n + d;
      if s[0] != '0' {
        DecimalStep(n, d);
        assert ToDecimal(n) == front;
      } else {
        LeadingZero(s);
      }
    }
  }

  lemma OneDigit(d: nat)
    requires d < 10
    ensures ToDecimal(d) == [DIGITS[d]]
  {
  }

  lemma DecimalStep(n: nat, d: nat)
    requires n > 0 && d < 10
    ensures ToDecimal(10 * n + d) == ToDecimal(n) + [DIGITS[d]]
  {
    TenDigits(n, d);
  }

  lemma TenDigits(n: nat, d: nat)
    requires d < 10
    ensures (10 * n + d) / 10 == n && (10 * n + d) % 10 == d
  {
  }

  lemma LeadingZero(s: string)
    requires IsDecimal(s) && |s| > 1 && s[0] == '0'
    ensures ToDecimal(FromDecimal(s)) != s
  {
    DecimalInverse(FromDecimal(s));
    assert FromDecimal(s) == 0 ==> |ToDecimal(FromDecimal(s))| == 1;
  }
}
