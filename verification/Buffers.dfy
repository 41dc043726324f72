/** Byte buffers, fixed-width integers inside them, and the option type used for thrown errors. */
module Buffers {

  /** `None` stands for a thrown exception (or an absent optional argument). */
  datatype Option<+T> = None | Some(value: T)

  type byte = b: int | 0 <= b < 256

  type Buffer = seq<byte>

  lemma ConcatAssoc<T>(a: seq<T>, b: seq<T>, c: seq<T>)
    ensures a + b + c == a + (b + c)
  {
  }

  /** 256 to the power k. */
  function Pow256(k: nat): (r: nat)
    ensures r >= 1
  {
    if k == 0 then 1 else 256 * Pow256(k - 1)
  }

  /** k bytes of n, least significant first. */
  function LE(n: nat, k: nat): (b: Buffer)
    ensures |b| == k
  {
    if k == 0 then [] else [n % 256] + LE(n / 256, k - 1)
  }

  function FromLE(b: Buffer): (n: nat)
    ensures n < Pow256(|b|)
  {
    if b == [] then 0 else b[0] + 256 * FromLE(b[1..])
  }

  /** k bytes of n, most significant first. */
  function BE(n: nat, k: nat): (b: Buffer)
    ensures |b| == k
  {
    if k == 0 then [] else BE(n / 256, k - 1) + [n % 256]
  }

  function FromBE(b: Buffer): (n: nat)
    ensures n < Pow256(|b|)
  {
    if b == [] then 0 else 256 * FromBE(b[..|b| - 1]) + b[|b| - 1]
  }

  lemma {:induction false} LEInverse(n: nat, k: nat)
    requires n < Pow256(k)
    ensures FromLE(LE(n, k)) == n
  {
    if k != 0 {
      LEInverse(n / 256, k - 1);
      assert LE(n, k)[1..] == LE(n / 256, k - 1);
    }
  }

  lemma {:induction false} FromLEInverse(b: Buffer)
    ensures LE(FromLE(b), |b|) == b
  {
    if b != [] {
      FromLEInverse(b[1..]);
      var n := FromLE(b);
      assert n % 256 == b[0] && n / 256 == FromLE(b[1..]);
      assert b == [b[0]] + b[1..];
    }
  }

  lemma {:induction false} BEInverse(n: nat, k: nat)
    requires n < Pow256(k)
    ensures FromBE(BE(n, k)) == n
  {
    if k != 0 {
      BEInverse(n / 256, k - 1);
      var head := BE(n / 256, k - 1);
      assert BE(n, k) == head + [n % 256] && (head + [n % 256])[..k - 1] == head;
      assert (head + [n % 256])[k - 1] == n % 256;
    }
  }

  lemma {:induction false} FromBEInverse(b: Buffer)
    ensures BE(FromBE(b), |b|) == b
  {
    if b != [] {
      var front, last := b[..|b| - 1], b[|b| - 1];
      FromBEInverse(front);
      var m := FromBE(front);
      assert (256 * m + last) / 256 == m && (256 * m + last) % 256 == last;
      assert b == front + [last];
    }
  }

  /** `Buffer.alloc(k)`. */
  function Zeros(k: nat): (b: Buffer)
    ensures |b| == k && forall i :: 0 <= i < k ==> b[i] == 0
  {
    if k == 0 then [] else [0] + Zeros(k - 1)
  }

  /** Node's `Buffer.compare(a, b) < 0`: byte-wise, a proper prefix comes first. */
  predicate Less(a: Buffer, b: Buffer)
    decreases |a|
  {
    b != [] && (a == [] || a[0] < b[0] || (a[0] == b[0] && Less(a[1..], b[1..])))
  }

  /** The byte-wise order is total: exactly one of a < b, a == b, b < a. */
  lemma {:induction false} LessTrichotomy(a: Buffer, b: Buffer)
    ensures Less(a, b) ==> !Less(b, a) && a != b
    ensures a != b ==> Less(a, b) || Less(b, a)
    decreases |a|
  {
    if a != [] && b != [] && a[0] == b[0] {
      LessTrichotomy(a[1..], b[1..]);
      assert a == [a[0]] + a[1..] && b == [b[0]] + b[1..];
    }
  }

  /** Node's `b.slice(pos, pos + len)`: cut short at the end of the buffer. */
  function Slice(b: Buffer, pos: nat, len: nat): (s: Buffer)
    ensures |s| <= len
  {
    if pos >= |b| then []
    else if pos + len >= |b| then b[pos..]
    else b[pos..pos + len]
  }

  /** A leading byte contributes its weight. */
  lemma {:induction false} FromBECons(b: byte, t: Buffer)
    ensures FromBE([b] + t) == b * Pow256(|t|) + FromBE(t)
  {
    var s := [b] + t;
    if t == [] {
      assert s[..0] == [];
    } else {
      var front := t[..|t| - 1];
      assert s[..|s| - 1] == [b] + front && s[|s| - 1] == t[|t| - 1];
      FromBECons(b, front);
      Reweigh(b, Pow256(|front|));
    }
  }

  lemma Reweigh(b: nat, w: nat)
    ensures b * (256 * w) == 256 * (b * w)
  {
  }

  /** Appending bytes to a little-endian number. */
  lemma {:induction false} FromLEConcat(a: Buffer, b: Buffer)
    ensures FromLE(a + b) == FromLE(a) + Pow256(|a|) * FromLE(b)
  {
    if a == [] {
      assert a + b == b;
    } else {
      FromLEConcat(a[1..], b);
      assert (a + b)[1..] == a[1..] + b;
      Reassociate(Pow256(|a| - 1), FromLE(b));
    }
  }

  lemma Reassociate(w: nat, n: nat)
    ensures 256 * (w * n) == 256 * w * n
  {
  }

  /** For buffers of one length the byte-wise order is that of the big-endian numbers. */
  lemma {:induction false} LessIsNumeric(a: Buffer, b: Buffer)
    requires |a| == |b|
    ensures Less(a, b) <==> FromBE(a) < FromBE(b)
    decreases |a|
  {
    hide FromBE, Pow256;
    if a != [] {
      var x, y := a[1..], b[1..];
      LessIsNumeric(x, y);
      Leading(a);
      Leading(b);
      assert FromBE(x) < Pow256(|x|) && FromBE(y) < Pow256(|x|);
      LeadingWeight(a[0], b[0], FromBE(x), FromBE(y), Pow256(|x|));
      LeadingWeight(b[0], a[0], FromBE(y), FromBE(x), Pow256(|x|));
    }
  }

  lemma Leading(b: Buffer)
    requires b != []
    ensures FromBE(b) == b[0] * Pow256(|b[1..]|) + FromBE(b[1..])
  {
    FromBECons(b[0], b[1..]);
    assert b == [b[0]] + b[1..];
  }

  lemma LeadingWeight(a: nat, b: nat, x: nat, y: nat, w: nat)
    requires x < w && y < w
    ensures a < b ==> a * w + x < b * w + y
    ensures a == b ==> (a * w + x < b * w + y <==> x < y)
  {
    if a < b {
      assert (a + 1) * w <= b * w;
      assert (a + 1) * w == a * w + w;
    }
  }

  /** `Buffer.from(text)` for a text of one-byte characters. */
  function TextBytes(s: string): (b: Buffer)
    ensures |b| == |s|
  {
    if s == [] then [] else [s[0] as int % 256] + TextBytes(s[1..])
  }
}
