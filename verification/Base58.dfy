/** Base58Check of lib/bitcore/encoding/base58check.ts. SHA-256 is a parameter. */
module Base58 {
  import opened Buffers
  import opened ModArith

  /** The alphabet 1-9, A-H, J-N, P-Z, a-k, m-z. */
  function CharOf(d: nat): (c: char)
    requires d < 58
    ensures '1' <= c <= 'z' && c != ':'
    ensures c == '1' <==> d == 0
  {
    if d < 9 then '1' + d as char
    else if d < 17 then 'A' + (d - 9) as char
    else if d < 22 then 'J' + (d - 17) as char
    else if d < 33 then 'P' + (d - 22) as char
    else if d < 44 then 'a' + (d - 33) as char
    else 'm' + (d - 44) as char
  }

  /** `ALPHABET_MAP[char]`. */
  function DigitOf(c: char): (d: Option<nat>)
    ensures d.Some? ==> d.value < 58 && CharOf(d.value) == c
  {
    if '1' <= c <= '9' then Some((c - '1') as nat)
    else if 'A' <= c <= 'H' then Some((c - 'A') as nat + 9)
    else if 'J' <= c <= 'N' then Some((c - 'J') as nat + 17)
    else if 'P' <= c <= 'Z' then Some((c - 'P') as nat + 22)
    else if 'a' <= c <= 'k' then Some((c - 'a') as nat + 33)
    else if 'm' <= c <= 'z' then Some((c - 'm') as nat + 44)
    else None
  }

  lemma DigitOfChar(d: nat)
    requires d < 58
    ensures DigitOf(CharOf(d)) == Some(d)
  {
  }

  // ----- Numerals in any base -----

  type Digits = seq<nat>

  function Value(ds: Digits, base: nat): nat {
    if ds == [] then 0 else Value(ds[..|ds| - 1], base) * base + ds[|ds| - 1]
  }

  /** The digits of n without leading zero; none for 0. */
  function Numeral(n: nat, base: nat): (ds: Digits)
    requires base >= 2
    ensures forall i :: 0 <= i < |ds| ==> ds[i] < base
    ensures ds != [] ==> ds[0] != 0
    ensures n > 0 ==> ds != []
  {
    if n == 0 then [] else Quotient(n, base); Numeral(n / base, base) + [n % base]
  }

  lemma Quotient(n: nat, base: nat)
    requires n > 0 && base >= 2
    ensures 0 <= n / base < n && 0 <= n % base < base && n == n / base * base + n % base
    ensures n >= base ==> n / base > 0
  {
  }

  function Leading(ds: Digits): (k: nat)
    ensures k <= |ds|
  {
    if ds == [] || ds[0] != 0 then 0 else 1 + Leading(ds[1..])
  }

  predicate InBase(ds: Digits, base: nat) {
    forall i :: 0 <= i < |ds| ==> ds[i] < base
  }

  lemma ValueSnoc(ds: Digits, d: nat, base: nat)
    ensures Value(ds + [d], base) == Value(ds, base) * base + d
  {
    assert (ds + [d])[..|ds|] == ds;
  }

  lemma NumeralStep(n: nat, d: nat, base: nat)
    requires base >= 2 && d < base && n * base + d > 0
    ensures Numeral(n * base + d, base) == Numeral(n, base) + [d]
  {
    var m := n * base + d;
    Quotient(m, base);
    DivisionUnique(base, n, d, m / base, m % base);
  }

  /** A numeral behind any number of zeros has its value and its zeros. */
  lemma {:induction false} ValueOfNumeral(k: nat, n: nat, base: nat)
    requires base >= 2
    ensures Value(Zeros(k) + Numeral(n, base), base) == n
    ensures Leading(Zeros(k) + Numeral(n, base)) == k
  {
    LeadingZeros(k, Numeral(n, base));
    if n == 0 {
      assert Zeros(k) + [] == Zeros(k);
      ValueZeros(k, base);
    } else {
      Quotient(n, base);
      ValueOfNumeral(k, n / base, base);
      assert Zeros(k) + Numeral(n, base) == (Zeros(k) + Numeral(n / base, base)) + [n % base];
      ValueSnoc(Zeros(k) + Numeral(n / base, base), n % base, base);
    }
  }

  lemma {:induction false} LeadingZeros(k: nat, ds: Digits)
    requires ds != [] ==> ds[0] != 0
    ensures Leading(Zeros(k) + ds) == k
  {
    if k == 0 {
      assert Zeros(0) + ds == ds;
    } else {
      LeadingZeros(k - 1, ds);
      assert (Zeros(k) + ds)[1..] == Zeros(k - 1) + ds;
    }
  }

  lemma {:induction false} ValueZeros(k: nat, base: nat)
    ensures Value(Zeros(k), base) == 0
  {
    if k > 0 {
      ValueZeros(k - 1, base);
      assert Zeros(k)[..k - 1] == Zeros(k - 1);
    }
  }

  /** Any digits are their leading zeros and the numeral of their value. */
  lemma {:induction false} NumeralOfValue(ds: Digits, base: nat)
    requires base >= 2 && InBase(ds, base)
    ensures ds == Zeros(Leading(ds)) + Numeral(Value(ds, base), base)
  {
    hide Numeral, Leading, Zeros, Value;
    ZeroNumeral(base);
    if ds == [] {
      NoLeading(base);
      assert Zeros(0) + [] == Zeros(0);
    } else {
      var front, d := ds[..|ds| - 1], ds[|ds| - 1];
      assert ds == front + [d];
      NumeralOfValue(front, base);
      ValueSnoc(front, d, base);
      LeadingSnoc(front, d);
      ZeroFirst(front, Value(front, base), base);
      SnocNumeral(front, d, Value(front, base), base);
    }
  }

  lemma SnocNumeral(ds: Digits, d: nat, n: nat, base: nat)
    requires base >= 2 && d < base && ds == Zeros(Leading(ds)) + Numeral(n, base)
    requires n == 0 <==> Leading(ds) == |ds|
    ensures ds + [d] ==
      Zeros(if Leading(ds) == |ds| && d == 0 then |ds| + 1 else Leading(ds)) + Numeral(n * base + d, base)
  {
    hide Numeral, Leading, Zeros;
    ZeroNumeral(base);
    if n * base + d == 0 {
      ZeroFactor(n, base);
      ZerosSnoc(|ds|);
      assert Zeros(Leading(ds)) + [] == Zeros(Leading(ds));
      assert Zeros(|ds| + 1) + [] == Zeros(|ds| + 1);
    } else {
      NumeralStep(n, d, base);
      ConcatAssoc(Zeros(Leading(ds)), Numeral(n, base), [d]);
    }
  }

  lemma NoLeading(base: nat)
    ensures Leading([]) == 0 && Zeros(0) == [] && Value([], base) == 0
  {
  }

  lemma ZerosSnoc(k: nat)
    ensures Zeros(k) + [0] == Zeros(k + 1)
  {
  }

  /** Only zeros have no numeral. */
  lemma ZeroFirst(ds: Digits, n: nat, base: nat)
    requires base >= 2 && ds == Zeros(Leading(ds)) + Numeral(n, base)
    ensures n == 0 <==> Leading(ds) == |ds|
  {
  }

  lemma ZeroFactor(n: nat, base: nat)
    requires base > 0
    ensures n * base == 0 ==> n == 0
  {
  }

  lemma {:induction false} LeadingSnoc(ds: Digits, d: nat)
    ensures Leading(ds + [d]) == if Leading(ds) == |ds| && d == 0 then |ds| + 1 else Leading(ds)
  {
    if ds != [] && ds[0] == 0 {
      LeadingSnoc(ds[1..], d);
      assert (ds + [d])[1..] == ds[1..] + [d];
    }
  }

  // ----- Base58 -----

  function Text(ds: Digits): (s: string)
    requires InBase(ds, 58)
    ensures |s| == |ds|
  {
    if ds == [] then [] else [CharOf(ds[0])] + Text(ds[1..])
  }

  /** The digits of a text; None when a character is not in the alphabet. */
  function DigitsOf(s: string): (ds: Option<Digits>)
    ensures ds.Some? ==> |ds.value| == |s| && InBase(ds.value, 58)
  {
    if s == [] then Some([])
    else match (DigitOf(s[0]), DigitsOf(s[1..]))
      case (Some(d), Some(ds)) => Some([d] + ds)
      case _ => None
  }

  lemma {:induction false} DigitsOfText(ds: Digits)
    requires InBase(ds, 58)
    ensures DigitsOf(Text(ds)) == Some(ds)
  {
    if ds != [] {
      DigitsOfText(ds[1..]);
      DigitOfChar(ds[0]);
      assert Text(ds)[1..] == Text(ds[1..]) && ds == [ds[0]] + ds[1..];
      DigitsOfCons(Text(ds));
    }
  }

  lemma {:induction false} TextOfDigits(s: string)
    requires DigitsOf(s).Some?
    ensures Text(DigitsOf(s).value) == s
  {
    if s != [] {
      TextOfDigits(s[1..]);
      assert DigitsOf(s).value[1..] == DigitsOf(s[1..]).value;
    }
  }

  /** One '1' for every leading zero byte, then the number in base 58. */
  function Encode(b: Buffer): string {
    Text(Zeros(Leading(b)) + Numeral(Value(b, 256), 58))
  }

  function Decode(s: string): Option<Buffer> {
    match DigitsOf(s)
    case None => None
    case Some(ds) => Some(Zeros(Leading(ds)) + Numeral(Value(ds, 58), 256))
  }

  /** Base58 is a bijection between buffers and the texts it accepts. */
  lemma DecodeIff(s: string, b: Buffer)
    ensures Decode(s) == Some(b) <==> s == Encode(b)
  {
    hide Text, DigitsOf, Value, Leading, Zeros, Numeral;
    var ds := Zeros(Leading(b)) + Numeral(Value(b, 256), 58);
    DigitsOfText(ds);
    ValueOfNumeral(Leading(b), Value(b, 256), 58);
    NumeralOfValue(b, 256);
    if Decode(s) == Some(b) {
      var es := DigitsOf(s).value;
      TextOfDigits(s);
      ValueOfNumeral(Leading(es), Value(es, 58), 256);
      NumeralOfValue(es, 58);
    }
  }

  /** Every encoding consists of alphabet characters. */
  lemma EncodeChars(b: Buffer)
    ensures forall c :: c in Encode(b) ==> '1' <= c <= 'z' && c != ':'
  {
    hide Zeros, Leading, Value, Numeral;
    TextChars(Zeros(Leading(b)) + Numeral(Value(b, 256), 58));
  }

  lemma {:induction false} TextChars(ds: Digits)
    requires InBase(ds, 58)
    ensures forall c :: c in Text(ds) ==> '1' <= c <= 'z' && c != ':'
  {
    if ds != [] {
      TextChars(ds[1..]);
    }
  }

  lemma EncodeEmpty()
    ensures Encode([]) == "" && Decode("") == Some([])
  {
    assert Zeros(0) + Numeral(0, 58) == [];
    assert Zeros(0) + Numeral(0, 256) == [];
  }

  // ----- The loops -----

  method Base58Encode(buf: Buffer) returns (result: string)
    ensures result == Encode(buf)
  {
    hide Value, Numeral, Leading, Zeros, Text;
    if |buf| == 0 {
      EncodeEmpty();
      return "";
    }
    var num := ReadBytes(buf);
    result := WriteDigits(num);
    ghost var tail := Numeral(num, 58);
    StartZeros(tail);
    var i := 0;
    while i < |buf| && buf[i] == 0
      invariant i <= |buf| && Leading(buf) == i + Leading(buf[i..])
      invariant InBase(Zeros(i) + tail, 58) && result == Text(Zeros(i) + tail)
    {
      LeadingStep(buf, i);
      ZerosStep(i, tail);
      result := ['1'] + result;
      i := i + 1;
    }
    LeadingStep(buf, i);
  }

  /** The first loop: the bytes as one number. */
  method ReadBytes(buf: Buffer) returns (num: nat)
    ensures num == Value(buf, 256)
  {
    num := 0;
    for i := 0 to |buf|
      invariant num == Value(buf[..i], 256)
    {
      ValueSnoc(buf[..i], buf[i], 256);
      assert buf[..i] + [buf[i]] == buf[..i + 1];
      num := num * 256 + buf[i];
    }
    assert buf[..|buf|] == buf;
  }

  /** The second loop: base-58 digits from the last one on. */
  method WriteDigits(n: nat) returns (result: string)
    ensures result == Text(Numeral(n, 58))
  {
    hide Text, Numeral;
    var num := n;
    result := "";
    ghost var done: Digits := [];
    EmptyText();
    ZeroNumeral(58);
    assert Numeral(n, 58) + [] == Numeral(n, 58);
    while num > 0
      invariant InBase(done, 58) && result == Text(done) && Numeral(n, 58) == Numeral(num, 58) + done
    {
      NumeralUnfold(num, 58, done);
      TextCons(num % 58, done);
      result := [CharOf(num % 58)] + result;
      done := [num % 58] + done;
      num := num / 58;
    }
    assert [] + done == done;
  }

  lemma EmptyText()
    ensures Text([]) == ""
  {
  }

  lemma TextCons(d: nat, ds: Digits)
    requires d < 58 && InBase(ds, 58)
    ensures InBase([d] + ds, 58) && Text([d] + ds) == [CharOf(d)] + Text(ds)
  {
    assert ([d] + ds)[1..] == ds;
  }

  lemma StartZeros(ds: Digits)
    ensures Zeros(0) + ds == ds
  {
  }

  lemma ZerosStep(i: nat, ds: Digits)
    requires InBase(Zeros(i) + ds, 58)
    ensures Zeros(i + 1) + ds == [0] + (Zeros(i) + ds)
    ensures InBase(Zeros(i + 1) + ds, 58) && Text(Zeros(i + 1) + ds) == ['1'] + Text(Zeros(i) + ds)
  {
    TextCons(0, Zeros(i) + ds);
    assert Zeros(i + 1) + ds == [0] + (Zeros(i) + ds);
  }

  lemma LeadingStep(ds: Digits, i: nat)
    requires i <= |ds|
    ensures Leading(ds[i..]) == if i < |ds| && ds[i] == 0 then 1 + Leading(ds[i + 1..]) else 0
    ensures ds[0..] == ds
  {
    if i < |ds| {
      assert ds[i..][1..] == ds[i + 1..];
    }
  }

  method Base58Decode(str: string) returns (r: Option<Buffer>)
    ensures r == Decode(str)
  {
    hide Value, Numeral, Leading, Zeros, DigitsOf;
    if |str| == 0 {
      EncodeEmpty();
      return Some([]);
    }
    var num := ReadDigits(str);
    if num.None? {
      return None;
    }
    ghost var ds := DigitsOf(str).value;
    var leadingZeros := 0;
    LeadingStep(ds, 0);
    while leadingZeros < |str| && str[leadingZeros] == '1'
      invariant leadingZeros <= |str| && Leading(ds) == leadingZeros + Leading(ds[leadingZeros..])
    {
      DigitsAt(str, leadingZeros);
      LeadingStep(ds, leadingZeros);
      leadingZeros := leadingZeros + 1;
    }
    LeadingStep(ds, leadingZeros);
    if leadingZeros < |str| {
      DigitsAt(str, leadingZeros);
    }
    var bytes := WriteBytes(num.value);
    ghost var tail := bytes;
    StartZeros(tail);
    for i := 0 to leadingZeros
      invariant bytes == Zeros(i) + tail
    {
      ZerosOne(i, tail);
      bytes := [0] + bytes;
    }
    return Some(bytes);
  }

  lemma ZerosOne(i: nat, ds: Digits)
    ensures Zeros(i + 1) + ds == [0] + (Zeros(i) + ds)
  {
  }

  /** The first loop of the decoder; None when a character is not in the alphabet. */
  method ReadDigits(str: string) returns (r: Option<nat>)
    ensures r == match DigitsOf(str) case None => None case Some(ds) => Some(Value(ds, 58))
  {
    hide Value, DigitsOf;
    var num: nat := 0;
    ghost var ds: Digits := [];
    NoDigits();
    for i := 0 to |str|
      invariant DigitsOf(str[..i]) == Some(ds) && num == Value(ds, 58)
    {
      var d := DigitOf(str[i]);
      DigitsOfSnoc(str, i);
      if d.None? {
        return None;
      }
      ValueSnoc(ds, d.value, 58);
      num := num * 58 + d.value;
      ds := ds + [d.value];
    }
    assert str[..|str|] == str;
    return Some(num);
  }

  lemma NoDigits()
    ensures DigitsOf("") == Some([]) && Value([], 58) == 0
  {
  }

  lemma NumeralUnfold(n: nat, base: nat, done: Digits)
    requires n > 0 && base >= 2
    ensures 0 <= n / base < n && 0 <= n % base < base
    ensures Numeral(n, base) + done == Numeral(n / base, base) + ([n % base] + done)
  {
    Quotient(n, base);
    ConcatAssoc(Numeral(n / base, base), [n % base], done);
  }

  method WriteBytes(n: nat) returns (bytes: Buffer)
    ensures bytes == Numeral(n, 256)
  {
    hide Numeral;
    var num := n;
    bytes := [];
    ZeroNumeral(256);
    assert Numeral(n, 256) + [] == Numeral(n, 256);
    while num > 0
      invariant Numeral(n, 256) == Numeral(num, 256) + bytes
    {
      NumeralUnfold(num, 256, bytes);
      bytes := [num % 256] + bytes;
      num := num / 256;
    }
    assert [] + bytes == bytes;
  }

  lemma ZeroNumeral(base: nat)
    requires base >= 2
    ensures Numeral(0, base) == []
  {
  }

  /** One more character: its digit, or failure whatever follows. */
  lemma {:induction false} DigitsOfSnoc(s: string, i: nat)
    requires i < |s|
    ensures DigitsOf(s[..i]).Some? && DigitOf(s[i]).Some? ==>
      DigitsOf(s[..i + 1]) == Some(DigitsOf(s[..i]).value + [DigitOf(s[i]).value])
    ensures DigitOf(s[i]).None? ==> DigitsOf(s).None?
  {
    hide DigitsOf, DigitOf;
    var rest := s[1..];
    if i == 0 {
      assert s[..1][1..] == "" && s[..0] == "";
      NoDigits();
      DigitsOfCons(s[..1]);
      DigitsOfCons(s);
      if DigitOf(s[0]).Some? {
        var d := [DigitOf(s[0]).value];
        assert d + [] == [] + d;
      }
    } else {
      DigitsOfSnoc(rest, i - 1);
      assert s[..i][1..] == rest[..i - 1] && s[..i + 1][1..] == rest[..i];
      DigitsOfCons(s[..i]);
      DigitsOfCons(s[..i + 1]);
      DigitsOfCons(s);
      if DigitsOf(s[..i]).Some? && DigitOf(s[i]).Some? {
        ConcatAssoc([DigitOf(s[0]).value], DigitsOf(rest[..i - 1]).value, [DigitOf(s[i]).value]);
      }
    }
  }

  lemma DigitsOfCons(s: string)
    requires s != []
    ensures DigitsOf(s) ==
      if DigitOf(s[0]).Some? && DigitsOf(s[1..]).Some?
      then Some([DigitOf(s[0]).value] + DigitsOf(s[1..]).value)
      else None
  {
  }

  lemma {:induction false} DigitsAt(s: string, i: nat)
    requires i < |s| && DigitsOf(s).Some?
    ensures DigitsOf(s).value[i] == 0 <==> s[i] == '1'
  {
    if i > 0 {
      DigitsAt(s[1..], i - 1);
    } else {
      DigitsOfCons(s);
      DigitOfChar(0);
    }
  }

  // ----- With checksum -----

  /** The first four bytes of the double hash. */
  function Checksum(sha: Buffer -> Buffer, data: Buffer): Buffer {
    Slice(sha(sha(data)), 0, 4)
  }

  function CheckEncode(sha: Buffer -> Buffer, b: Buffer): string {
    Encode(b + Checksum(sha, b))
  }

  function CheckDecode(sha: Buffer -> Buffer, s: string): Option<Buffer> {
    match Decode(s)
    case None => None
    case Some(buf) =>
      if |buf| < 4 then None
      else
        var data := buf[..|buf| - 4];
        if Checksum(sha, data) == buf[|buf| - 4..] then Some(data) else None
  }

  ghost predicate HashLength(sha: Buffer -> Buffer) {
    forall b :: |sha(b)| == 32
  }

  /** A checked text decodes to b exactly when it is the encoding of b: nothing else is accepted. */
  lemma CheckDecodeIff(sha: Buffer -> Buffer, s: string, b: Buffer)
    requires HashLength(sha)
    ensures CheckDecode(sha, s) == Some(b) <==> s == CheckEncode(sha, b)
  {
    hide Encode, Decode;
    var sum := Checksum(sha, b);
    assert |sum| == 4;
    var all := b + sum;
    assert all[..|all| - 4] == b && all[|all| - 4..] == sum;
    DecodeIff(s, all);
    if CheckDecode(sha, s) == Some(b) {
      var buf := Decode(s).value;
      assert buf == buf[..|buf| - 4] + buf[|buf| - 4..];
    }
  }

  /** The last four bytes of what a text decodes to must start the double hash of the bytes before. */
  lemma CheckMeans(sha: Buffer -> Buffer, s: string)
    requires HashLength(sha)
    ensures CheckDecode(sha, s) ==
      match Decode(s)
      case None => None
      case Some(b) =>
        if |b| >= 4 && b[|b| - 4..] == sha(sha(b[..|b| - 4]))[..4] then Some(b[..|b| - 4]) else None
  {
    hide Decode;
  }

  // ----- In positions of the alphabet -----

  const ALPHABET := "123456789" + "ABCDEFGH" + "JKLMN" + "PQRSTUVWXYZ" + "abcdefghijk" + "mnopqrstuvwxyz"

  /** The number a text stands for, every character as its position in the alphabet. */
  function Number(s: string): Option<nat> {
    if s == "" then Some(0)
    else match (Number(s[..|s| - 1]), Position(s[|s| - 1], ALPHABET))
      case (Some(n), Some(d)) => Some(58 * n + d)
      case _ => None
  }

  function Position(c: char, alphabet: string): Option<nat> {
    if alphabet == "" then None
    else if alphabet[0] == c then Some(0)
    else match Position(c, alphabet[1..]) case None => None case Some(d) => Some(d + 1)
  }

  /** How many times x stands at the front. */
  function Run<T(==)>(s: seq<T>, x: T): nat {
    if s == [] || s[0] != x then 0 else 1 + Run(s[1..], x)
  }

  /** The Base58 text of b is the one text of alphabet characters that stands for the big-endian number
      of b and starts with as many '1' as b with zero bytes. */
  lemma EncodeIff(s: string, b: Buffer)
    ensures s == Encode(b) <==> Number(s) == Some(FromBE(b)) && Run(s, '1') == Run(b, 0)
  {
    hide Text, DigitsOf, Value, Leading, Zeros, Numeral, Number, Run, FromBE;
    var ds := Zeros(Leading(b)) + Numeral(Value(b, 256), 58);
    DigitsOfText(ds);
    ValueOfNumeral(Leading(b), Value(b, 256), 58);
    NumberOfDigits(s);
    RunOfOnes(s);
    BytesValue(b);
    RunOfZeros(b);
    if DigitsOf(s).Some? {
      TextOfDigits(s);
      NumeralOfValue(DigitsOf(s).value, 58);
    }
  }

  lemma {:induction false} BytesValue(b: Buffer)
    ensures Value(b, 256) == FromBE(b)
  {
    if b != [] {
      BytesValue(b[..|b| - 1]);
    }
  }

  lemma {:induction false} RunOfZeros(b: Buffer)
    ensures Run(b, 0) == Leading(b)
  {
    if b != [] {
      RunOfZeros(b[1..]);
    }
  }

  lemma {:induction false} RunOfOnes(s: string)
    ensures DigitsOf(s).Some? ==> Run(s, '1') == Leading(DigitsOf(s).value)
  {
    if s != [] && DigitsOf(s).Some? {
      RunOfOnes(s[1..]);
      DigitsOfCons(s);
      DigitsAt(s, 0);
      assert DigitsOf(s).value[1..] == DigitsOf(s[1..]).value;
    }
  }

  lemma {:induction false} NumberOfDigits(s: string)
    ensures Number(s) == if DigitsOf(s).Some? then Some(Value(DigitsOf(s).value, 58)) else None
  {
    hide DigitsOf, Value, DigitOf, Position;
    if s == "" {
      NoDigits();
      NoValue(58);
    } else {
      var front, c := s[..|s| - 1], s[|s| - 1];
      NumberOfDigits(front);
      PositionIsDigit(c);
      DigitsOfSnoc(s, |s| - 1);
      assert s[..|s|] == s;
      FrontDigits(s);
      if DigitsOf(front).Some? && DigitOf(c).Some? {
        ValueSnoc(DigitsOf(front).value, DigitOf(c).value, 58);
      }
    }
  }

  lemma NoValue(base: nat)
    ensures Value([], base) == 0
  {
  }

  lemma {:induction false} FrontDigits(s: string)
    requires s != []
    ensures DigitsOf(s).Some? ==> DigitsOf(s[..|s| - 1]).Some?
  {
    if |s| > 1 && DigitsOf(s).Some? {
      FrontDigits(s[1..]);
      assert s[1..][..|s| - 2] == s[..|s| - 1][1..];
    }
  }

  lemma PositionIsDigit(c: char)
    ensures Position(c, ALPHABET) == DigitOf(c)
  {
    hide Position, DigitOf, ALPHABET;
    PositionFrom(c, 0);
    assert ALPHABET[0..] == ALPHABET;
  }

  lemma {:induction false} PositionFrom(c: char, k: nat)
    requires k <= 58
    ensures |ALPHABET| == 58
    ensures Position(c, ALPHABET[k..]) ==
      match DigitOf(c) case None => None case Some(d) => if d < k then None else Some(d - k)
    decreases 58 - k
  {
    hide CharOf, ALPHABET, DigitOf;
    AlphabetSize();
    if k < 58 {
      PositionFrom(c, k + 1);
      AlphabetAt(k);
      DigitOfChar(k);
      assert ALPHABET[k..][0] == CharOf(k) && ALPHABET[k..][1..] == ALPHABET[k + 1..];
    }
    DigitRange(c);
  }

  lemma DigitRange(c: char)
    ensures DigitOf(c).Some? ==> DigitOf(c).value < 58 && CharOf(DigitOf(c).value) == c
  {
  }

  lemma AlphabetSize()
    ensures |ALPHABET| == 58
  {
  }

  lemma AlphabetAt(k: nat)
    requires k < 58 && |ALPHABET| == 58
    ensures ALPHABET[k] == CharOf(k)
  {
    var a, b, d, e, f, g := "123456789", "ABCDEFGH", "JKLMN", "PQRSTUVWXYZ", "abcdefghijk", "mnopqrstuvwxyz";
    assert ALPHABET[k] ==
      if k < 9 then a[k] else if k < 17 then b[k - 9] else if k < 22 then d[k - 17]
      else if k < 33 then e[k - 22] else if k < 44 then f[k - 33] else g[k - 44];
    CharRuns(k);
  }

  /** Each part of the alphabet is a run of consecutive characters. */
  lemma CharRuns(k: nat)
    requires k < 58
    ensures k < 9 ==> "123456789"[k] == '1' + k as char
    ensures 9 <= k < 17 ==> "ABCDEFGH"[k - 9] == 'A' + (k - 9) as char
    ensures 17 <= k < 22 ==> "JKLMN"[k - 17] == 'J' + (k - 17) as char
    ensures 22 <= k < 33 ==> "PQRSTUVWXYZ"[k - 22] == 'P' + (k - 22) as char
    ensures 33 <= k < 44 ==> "abcdefghijk"[k - 33] == 'a' + (k - 33) as char
    ensures 44 <= k ==> "mnopqrstuvwxyz"[k - 44] == 'm' + (k - 44) as char
  {
  }
}
