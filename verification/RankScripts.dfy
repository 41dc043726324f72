/** The RANK and RNKC scripts of lib/rank/index.ts field by field: which arguments build them, where each
    byte stands, and which scripts are read. */
module RankScripts {
  import opened Buffers
  import opened Hex
  import opened ScriptCodec
  import opened Rank

  // ----- Fields -----

  /** The value of a hex digit, by its position. */
  predicate IsHexDigit(c: char, v: nat) {
    (v < 16 && c == "0123456789abcdef"[v]) || (v < 16 && c == "0123456789ABCDEF"[v])
  }

  lemma HexDigitIff(c: char, v: nat)
    ensures IsHexDigit(c, v) <==> Value(c) == Some(v)
  {
  }

  /** Byte i of the buffer is digits 2i and 2i + 1 of the text. */
  predicate IsPairs(b: Buffer, s: string) {
    && 2 * |b| <= |s|
    && forall i :: 0 <= i < |b| ==> IsHexDigit(s[2 * i], b[i] / 16) && IsHexDigit(s[2 * i + 1], b[i] % 16)
  }

  /** `Buffer.from(s, 'hex')` is the pairs up to the first that is no two digits. */
  lemma {:induction false} UnhexMeans(s: string)
    ensures IsPairs(Unhex(s), s)
    ensures var k := 2 * |Unhex(s)|; k + 1 < |s| ==> Value(s[k]).None? || Value(s[k + 1]).None?
  {
    hide Value, IsHexDigit;
    if |s| >= 2 && Value(s[0]).Some? && Value(s[1]).Some? {
      var x, y, rest := Value(s[0]).value, Value(s[1]).value, Unhex(s[2..]);
      UnhexMeans(s[2..]);
      HexDigitIff(s[0], x);
      HexDigitIff(s[1], y);
      UnhexPair(s);
      DigitsBelow(s[0], s[1]);
      assert (16 * x + y) / 16 == x && (16 * x + y) % 16 == y;
      PairsCons(16 * x + y, rest, s);
    }
  }

  lemma DigitsBelow(c: char, d: char)
    ensures Value(c).Some? ==> Value(c).value < 16
    ensures Value(d).Some? ==> Value(d).value < 16
  {
  }

  lemma PairsCons(x: byte, rest: Buffer, s: string)
    requires |s| >= 2 && IsPairs(rest, s[2..]) && IsHexDigit(s[0], x / 16) && IsHexDigit(s[1], x % 16)
    ensures IsPairs([x] + rest, s)
  {
    hide IsHexDigit;
    var b := [x] + rest;
    forall i | 0 < i < |b|
      ensures IsHexDigit(s[2 * i], b[i] / 16) && IsHexDigit(s[2 * i + 1], b[i] % 16)
    {
      assert b[i] == rest[i - 1] && s[2 * i] == s[2..][2 * (i - 1)] && s[2 * i + 1] == s[2..][2 * (i - 1) + 1];
    }
  }

  /** The profile field: 20 bytes of hex on Lotusia, a name in 16 bytes with zeros in front on Twitter. */
  predicate IsProfile(p: Platform, b: Buffer, id: string) {
    if p == Lotusia then |b| == 20 && |id| == 40 && IsPairs(b, id)
    else
      && |b| == 16 && 1 <= |id| <= 16
      && forall i :: 0 <= i < 16 ==> b[i] == if i < 16 - |id| then 0 else id[i - (16 - |id|)] as int
  }

  predicate ProfileMatches(p: Platform, id: string) {
    if p == Lotusia then |id| == 40 && forall i :: 0 <= i < 40 ==> id[i] in "0123456789abcdefABCDEF"
    else 1 <= |id| <= 16 && forall i :: 0 <= i < |id| ==> id[i] in "abcdefghijklmnopqrstuvwxyz0123456789_"
  }

  lemma ProfileMeans(p: Platform, id: string)
    ensures ProfileBuf(p, id).Some? <==> ProfileMatches(p, id)
    ensures ProfileBuf(p, id).Some? ==> IsProfile(p, ProfileBuf(p, id).value, id)
  {
    hide Unhex, IsHexDigit, Value;
    ProfileOkIff(p, id);
    if ProfileOk(p, id) && p == Lotusia {
      UnhexMeans(id);
      UnhexLength(id);
    }
  }

  lemma ProfileOkIff(p: Platform, id: string)
    ensures ProfileOk(p, id) <==> ProfileMatches(p, id)
  {
    hide Value, IsHexDigit;
    forall c: char ensures c in "0123456789abcdefABCDEF" <==> Value(c).Some? {
      HexCharIff(c);
    }
    forall c: char ensures NameChar(c) <==> c in "abcdefghijklmnopqrstuvwxyz0123456789_" {
      NameCharIff(c);
    }
  }

  lemma HexCharIff(c: char)
    ensures c in "0123456789abcdefABCDEF" <==> Value(c).Some?
  {
  }

  predicate NameChar(c: char) {
    'a' <= c <= 'z' || '0' <= c <= '9' || c == '_'
  }

  lemma NameCharIff(c: char)
    ensures NameChar(c) <==> c in "abcdefghijklmnopqrstuvwxyz0123456789_"
  {
  }

  // ----- Builders -----

  /** The post field: on Lotusia the pairs of hex digits at the front of the id, however many; on Twitter
      the number's hexadecimal digits in pairs, without the last if they are odd, and nothing for a
      negative number. */
  predicate IsPost(env: Env, p: Platform, b: Buffer, id: string) {
    if p == Lotusia then b == Unhex(id)
    else
      BigInt(env, id).Some? &&
      var v := BigInt(env, id).value;
      if v < 0 then b == []
      else |b| == |HexDigits(v)| / 2 && FromBE(b) == if |HexDigits(v)| % 2 == 0 then v else v / 16
  }

  lemma PostMeans(env: Env, p: Platform, id: string)
    requires PostBuf(env, p, id).Some?
    ensures IsPost(env, p, PostBuf(env, p, id).value, id)
  {
    hide Unhex, HexDigits, FromBE, BigInt;
    if p == Twitter {
      NumberBytes(BigInt(env, id).value);
    }
  }

  lemma NumberBytes(v: int)
    ensures v < 0 ==> Unhex(HexText(v)) == []
    ensures v >= 0 ==>
      var b, n := Unhex(HexText(v)), |HexDigits(v)|;
      |b| == n / 2 && FromBE(b) == if n % 2 == 0 then v else v / 16
  {
    if v < 0 {
      MinusSign(v);
    } else {
      hide Unhex, FromBE, HexDigits, LowerHex, IsHex;
      HexDigitsLength(v, 1);
      LowerIsHex(HexDigits(v));
      UnhexLength(HexDigits(v));
      if |HexDigits(v)| % 2 == 0 {
        HexDigitsBytes(v);
      } else if v < 16 {
        EmptyBytes();
        NoBytes(Unhex(HexDigits(v)));
      } else {
        OddDigits(v);
      }
    }
  }

  lemma MinusSign(v: int)
    requires v < 0
    ensures Unhex(HexText(v)) == []
  {
    assert HexText(v)[0] == '-' && Value('-').None?;
  }

  lemma NoBytes(b: Buffer)
    requires |b| == 0
    ensures b == []
  {
  }

  /** The last of an odd number of digits is left out. */
  lemma OddDigits(v: nat)
    requires v >= 16 && |HexDigits(v)| % 2 == 1
    ensures FromBE(Unhex(HexDigits(v))) == v / 16
  {
    hide Unhex, FromBE, Digit, LowerHex, IsHex, HexDigits;
    NumHexStep(v);
    HexDigitsBytes(v / 16);
    HexDigitsLength(v / 16, 1);
    LowerIsHex(HexDigits(v / 16));
    UnhexConcat(HexDigits(v / 16), [Digit(v % 16)]);
    OneLeft(Digit(v % 16));
  }

  lemma OneLeft(c: char)
    ensures forall b: Buffer :: b + Unhex([c]) == b
  {
  }

  /** A RANK script is built exactly for a matching profile id and, on Twitter, a post id that is a number
      or absent; these are its bytes. */
  lemma RankBuilt(env: Env, sentiment: Sentiment, p: Platform, profileId: string, postId: string)
    ensures var r := ToScriptRANK(env, sentiment, p, profileId, postId);
      && (r.Some? <==> ProfileMatches(p, profileId) && (postId == "" || p == Lotusia || BigInt(env, postId).Some?))
      && (r.Some? ==>
            var b := r.value;
            && |b| >= 7 && b[..6] == [0x6a, 4, 0x52, 0x41, 0x4e, 0x4b]
            && b[6] == (match sentiment case Neutral => 0x60 case Positive => 0x51 case Negative => 0)
            && IsTarget(env, p, b[7..], profileId, postId))
  {
    hide TargetHex, ProfileMatches, IsTarget, HexOf, Unhex, NumHex, RankBytes;
    ProfileMeans(p, profileId);
    EmptyProfile(p);
    BuiltWhen(env, sentiment, p, profileId, postId);
    if ToScriptRANK(env, sentiment, p, profileId, postId).Some? {
      RankLayout(env, sentiment, p, profileId, postId);
      TargetMeans(env, p, profileId, postId);
      hide ToScriptRANK, PostBytes;
      RankParts(sentiment, p, ProfileBuf(p, profileId).value, postId, PostBytes(env, p, postId));
    }
  }

  lemma EmptyProfile(p: Platform)
    ensures ProfileBuf(p, "").None?
  {
  }

  lemma BuiltWhen(env: Env, sentiment: Sentiment, p: Platform, profileId: string, postId: string)
    ensures ToScriptRANK(env, sentiment, p, profileId, postId).Some? <==>
      profileId != "" && ProfileBuf(p, profileId).Some? && (postId == "" || p == Lotusia || BigInt(env, postId).Some?)
  {
    hide TargetHex, HexOf, Unhex, NumHex, ProfileBuf, BigInt, HexText;
  }

  lemma RankParts(sentiment: Sentiment, p: Platform, profile: Buffer, postId: string, post: Buffer)
    ensures var b := RankBytes(sentiment, p, profile, postId, post);
      && |b| >= 7 && b[..6] == [0x6a, 4, 0x52, 0x41, 0x4e, 0x4b]
      && b[6] == (match sentiment case Neutral => 0x60 case Positive => 0x51 case Negative => 0)
      && b[7..] == TargetBytes(p, profile, postId, post)
  {
    hide TargetBytes;
  }

  /** Platform, profile and post with their lengths: 1, the platform's number, 20 or 16 and the profile,
      and for a given post 32 or 8 and the post, whatever its real length. */
  predicate IsTarget(env: Env, p: Platform, b: Buffer, profileId: string, postId: string) {
    var n := if p == Lotusia then 20 else 16;
    && |b| >= 3 + n && b[0] == 1 && b[1] == (if p == Lotusia then 0 else 1) && b[2] == n
    && IsProfile(p, b[3..3 + n], profileId)
    && if postId == "" then |b| == 3 + n
       else |b| > 3 + n && b[3 + n] == (if p == Lotusia then 32 else 8) && IsPost(env, p, b[4 + n..], postId)
  }

  lemma TargetMeans(env: Env, p: Platform, profileId: string, postId: string)
    requires ProfileBuf(p, profileId).Some? && (postId != "" ==> PostBuf(env, p, postId).Some?)
    ensures var b := TargetBytes(p, ProfileBuf(p, profileId).value, postId, PostBytes(env, p, postId));
      IsTarget(env, p, b, profileId, postId)
  {
    hide IsProfile, IsPost, ProfileBuf, PostBuf;
    ProfileMeans(p, profileId);
    ProfileSize(p, profileId);
    if postId != "" {
      PostMeans(env, p, postId);
    }
    var n, profile, post := ProfileLen(p), ProfileBuf(p, profileId).value, PostBytes(env, p, postId);
    var b := TargetBytes(p, profile, postId, post);
    assert b[3..3 + n] == profile && (postId != "" ==> b[4 + n..] == post);
  }

  lemma ProfileSize(p: Platform, id: string)
    requires ProfileBuf(p, id).Some?
    ensures |ProfileBuf(p, id).value| == if p == Lotusia then 20 else 16
  {
  }

  /** RNKC scripts are built exactly for a matching profile id, a matching post id or none, and a comment
      of 1 to 440 bytes: the head, and the comment behind 0x6a 0x4c and its length, 220 bytes at a time. */
  lemma RnkcBuilt(env: Env, p: Platform, profileId: string, postId: string, comment: Buffer)
    ensures var r, n := ToScriptRNKC(env, p, profileId, postId, comment), |comment|;
      && (r.Some? <==> ProfileMatches(p, profileId) && (postId == "" || PostMatches(p, postId)) && 1 <= n <= 440)
      && (r.Some? ==>
            var head, first := r.value[0], if n <= 220 then n else 220;
            && |head| >= 6 && head[..6] == [0x6a, 4, 0x52, 0x4e, 0x4b, 0x43]
            && IsTarget(env, p, head[6..], profileId, postId)
            && |r.value| == (if n <= 220 then 2 else 3)
            && r.value[1] == [0x6a, 0x4c, first] + comment[..first]
            && (n > 220 ==> r.value[2] == [0x6a, 0x4c, n - 220] + comment[220..]))
  {
    hide TargetHex, ProfileMatches, IsTarget, HexOf, Unhex, NumHex, RnkcBytes, CommentScripts, PostMatches;
    ProfileMeans(p, profileId);
    RnkcWhen(env, p, profileId, postId, comment);
    if ToScriptRNKC(env, p, profileId, postId, comment).Some? {
      RnkcLayout(env, p, profileId, postId, comment);
      TargetMeans(env, p, profileId, postId);
      hide ToScriptRNKC, PostBytes;
      var scripts := ToScriptRNKC(env, p, profileId, postId, comment).value;
      RnkcParts(p, ProfileBuf(p, profileId).value, postId, PostBytes(env, p, postId));
      CommentParts(comment);
      assert scripts == [scripts[0]] + scripts[1..];
    }
  }

  /** On Lotusia 64 lower-case hex digits, on Twitter decimal digits. */
  predicate PostMatches(p: Platform, id: string) {
    if p == Lotusia then |id| == 64 && forall i :: 0 <= i < 64 ==> '0' <= id[i] <= '9' || 'a' <= id[i] <= 'f'
    else id != "" && forall i :: 0 <= i < |id| ==> '0' <= id[i] <= '9'
  }

  lemma RnkcWhen(env: Env, p: Platform, profileId: string, postId: string, comment: Buffer)
    ensures ToScriptRNKC(env, p, profileId, postId, comment).Some? <==>
      ProfileBuf(p, profileId).Some? && (postId == "" || PostMatches(p, postId)) && 1 <= |comment| <= 440
    ensures postId != "" && PostMatches(p, postId) ==> PostBuf(env, p, postId).Some?
  {
    hide TargetHex, HexOf, Unhex, NumHex, HexText, CommentScripts, FromDecimal;
    ProfileDefined(p, profileId);
  }

  lemma ProfileDefined(p: Platform, id: string)
    ensures ProfileBuf(p, id).Some? <==> ProfileOk(p, id)
  {
  }

  lemma RnkcParts(p: Platform, profile: Buffer, postId: string, post: Buffer)
    ensures var b := RnkcBytes(p, profile, postId, post);
      |b| >= 6 && b[..6] == [0x6a, 4, 0x52, 0x4e, 0x4b, 0x43] && b[6..] == TargetBytes(p, profile, postId, post)
  {
    hide TargetBytes;
  }

  lemma CommentParts(comment: Buffer)
    requires 1 <= |comment| <= 440
    ensures var cs, n := CommentScripts(comment), |comment|;
      var first := if n <= 220 then n else 220;
      && |cs| == (if n <= 220 then 1 else 2) && cs[0] == [0x6a, 0x4c, first] + comment[..first]
      && (n > 220 ==> cs[1] == [0x6a, 0x4c, n - 220] + comment[220..])
  {
    hide CommentScript;
    var part := Slice(comment, 0, 220);
    CommentLayout(part);
    assert |comment| <= 220 ==> part == comment[..|comment|];
    assert |comment| > 220 ==> part == comment[..220];
    if |comment| > 220 {
      CommentLayout(comment[220..]);
    }
  }

  // ----- Reading -----

  lemma LokadMeans(script: Buffer)
    requires |script| >= 6
    ensures Lokad(script) == LOKAD_RANK <==> script[2..6] == [0x52, 0x41, 0x4e, 0x4b]
    ensures Lokad(script) == LOKAD_RNKC <==> script[2..6] == [0x52, 0x4e, 0x4b, 0x43]
  {
    hide NumHex, HexOf, FromBE, BE;
    LokadBytes();
    FromBEInverse(script[2..6]);
    FromBEInverse(RANK_BYTES);
    FromBEInverse(RNKC_BYTES);
    var a: Buffer := [0x52, 0x41, 0x4e, 0x4b];
    var b: Buffer := [0x52, 0x4e, 0x4b, 0x43];
    assert a == RANK_BYTES && b == RNKC_BYTES;
  }

  /** What is found at the profile's place: on Lotusia the hex of 20 bytes, on Twitter the text of the
      bytes that are not zero among 16; nothing when the script ends before. */
  lemma ProfileRead(env: Env, script: Buffer, at: nat, p: Platform)
    ensures ReadProfile(env, script, at, p) ==
      if p == Lotusia then if |script| < at + 20 then "" else HexOf(script[at..at + 20])
      else if |script| < at + 16 then ""
      else env.utf8(NonZero(script[at..at + 16]))
    ensures forall x: byte, b :: NonZero([x] + b) == (if x == 0 then [] else [x]) + NonZero(b)
  {
    hide HexOf;
    assert |script| >= at + 20 ==> Slice(script, at, 20) == script[at..at + 20];
    assert |script| >= at + 16 ==> Slice(script, at, 16) == script[at..at + 16];
    forall x: byte, b: Buffer ensures NonZero([x] + b) == (if x == 0 then [] else [x]) + NonZero(b) {
      assert ([x] + b)[1..] == b;
    }
  }

  /** What is found at the post's place, behind its length: on Lotusia the hex of up to 32 bytes, on
      Twitter the number of 8 bytes. */
  lemma PostRead(script: Buffer, at: nat, p: Platform)
    ensures ReadPost(script, at, p) ==
      if p == Lotusia then
        if |script| <= at + 21 then "" else HexOf(script[at + 21..if |script| <= at + 53 then |script| else at + 53])
      else if |script| < at + 25 then ""
      else ToDecimal(FromBE(script[at + 17..at + 25]))
  {
    hide ToDecimal, FromBE, HexOf;
    EmptyHex();
    assert |script| >= at + 25 ==> Slice(script, at + 17, 8) == script[at + 17..at + 25];
    assert at + 21 < |script| ==>
      Slice(script, at + 21, 32) == script[at + 21..if |script| <= at + 53 then |script| else at + 53];
  }

  /** Which scripts are RANK: the four letters at bytes 2 to 5, a sentiment at byte 6, a platform at byte
      8 and a profile from byte 10; and a script that ends before one of the bytes looked at throws. */
  lemma RankReadIff(env: Env, script: Buffer)
    ensures var r, n := ProcessRANK(env, script), |script|;
      var named := n >= 6 && script[2..6] == [0x52, 0x41, 0x4e, 0x4b];
      var felt := named && n >= 7 && script[6] in {0x60, 0x51, 0};
      && (r.Throws? <==> n < 6 || (named && n < 7) || (felt && n < 9))
      && (r.Parsed? <==> felt && n >= 9 && script[8] in {0, 1}
                         && ReadProfile(env, script, 10, if script[8] == 0 then Lotusia else Twitter) != "")
      && (r.Parsed? ==>
            var p := if script[8] == 0 then Lotusia else Twitter;
            var s := if script[6] == 0x60 then Neutral else if script[6] == 0x51 then Positive else Negative;
            r.value == RankOutput(s, p, ReadProfile(env, script, 10, p), ReadPost(script, 10, p)))
  {
    hide Lokad, ReadProfile, ReadPost;
    if |script| >= 6 {
      LokadMeans(script);
    }
  }

  /** Which scripts are RNKC: the letters of either protocol, the platform one byte earlier for RNKC, one or
      two comment scripts, at least one byte of comment, and ten million satoshis for each byte. */
  lemma RnkcReadIff(env: Env, script: Buffer, supplemental: seq<Buffer>, burned: nat)
    requires |script| >= 6
    ensures var r, n := ProcessRNKC(env, script, supplemental, burned), |script|;
      var rnkc := script[2..6] == [0x52, 0x4e, 0x4b, 0x43];
      var named := 1 <= |supplemental| <= 2 && (rnkc || script[2..6] == [0x52, 0x41, 0x4e, 0x4b]);
      var at, data := if rnkc then 7 else 8, Comment(supplemental);
      var placed := named && n > at && script[at] in {0, 1};
      && (r.Throws? <==> (named && n <= at) || (placed && data.None?))
      && (r.Parsed? <==> placed && data.Some? && data.value != [] && burned >= 10_000_000 * |data.value|)
      && (r.Parsed? ==>
            var p := if script[at] == 0 then Lotusia else Twitter;
            var profile := ReadProfile(env, script, at + 2, p);
            r.value == RnkcOutput(data.value, burned / |data.value|, p, profile,
                                  if profile == "" then "" else ReadPost(script, at + 2, p)))
  {
    hide Lokad, ReadProfile, ReadPost, Comment;
    LokadMeans(script);
  }

  /** A comment script that is read: 0x4c at byte 1 and a length of at most 220 at byte 2. */
  predicate HoldsComment(s: Buffer) {
    |s| >= 3 && s[1] == 0x4c && s[2] <= 220
  }

  /** The data of these scripts one after the other, each cut at its announced length. */
  function Joined(scripts: seq<Buffer>): Buffer {
    if scripts == [] then []
    else
      DataOf(scripts[0]) + Joined(scripts[1..])
  }

  function DataOf(s: Buffer): Buffer {
    if |s| < 3 then []
    else
      var n: int := s[2];
      if |s| <= 3 + n then s[3..] else s[3..3 + n]
  }

  /** A comment is the data up to the first script of another form; if that one ends before its form can be
      seen, reading throws. */
  lemma {:induction false} CommentMeans(scripts: seq<Buffer>) returns (k: nat)
    ensures k <= |scripts| && (forall i :: 0 <= i < k ==> HoldsComment(scripts[i]))
    ensures k < |scripts| ==> !HoldsComment(scripts[k])
    ensures Comment(scripts) ==
      if k < |scripts| && (|scripts[k]| < 2 || (|scripts[k]| < 3 && scripts[k][1] == 0x4c)) then None
      else Some(Joined(scripts[..k]))
  {
    if scripts == [] || !HoldsComment(scripts[0]) {
      k := 0;
      assert scripts[..0] == [];
    } else {
      var rest := scripts[1..];
      k := CommentMeans(rest);
      assert scripts[..k + 1][1..] == rest[..k] && scripts[..k + 1][0] == scripts[0];
      DataMeans(scripts[0]);
      k := k + 1;
    }
  }

  lemma DataMeans(s: Buffer)
    requires |s| >= 3
    ensures Slice(s, 3, s[2]) == DataOf(s)
  {
  }

  // ----- Data outputs -----

  /** A script is a standard data output exactly when it starts with 0x6a, has at most 223 bytes, and what
      follows is read as opcodes up to 0x60 only. */
  lemma DataOutIff(b: Buffer)
    ensures StandardDataOut(b) <==>
      && b != [] && b[0] == 0x6a && |b| <= 223 && Parse(b[1..]).Some?
      && forall i :: 0 <= i < |Parse(b[1..]).value| ==> Parse(b[1..]).value[i].opcodenum <= 0x60
  {
    hide Parse, Encode, ReadChunk, Rest;
    NothingParsed();
    if b != [] && Parse(b).Some? {
      ParseThenEncode(b);
      ParseFirst(b);
      FirstOpcode(b);
    } else if b != [] {
      ParseFirst(b);
      FirstOpcode(b);
    }
  }

  lemma NothingParsed()
    ensures Parse([]) == Some([])
  {
  }

  lemma ParseFirst(b: Buffer)
    requires b != []
    ensures Parse(b) ==
      if ReadChunk(b).None? || Parse(Rest(b, ReadChunk(b).value.1)).None? then None
      else Some([ReadChunk(b).value.0] + Parse(Rest(b, ReadChunk(b).value.1)).value)
  {
    hide ReadChunk, Rest;
  }

  /** The first opcode is the first byte; 0x6a is no push. */
  lemma FirstOpcode(b: Buffer)
    requires b != []
    ensures ReadChunk(b).Some? ==> ReadChunk(b).value.0.opcodenum == b[0]
    ensures b[0] == 0x6a ==> ReadChunk(b) == Some((Opcode(0x6a), 1)) && Rest(b, 1) == b[1..]
  {
  }
}
