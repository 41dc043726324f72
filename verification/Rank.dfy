/** The RANK and RNKC output scripts of lib/rank/index.ts: the builders and the offset-based
    ScriptProcessor. An absent or empty post id is the empty string. */
module Rank {
  import opened Buffers
  import opened Hex
  import opened ScriptCodec

  const OP_RETURN := 0x6a
  const OP_16 := 0x60
  const LOKAD_RANK := 0x52414e4b
  const LOKAD_RNKC := 0x524e4b43
  const MAX_OP_RETURN_DATA := 220
  const MIN_DATA_LENGTH := 1
  const MIN_FEE_RATE := 10_000_000

  datatype Sentiment = Neutral | Positive | Negative
  datatype Platform = Lotusia | Twitter

  /** `BigInt` on texts that are not plain digits, and the UTF-8 decoder. */
  datatype Env = Env(bigInt: string -> Option<int>, utf8: Buffer -> string)

  ghost predicate Lawful(env: Env) {
    forall b: Buffer :: (forall i :: 0 <= i < |b| ==> b[i] < 128) ==> env.utf8(b) == TextOf(b)
  }

  function TextOf(b: Buffer): (s: string)
    ensures |s| == |b|
  {
    if b == [] then [] else [b[0] as char] + TextOf(b[1..])
  }

  function AsciiOf(s: string): (b: Buffer)
    requires forall i :: 0 <= i < |s| ==> s[i] < 128 as char
    ensures |b| == |s| && forall i :: 0 <= i < |b| ==> b[i] == s[i] as int
  {
    if s == [] then [] else [s[0] as int] + AsciiOf(s[1..])
  }

  // ----- Platform configuration -----

  function ProfileLen(p: Platform): byte { if p == Lotusia then 20 else 16 }
  function PostLen(p: Platform): byte { if p == Lotusia then 32 else 8 }
  function PlatformByte(p: Platform): byte { if p == Lotusia then 0 else 1 }

  function PlatformOf(b: byte): Option<Platform> {
    if b == 0 then Some(Lotusia) else if b == 1 then Some(Twitter) else None
  }

  function SentimentOp(s: Sentiment): byte {
    match s case Neutral => 0x60 case Positive => 0x51 case Negative => 0
  }

  function SentimentOf(b: byte): Option<Sentiment> {
    if b == 0x60 then Some(Neutral) else if b == 0x51 then Some(Positive) else if b == 0 then Some(Negative) else None
  }

  predicate ProfileOk(p: Platform, id: string) {
    if p == Lotusia then |id| == 40 && IsHex(id)
    else 1 <= |id| <= 16 && forall i :: 0 <= i < |id| ==> 'a' <= id[i] <= 'z' || '0' <= id[i] <= '9' || id[i] == '_'
  }

  /** The regular expression only `toScriptRNKC` applies to post ids. */
  predicate PostOk(p: Platform, id: string) {
    if p == Lotusia then |id| == 64 && LowerHex(id) else IsDecimal(id)
  }

  // ----- Building -----

  /** `toHex` of a number. */
  function NumHex(n: nat): string {
    var s := HexDigits(n);
    if |s| < 2 then "0" + s else s
  }

  /** `toProfileIdBuf`: zeros on the left; None where `toHex` throws on its null. */
  function ProfileBuf(p: Platform, id: string): (b: Option<Buffer>)
    ensures b.Some? ==> |b.value| == ProfileLen(p)
  {
    if !ProfileOk(p, id) then None
    else
      var data := if p == Lotusia then Unhex(id) else AsciiOf(id);
      assert p == Lotusia ==> |data| <= 20;
      Some(Zeros(ProfileLen(p) - |data|) + data)
  }

  function BigInt(env: Env, s: string): Option<int> {
    if IsDecimal(s) then Some(FromDecimal(s)) else env.bigInt(s)
  }

  /** `toPostIdBuf`; None when BigInt throws. */
  function PostBuf(env: Env, p: Platform, id: string): Option<Buffer> {
    if p == Lotusia then Some(Unhex(id))
    else match BigInt(env, id) case None => None case Some(v) => Some(Unhex(HexText(v)))
  }

  /** The hex text both builders append: platform, profile id and, when given, post id. */
  function TargetHex(p: Platform, profile: Buffer, postId: string, post: Buffer): string {
    NumHex(1) + HexOf([PlatformByte(p)]) + NumHex(ProfileLen(p)) + HexOf(profile)
    + if postId == "" then "" else NumHex(PostLen(p)) + HexOf(post)
  }

  function ToScriptRANK(env: Env, sentiment: Sentiment, p: Platform, profileId: string,
                        postId: string): Option<Buffer> {
    if profileId == "" then None
    else match (ProfileBuf(p, profileId), PostBuf(env, p, postId))
      case (None, _) => None
      case (Some(profile), post) =>
        if postId != "" && post.None? then None
        else Some(Unhex(NumHex(OP_RETURN) + NumHex(4) + NumHex(LOKAD_RANK) + NumHex(SentimentOp(sentiment))
                        + TargetHex(p, profile, postId, if postId == "" then [] else post.value)))
  }

  function CommentScript(part: Buffer): Buffer {
    Unhex(NumHex(OP_RETURN) + NumHex(OP_PUSHDATA1) + NumHex(|part|) + HexOf(part))
  }

  /** One or two scripts: the comment is split after 220 bytes. */
  function CommentScripts(comment: Buffer): (scripts: seq<Buffer>)
    ensures 1 <= |scripts| <= 2
  {
    [CommentScript(Slice(comment, 0, MAX_OP_RETURN_DATA))]
    + if |comment| > MAX_OP_RETURN_DATA then [CommentScript(comment[MAX_OP_RETURN_DATA..])] else []
  }

  /** `toScriptRNKC`, on the UTF-8 bytes of the comment. */
  function ToScriptRNKC(env: Env, p: Platform, profileId: string, postId: string,
                        comment: Buffer): Option<seq<Buffer>> {
    if !ProfileOk(p, profileId) || (postId != "" && !PostOk(p, postId))
       || |comment| < 1 || |comment| > 2 * MAX_OP_RETURN_DATA then None
    else
      var profile, post := ProfileBuf(p, profileId).value, PostBuf(env, p, postId);
      if postId != "" && post.None? then None
      else
        var head := Unhex(NumHex(OP_RETURN) + NumHex(4) + NumHex(LOKAD_RNKC)
                          + TargetHex(p, profile, postId, if postId == "" then [] else post.value));
        Some([head] + CommentScripts(comment))
  }

  // ----- Reading -----

  /** A thrown RangeError, null, or an output. */
  datatype Parsed<T> = Throws | Nothing | Parsed(value: T)

  datatype RankOutput = RankOutput(sentiment: Sentiment, platform: Platform, profileId: string, postId: string)

  datatype RnkcOutput = RnkcOutput(data: Buffer, feeRate: nat, platform: Platform, profileId: string, postId: string)

  /** The 4 bytes that choose the chunk map. */
  function Lokad(script: Buffer): nat
    requires |script| >= 6
  {
    FromBE(script[2..6])
  }

  /** `processProfileId`; "" stands for undefined. */
  function ReadProfile(env: Env, script: Buffer, at: nat, p: Platform): string {
    var b := Slice(script, at, ProfileLen(p));
    if |b| < ProfileLen(p) then ""
    else if p == Lotusia then HexOf(b)
    else env.utf8(NonZero(b))
  }

  function NonZero(b: Buffer): Buffer {
    if b == [] then [] else (if b[0] != 0 then [b[0]] else []) + NonZero(b[1..])
  }

  /** `processPostId`; "" stands for undefined, the caught RangeError included. */
  function ReadPost(script: Buffer, profileAt: nat, p: Platform): string {
    var b := Slice(script, profileAt + ProfileLen(p) + 1, PostLen(p));
    if p == Lotusia then HexOf(b) else if |b| < 8 then "" else ToDecimal(FromBE(b))
  }

  function ProcessRANK(env: Env, script: Buffer): Parsed<RankOutput> {
    if |script| < 6 then Throws
    else if Lokad(script) != LOKAD_RANK then Nothing
    else if |script| < 7 then Throws
    else match SentimentOf(script[6])
      case None => Nothing
      case Some(sentiment) =>
        if |script| < 9 then Throws
        else match PlatformOf(script[8])
          case None => Nothing
          case Some(p) =>
            var profile := ReadProfile(env, script, 10, p);
            if profile == "" then Nothing
            else Parsed(RankOutput(sentiment, p, profile, ReadPost(script, 10, p)))
  }

  /** `Math.floor(burnedSats / length)`. */
  function FeeRate(burned: nat, len: nat): nat
    requires len > 0
  {
    burned / len
  }

  /** `processComment`: the data after OP_RETURN OP_PUSHDATA1 of each script, up to the first script
      of another form; None is a RangeError. */
  function Comment(scripts: seq<Buffer>): Option<Buffer> {
    if scripts == [] then Some([])
    else
      var s := scripts[0];
      if |s| < 2 then None
      else if s[1] != OP_PUSHDATA1 then Some([])
      else if |s| < 3 then None
      else if s[2] > MAX_OP_RETURN_DATA then Some([])
      else match Comment(scripts[1..])
        case None => None
        case Some(rest) => Some(Slice(s, 3, s[2]) + rest)
  }

  /** `processScriptRNKC`; on a RANK script it reads at the RANK offsets. */
  function ProcessRNKC(env: Env, script: Buffer, supplemental: seq<Buffer>, burned: nat): Parsed<RnkcOutput> {
    if |script| < 6 then Throws
    else if !(1 <= |supplemental| <= 2) then Nothing
    else if Lokad(script) != LOKAD_RNKC && Lokad(script) != LOKAD_RANK then Nothing
    else
      var at := if Lokad(script) == LOKAD_RNKC then 7 else 8;
      if |script| <= at then Throws
      else match PlatformOf(script[at])
        case None => Nothing
        case Some(p) =>
          match Comment(supplemental)
          case None => Throws
          case Some(data) =>
            if |data| < MIN_DATA_LENGTH || burned < MIN_FEE_RATE * |data| then Nothing
            else
              var profile := ReadProfile(env, script, at + 2, p);
              Parsed(RnkcOutput(data, FeeRate(burned, |data|), p, profile,
                                if profile == "" then "" else ReadPost(script, at + 2, p)))
  }

  // ----- Layout of the scripts -----

  function TargetBytes(p: Platform, profile: Buffer, postId: string, post: Buffer): Buffer {
    [1, PlatformByte(p), ProfileLen(p)] + profile + if postId == "" then [] else [PostLen(p)] + post
  }

  lemma NumHexByte(n: byte)
    ensures NumHex(n) == HexOf([n])
  {
    assert HexOf([n]) == [Digit(n / 16), Digit(n % 16)] + HexOf([n][1..]) && [n][1..] == [];
    if n >= 16 {
      assert HexDigits(n) == HexDigits(n / 16) + [Digit(n % 16)] && HexDigits(n / 16) == [Digit(n / 16)];
    } else {
      assert Digit(0) == '0';
    }
  }

  const RANK_BYTES: Buffer := [0x52, 0x41, 0x4e, 0x4b]
  const RNKC_BYTES: Buffer := [0x52, 0x4e, 0x4b, 0x43]

  lemma NumHexStep(n: nat)
    requires n >= 16
    ensures HexDigits(n) == HexDigits(n / 16) + [Digit(n % 16)]
  {
  }

  lemma FourBytes(a: byte, b: byte, c: byte, d: byte)
    requires a >= 16
    ensures var n := ((a * 256 + b) * 256 + c) * 256 + d;
      NumHex(n) == HexOf([a, b, c, d]) && FromBE([a, b, c, d]) == n
  {
    hide HexDigits, Digit;
    TwoDigits(a * 65536 + b * 256 + c, d);
    TwoDigits(a * 256 + b, c);
    TwoDigits(a, b);
    NumHexByte(a);
    var w, x, y, z := [a], [b], [c], [d];
    NumHexByte(b); NumHexByte(c); NumHexByte(d);
    HexConcat(w, x);
    HexConcat(w + x, y);
    HexConcat(w + x + y, z);
    assert w + x + y + z == [a, b, c, d];
    SnocBytes(w + x + y, d);
    SnocBytes(w + x, c);
    SnocBytes(w, b);
    SnocBytes([], a);
    assert [] + [a] == w;
    EmptyBytes();
  }

  lemma TwoDigits(n: nat, d: byte)
    requires n >= 16
    ensures HexDigits(n * 256 + d) == HexDigits(n) + HexOf([d]) && |HexDigits(n)| >= 2
  {
    hide HexDigits, HexOf, Digit;
    assert (n * 256 + d) / 16 == n * 16 + d / 16 && (n * 256 + d) % 16 == d % 16;
    assert (n * 16 + d / 16) / 16 == n && (n * 16 + d / 16) % 16 == d / 16;
    NumHexStep(n * 256 + d);
    NumHexStep(n * 16 + d / 16);
    NumHexStep(n);
    HexCons(d, []);
    EmptyHex();
    assert [d] + [] == [d];
  }

  lemma LokadBytes()
    ensures NumHex(LOKAD_RANK) == HexOf(RANK_BYTES) && FromBE(RANK_BYTES) == LOKAD_RANK
    ensures NumHex(LOKAD_RNKC) == HexOf(RNKC_BYTES) && FromBE(RNKC_BYTES) == LOKAD_RNKC
  {
    FourBytes(0x52, 0x41, 0x4e, 0x4b);
    FourBytes(0x52, 0x4e, 0x4b, 0x43);
  }

  lemma TargetLayout(p: Platform, profile: Buffer, postId: string, post: Buffer)
    ensures TargetHex(p, profile, postId, post) == HexOf(TargetBytes(p, profile, postId, post))
  {
    hide HexOf, NumHex;
    NumHexByte(1); NumHexByte(ProfileLen(p)); NumHexByte(PostLen(p));
    var a, b, c := [1], [PlatformByte(p)], [ProfileLen(p)];
    HexConcat(a, b);
    HexConcat(a + b, c);
    HexConcat(a + b + c, profile);
    assert a + b + c + profile == [1, PlatformByte(p), ProfileLen(p)] + profile;
    if postId != "" {
      HexConcat([PostLen(p)], post);
      HexConcat(a + b + c + profile, [PostLen(p)] + post);
    } else {
      var t := a + b + c + profile;
      assert HexOf(t) + "" == HexOf(t) && t + [] == t;
    }
  }

  /** The script is the concatenation of its pushes, byte for byte. */
  lemma HeadLayout(lokad: nat, lokadBytes: Buffer, op: Option<byte>, p: Platform, profile: Buffer, postId: string,
                   post: Buffer)
    requires NumHex(lokad) == HexOf(lokadBytes)
    ensures Unhex(NumHex(OP_RETURN) + NumHex(4) + NumHex(lokad) + (if op.Some? then NumHex(op.value) else "")
                  + TargetHex(p, profile, postId, post)) ==
      [OP_RETURN, 4] + lokadBytes + (if op.Some? then [op.value] else []) + TargetBytes(p, profile, postId, post)
  {
    hide HexOf, NumHex, TargetHex, Unhex, TargetBytes;
    var t := TargetBytes(p, profile, postId, post);
    TargetLayout(p, profile, postId, post);
    NumHexByte(OP_RETURN); NumHexByte(4);
    HexConcat([OP_RETURN], [4]);
    assert [OP_RETURN] + [4] == [OP_RETURN, 4];
    HexConcat([OP_RETURN, 4], lokadBytes);
    var a := [OP_RETURN, 4] + lokadBytes;
    if op.Some? {
      NumHexByte(op.value);
      HexConcat(a, [op.value]);
      HexConcat(a + [op.value], t);
      UnhexHex(a + [op.value] + t);
    } else {
      HexConcat(a, t);
      UnhexHex(a + t);
      assert HexOf(a) + "" == HexOf(a) && a + [] == a;
    }
  }

  function RankBytes(sentiment: Sentiment, p: Platform, profile: Buffer, postId: string, post: Buffer): Buffer {
    [OP_RETURN, 4] + RANK_BYTES + [SentimentOp(sentiment)] + TargetBytes(p, profile, postId, post)
  }

  function RnkcBytes(p: Platform, profile: Buffer, postId: string, post: Buffer): Buffer {
    [OP_RETURN, 4] + RNKC_BYTES + TargetBytes(p, profile, postId, post)
  }

  /** The post id bytes a builder writes. */
  function PostBytes(env: Env, p: Platform, postId: string): Buffer {
    if postId == "" || PostBuf(env, p, postId).None? then [] else PostBuf(env, p, postId).value
  }

  lemma RankLayout(env: Env, sentiment: Sentiment, p: Platform, profileId: string, postId: string)
    requires ToScriptRANK(env, sentiment, p, profileId, postId).Some?
    ensures ProfileBuf(p, profileId).Some?
    ensures ToScriptRANK(env, sentiment, p, profileId, postId).value ==
      RankBytes(sentiment, p, ProfileBuf(p, profileId).value, postId, PostBytes(env, p, postId))
  {
    hide HexOf, NumHex, TargetHex, Unhex, TargetBytes, PostBuf;
    LokadBytes();
    HeadLayout(LOKAD_RANK, RANK_BYTES, Some(SentimentOp(sentiment)), p, ProfileBuf(p, profileId).value,
               postId, PostBytes(env, p, postId));
  }

  lemma CommentLayout(part: Buffer)
    requires |part| <= MAX_OP_RETURN_DATA
    ensures CommentScript(part) == [OP_RETURN, OP_PUSHDATA1, |part|] + part
  {
    hide HexOf, NumHex, Unhex;
    NumHexByte(OP_RETURN); NumHexByte(OP_PUSHDATA1); NumHexByte(|part|);
    var a, b, c := [OP_RETURN], [OP_PUSHDATA1], [|part|];
    HexConcat(a, b);
    HexConcat(a + b, c);
    HexConcat(a + b + c, part);
    UnhexHex(a + b + c + part);
    assert a + b + c == [OP_RETURN, OP_PUSHDATA1, |part|];
  }

  lemma RnkcLayout(env: Env, p: Platform, profileId: string, postId: string, comment: Buffer)
    requires ToScriptRNKC(env, p, profileId, postId, comment).Some?
    ensures ProfileBuf(p, profileId).Some? && 1 <= |comment| <= 2 * MAX_OP_RETURN_DATA
    ensures var scripts := ToScriptRNKC(env, p, profileId, postId, comment).value;
      && |scripts| >= 2 && scripts[0] == RnkcBytes(p, ProfileBuf(p, profileId).value, postId, PostBytes(env, p, postId))
      && scripts[1..] == CommentScripts(comment)
  {
    hide HexOf, NumHex, TargetHex, Unhex, TargetBytes, PostBuf, CommentScripts;
    LokadBytes();
    var profile, post := ProfileBuf(p, profileId).value, PostBytes(env, p, postId);
    HeadLayout(LOKAD_RNKC, RNKC_BYTES, None, p, profile, postId, post);
    assert NumHex(OP_RETURN) + NumHex(4) + NumHex(LOKAD_RNKC) + "" ==
      NumHex(OP_RETURN) + NumHex(4) + NumHex(LOKAD_RNKC);
    assert [OP_RETURN, 4] + RNKC_BYTES + [] == [OP_RETURN, 4] + RNKC_BYTES;
  }

  // ----- Profile ids -----

  /** Ids that come back: every Twitter name, and Lotusia hex in lower case. */
  predicate ProfileSurvives(p: Platform, id: string) {
    p == Lotusia ==> LowerHex(id)
  }

  lemma {:induction false} NonZeroPadding(k: nat, b: Buffer)
    requires forall i :: 0 <= i < |b| ==> b[i] != 0
    ensures NonZero(Zeros(k) + b) == b
  {
    if k > 0 {
      NonZeroPadding(k - 1, b);
      assert (Zeros(k) + b)[1..] == Zeros(k - 1) + b;
    } else {
      assert Zeros(0) + b == b;
      NonZeroAll(b);
    }
  }

  lemma {:induction false} NonZeroAll(b: Buffer)
    requires forall i :: 0 <= i < |b| ==> b[i] != 0
    ensures NonZero(b) == b
  {
    if b != [] {
      NonZeroAll(b[1..]);
    }
  }

  lemma {:induction false} TextOfAscii(s: string)
    requires forall i :: 0 <= i < |s| ==> s[i] < 128 as char
    ensures TextOf(AsciiOf(s)) == s
  {
    if s != [] {
      TextOfAscii(s[1..]);
      assert AsciiOf(s)[1..] == AsciiOf(s[1..]);
    }
  }

  /** The profile id read from the padded field is the one written exactly when it survives. */
  lemma ProfileIff(env: Env, p: Platform, id: string, script: Buffer, at: nat)
    requires Lawful(env) && ProfileBuf(p, id).Some?
    requires Slice(script, at, ProfileLen(p)) == ProfileBuf(p, id).value
    ensures ReadProfile(env, script, at, p) == id <==> ProfileSurvives(p, id)
    ensures ReadProfile(env, script, at, p) != ""
  {
    hide HexOf, Unhex, NonZero, TextOf;
    if p == Lotusia {
      UnhexLength(id);
      assert Zeros(0) == [] && ProfileBuf(p, id).value == Unhex(id);
      UnhexHex(Unhex(id));
      if LowerHex(id) {
        HexUnhex(id);
      }
    } else {
      NonZeroPadding(16 - |id|, AsciiOf(id));
      TextOfAscii(id);
    }
  }

  // ----- Post ids -----

  const TWO_60 := 0x1000_0000_0000_0000
  const TWO_64 := 0x1_0000_0000_0000_0000

  /** Post ids that come back: on Lotusia whole bytes of lower-case hex, at most 32 of them; on
      Twitter a decimal without leading zero whose hexadecimal form has exactly 16 digits. */
  predicate PostSurvives(p: Platform, id: string) {
    id == "" ||
    if p == Lotusia then LowerHex(id) && |id| % 2 == 0 && |id| <= 64
    else IsDecimal(id) && id[0] != '0' && TWO_60 <= FromDecimal(id) < TWO_64
  }

  lemma Powers()
    ensures Pow16(15) == TWO_60 && Pow16(16) == TWO_64 && Pow256(8) == TWO_64
  {
    assert Pow16(4) == 0x1_0000 && Pow16(8) == 0x1_0000_0000;
    assert Pow16(12) == 0x1_0000_0000_0000;
    assert Pow256(4) == 0x1_0000_0000;
  }

  lemma LotusiaPostIff(id: string)
    requires id != ""
    ensures HexOf(Slice(Unhex(id), 0, 32)) == id <==> PostSurvives(Lotusia, id)
  {
    hide HexOf, Unhex;
    var b := Slice(Unhex(id), 0, 32);
    UnhexHex(b);
    if PostSurvives(Lotusia, id) {
      HexUnhex(id);
      assert b == Unhex(id);
    }
  }

  /** What `processPostId` makes of the bytes of a post id. */
  function TwitterText(post: Buffer): string {
    var b := Slice(post, 0, 8);
    if |b| < 8 then "" else ToDecimal(FromBE(b))
  }

  lemma TwitterPostIff(env: Env, id: string)
    requires id != "" && BigInt(env, id).Some?
    ensures TwitterText(Unhex(HexText(BigInt(env, id).value))) == id <==> PostSurvives(Twitter, id)
  {
    hide Unhex, FromBE, ToDecimal, HexDigits, FromDecimal, Pow16, Pow256, LowerHex, IsHex;
    if IsDecimal(id) {
      var v := FromDecimal(id);
      var digits := HexDigits(v);
      var b := Unhex(digits);
      Powers();
      HexDigitsLength(v, 15);
      HexDigitsLength(v, 16);
      LowerIsHex(digits);
      UnhexLength(digits);
      DecimalText(id);
      if |digits| == 16 {
        HexDigitsBytes(v);
        assert Slice(b, 0, 8) == b;
      } else if |digits| > 16 {
        DecimalInverse(FromBE(Slice(b, 0, 8)));
      }
    }
  }

  lemma PostIff(env: Env, p: Platform, postId: string, script: Buffer, at: nat)
    requires postId != "" ==> PostBuf(env, p, postId).Some?
    requires Slice(script, at + ProfileLen(p) + 1, PostLen(p)) == Slice(PostBytes(env, p, postId), 0, PostLen(p))
    ensures ReadPost(script, at, p) == postId <==> PostSurvives(p, postId)
  {
    hide Unhex, HexOf, FromBE, ToDecimal, IsDecimal, LowerHex, HexText;
    if postId == "" {
      EmptyHex();
    } else if p == Lotusia {
      LotusiaPostIff(postId);
    } else {
      TwitterPostIff(env, postId);
    }
  }

  // ----- Round trips -----

  /** Where the fields sit in the bytes after a head of h bytes. */
  lemma Fields(head: Buffer, p: Platform, profile: Buffer, postId: string, post: Buffer)
    requires |profile| == ProfileLen(p) && (postId == "" ==> post == [])
    ensures var b := head + TargetBytes(p, profile, postId, post); var h := |head|;
      && |b| >= h + 3 && b[..h] == head && b[h + 1] == PlatformByte(p)
      && Slice(b, h + 3, ProfileLen(p)) == profile
      && Slice(b, h + 3 + ProfileLen(p) + 1, PostLen(p)) == Slice(post, 0, PostLen(p))
  {
    var b, h := head + TargetBytes(p, profile, postId, post), |head|;
    var pre := head + [1, PlatformByte(p), ProfileLen(p)];
    if postId == "" {
      assert b == pre + profile;
    } else {
      assert b == pre + profile + [PostLen(p)] + post;
      assert b[h + 3 + ProfileLen(p) + 1..] == post;
    }
  }

  lemma ReadRank(env: Env, script: Buffer, sentiment: Sentiment, p: Platform)
    requires |script| >= 10 && Lokad(script) == LOKAD_RANK
    requires script[6] == SentimentOp(sentiment) && script[8] == PlatformByte(p)
    requires ReadProfile(env, script, 10, p) != ""
    ensures ProcessRANK(env, script) ==
      Parsed(RankOutput(sentiment, p, ReadProfile(env, script, 10, p), ReadPost(script, 10, p)))
  {
    hide Lokad, ReadProfile, ReadPost;
  }

  /** The RANK head is 7 bytes and names the protocol. */
  lemma RankHead(sentiment: Sentiment, rest: Buffer)
    requires |rest| >= 3
    ensures var script := [OP_RETURN, 4] + RANK_BYTES + [SentimentOp(sentiment)] + rest;
      |script| >= 10 && Lokad(script) == LOKAD_RANK && script[6] == SentimentOp(sentiment)
  {
    hide NumHex, HexOf, FromBE;
    LokadBytes();
    var script := [OP_RETURN, 4] + RANK_BYTES + [SentimentOp(sentiment)] + rest;
    assert script[2..6] == RANK_BYTES;
  }

  lemma RnkcHead(rest: Buffer)
    requires |rest| >= 3
    ensures var script := [OP_RETURN, 4] + RNKC_BYTES + rest; |script| >= 9 && Lokad(script) == LOKAD_RNKC
  {
    hide NumHex, HexOf, FromBE;
    LokadBytes();
    var script := [OP_RETURN, 4] + RNKC_BYTES + rest;
    assert script[2..6] == RNKC_BYTES;
  }

  /** Reading a RANK script gives back sentiment, platform, profile id and post id exactly when
      both ids survive: whatever was built, sentiment and platform always do. */
  lemma RankRoundTripIff(env: Env, sentiment: Sentiment, p: Platform, profileId: string, postId: string)
    requires Lawful(env) && ToScriptRANK(env, sentiment, p, profileId, postId).Some?
    ensures var r := ProcessRANK(env, ToScriptRANK(env, sentiment, p, profileId, postId).value);
      && r.Parsed? && r.value.sentiment == sentiment && r.value.platform == p
      && (r.value.profileId == profileId <==> ProfileSurvives(p, profileId))
      && (r.value.postId == postId <==> PostSurvives(p, postId))
  {
    hide ReadProfile, ReadPost, TargetBytes, ProfileSurvives, PostSurvives, Lokad, ProcessRANK, ProfileBuf, PostBytes,
      Lawful;
    RankLayout(env, sentiment, p, profileId, postId);
    BothGiven(env, sentiment, p, profileId, postId);
    hide ToScriptRANK;
    var target := TargetBytes(p, ProfileBuf(p, profileId).value, postId, PostBytes(env, p, postId));
    ReadTarget(env, [OP_RETURN, 4] + RANK_BYTES + [SentimentOp(sentiment)], p, profileId, postId);
    RankHead(sentiment, target);
    ReadRank(env, ToScriptRANK(env, sentiment, p, profileId, postId).value, sentiment, p);
  }

  /** The reader's fields after h bytes: the platform, and both ids exactly when they survive. */
  predicate TargetAt(env: Env, script: Buffer, h: nat, p: Platform, profileId: string, postId: string) {
    && |script| >= h + 3 && script[h + 1] == PlatformByte(p)
    && (ReadProfile(env, script, h + 3, p) == profileId <==> ProfileSurvives(p, profileId))
    && ReadProfile(env, script, h + 3, p) != ""
    && (ReadPost(script, h + 3, p) == postId <==> PostSurvives(p, postId))
  }

  lemma ReadTarget(env: Env, head: Buffer, p: Platform, profileId: string, postId: string)
    requires Lawful(env) && ProfileBuf(p, profileId).Some?
    requires postId != "" ==> PostBuf(env, p, postId).Some?
    ensures var target := TargetBytes(p, ProfileBuf(p, profileId).value, postId, PostBytes(env, p, postId));
      |target| >= 3 && TargetAt(env, head + target, |head|, p, profileId, postId)
  {
    hide ReadProfile, ReadPost, TargetBytes, ProfileSurvives, PostSurvives, ProfileBuf, PostBuf, Slice, Lawful;
    var profile, post := ProfileBuf(p, profileId).value, PostBytes(env, p, postId);
    var script := head + TargetBytes(p, profile, postId, post);
    Fields(head, p, profile, postId, post);
    TargetHead(p, profile, postId, post);
    ProfileIff(env, p, profileId, script, |head| + 3);
    PostIff(env, p, postId, script, |head| + 3);
  }

  lemma TargetHead(p: Platform, profile: Buffer, postId: string, post: Buffer)
    ensures |TargetBytes(p, profile, postId, post)| >= 3
  {
  }

  lemma BothGiven(env: Env, sentiment: Sentiment, p: Platform, profileId: string, postId: string)
    requires ToScriptRANK(env, sentiment, p, profileId, postId).Some?
    ensures postId != "" ==> PostBuf(env, p, postId).Some?
  {
  }

  lemma CommentBack(comment: Buffer)
    requires 1 <= |comment| <= 2 * MAX_OP_RETURN_DATA
    ensures Comment(CommentScripts(comment)) == Some(comment)
  {
    hide CommentScript;
    var first := Slice(comment, 0, MAX_OP_RETURN_DATA);
    CommentLayout(first);
    CommentOne(first);
    var one := CommentScript(first);
    if |comment| > MAX_OP_RETURN_DATA {
      var second := comment[MAX_OP_RETURN_DATA..];
      CommentLayout(second);
      CommentOne(second);
      var two := CommentScript(second);
      var none: seq<Buffer> := [];
      assert ([one] + [two])[1..] == [two] && [two][1..] == none;
      assert Comment([two]) == Some(second + []);
      assert first + second == comment;
      assert second + [] == second;
    } else {
      var none: seq<Buffer> := [];
      assert ([one] + none)[1..] == none;
      assert first + [] == comment;
    }
  }

  lemma CommentOne(part: Buffer)
    requires |part| <= MAX_OP_RETURN_DATA
    ensures Slice([OP_RETURN, OP_PUSHDATA1, |part|] + part, 3, |part|) == part
  {
    var s := [OP_RETURN, OP_PUSHDATA1, |part|] + part;
    assert s[3..] == part;
  }

  /** A comment built by `toScriptRNKC` is accepted exactly when the burn pays the minimum rate for
      its length; then the comment comes back byte for byte across the 220-byte split, at no less
      than the minimum rate, and the ids come back exactly when they survive. */
  lemma RnkcRoundTripIff(env: Env, p: Platform, profileId: string, postId: string, comment: Buffer, burned: nat)
    requires Lawful(env) && ToScriptRNKC(env, p, profileId, postId, comment).Some?
    ensures var scripts := ToScriptRNKC(env, p, profileId, postId, comment).value;
      var r := ProcessRNKC(env, scripts[0], scripts[1..], burned);
      && (r.Parsed? <==> burned >= 10_000_000 * |comment|)
      && (r.Parsed? ==>
          && r.value.data == comment && r.value.platform == p
          && PaidRate(r.value.feeRate, burned, |comment|)
          && (r.value.profileId == profileId <==> ProfileSurvives(p, profileId))
          && (r.value.postId == postId <==> PostSurvives(p, postId)))
  {
    hide ReadProfile, ReadPost, ProfileSurvives, PostSurvives, Lokad, ProcessRNKC, Comment, CommentScripts, PaidRate,
      FeeRate, Lawful, RnkcBytes;
    RnkcLayout(env, p, profileId, postId, comment);
    RnkcFields(env, p, profileId, postId, comment);
    hide ToScriptRNKC;
    CommentBack(comment);
    var scripts := ToScriptRNKC(env, p, profileId, postId, comment).value;
    ReadRnkc(env, scripts[0], scripts[1..], p, comment, burned);
    Rate(burned, |comment|);
  }

  lemma RnkcFields(env: Env, p: Platform, profileId: string, postId: string, comment: Buffer)
    requires Lawful(env) && ToScriptRNKC(env, p, profileId, postId, comment).Some?
    ensures var script := ToScriptRNKC(env, p, profileId, postId, comment).value[0];
      |script| >= 9 && Lokad(script) == LOKAD_RNKC && TargetAt(env, script, 6, p, profileId, postId)
  {
    hide ReadProfile, ReadPost, TargetBytes, ProfileSurvives, PostSurvives, Lokad, ProfileBuf, PostBytes, Lawful,
      CommentScripts, TargetAt;
    RnkcLayout(env, p, profileId, postId, comment);
    RnkcGiven(env, p, profileId, postId, comment);
    hide ToScriptRNKC;
    var target := TargetBytes(p, ProfileBuf(p, profileId).value, postId, PostBytes(env, p, postId));
    ReadTarget(env, [OP_RETURN, 4] + RNKC_BYTES, p, profileId, postId);
    RnkcHead(target);
  }

  lemma RnkcGiven(env: Env, p: Platform, profileId: string, postId: string, comment: Buffer)
    requires ToScriptRNKC(env, p, profileId, postId, comment).Some?
    ensures postId != "" ==> PostBuf(env, p, postId).Some?
  {
  }

  lemma ReadRnkc(env: Env, script: Buffer, supplemental: seq<Buffer>, p: Platform, comment: Buffer, burned: nat)
    requires |script| >= 9 && Lokad(script) == LOKAD_RNKC && script[7] == PlatformByte(p)
    requires 1 <= |supplemental| <= 2 && Comment(supplemental) == Some(comment) && |comment| >= 1
    requires ReadProfile(env, script, 9, p) != ""
    ensures ProcessRNKC(env, script, supplemental, burned) ==
      if burned < MIN_FEE_RATE * |comment| then Nothing
      else Parsed(RnkcOutput(comment, FeeRate(burned, |comment|), p,
                             ReadProfile(env, script, 9, p), ReadPost(script, 9, p)))
  {
    hide Lokad, ReadProfile, ReadPost, Comment, FeeRate;
  }

  /** The whole number of satoshis per byte, and no less than the minimum. */
  predicate PaidRate(rate: nat, burned: nat, len: nat) {
    rate * len <= burned < (rate + 1) * len && rate >= 10_000_000
  }

  lemma Rate(burned: nat, len: nat)
    requires len > 0
    ensures burned >= MIN_FEE_RATE * len ==> PaidRate(FeeRate(burned, len), burned, len)
  {
    var rate := burned / len;
    assert burned == len * rate + burned % len;
    assert rate < MIN_FEE_RATE ==> (rate + 1) * len <= MIN_FEE_RATE * len;
  }

  // ----- Standard data outputs -----

  predicate IsPushOnly(cs: seq<Chunk>) {
    forall i :: 0 <= i < |cs| ==> cs[i].opcodenum <= OP_16
  }

  /** `Script.isDataOut` on the chunk list. */
  predicate IsDataOut(cs: seq<Chunk>) {
    && |cs| >= 1 && cs[0].opcodenum == OP_RETURN
    && Encode(cs).Some? && |Encode(cs).value| <= 223
    && IsPushOnly(cs[1..])
  }

  predicate StandardDataOut(script: Buffer) {
    Parse(script).Some? && IsDataOut(Parse(script).value)
  }

  /** OP_RETURN followed by pushes, the last of which may be cut short, is a data output. */
  lemma DataOutShape(script: Buffer, cs: seq<Chunk>)
    requires ReaderShaped(cs) && Encode(cs) == Some(script) && |script| <= 223
    requires |cs| >= 1 && cs[0] == Opcode(OP_RETURN) && IsPushOnly(cs[1..])
    ensures StandardDataOut(script)
  {
    EncodeThenParse(cs);
  }

  function OpPush(data: Buffer, len: nat): Chunk {
    Data(len, len, data)
  }

  lemma EncodePush(data: Buffer, len: nat, cs: seq<Chunk>)
    requires 0 < len < OP_PUSHDATA1 && Encode(cs).Some?
    ensures Encode([OpPush(data, len)] + cs) == Some([len] + data + Encode(cs).value)
  {
    EncodeCons(OpPush(data, len), cs);
  }

  lemma EncodeOp(op: byte, cs: seq<Chunk>)
    requires Encode(cs).Some?
    ensures Encode([Opcode(op)] + cs) == Some([op] + Encode(cs).value)
  {
    EncodeCons(Opcode(op), cs);
  }

  function TargetChunks(p: Platform, profile: Buffer, postId: string, post: Buffer): seq<Chunk> {
    [OpPush([PlatformByte(p)], 1)] + ([OpPush(profile, ProfileLen(p))]
      + if postId == "" then [] else [OpPush(post, PostLen(p))] + [])
  }

  lemma EncodeTarget(p: Platform, profile: Buffer, postId: string, post: Buffer)
    ensures Encode(TargetChunks(p, profile, postId, post)) == Some(TargetBytes(p, profile, postId, post))
  {
    hide Encode, OpPush;
    EncodeNil();
    var tail := if postId == "" then [] else [OpPush(post, PostLen(p))] + [];
    if postId != "" {
      EncodePush(post, PostLen(p), []);
    }
    EncodePush(profile, ProfileLen(p), tail);
    EncodePush([PlatformByte(p)], 1, [OpPush(profile, ProfileLen(p))] + tail);
    var end := if postId == "" then [] else [PostLen(p)] + post;
    assert Encode(tail) == Some(end) by {
      if postId != "" { assert end + [] == end; }
    }
    assert [1] + [PlatformByte(p)] + ([ProfileLen(p)] + profile + end) == TargetBytes(p, profile, postId, post);
  }

  lemma TargetSize(p: Platform, profile: Buffer, postId: string, post: Buffer)
    requires |profile| == ProfileLen(p) && |post| <= PostLen(p)
    ensures |TargetBytes(p, profile, postId, post)| <= 100
    ensures ReaderShaped(TargetChunks(p, profile, postId, post)) && IsPushOnly(TargetChunks(p, profile, postId, post))
    ensures postId == "" || |post| == PostLen(p) ==> AllComplete(TargetChunks(p, profile, postId, post))
  {
  }

  predicate IsPushOnlyBytes(b: Buffer) {
    Parse(b).Some? && IsPushOnly(Parse(b).value)
  }

  /** OP_RETURN and complete pushes with more bytes behind them: those must be pushes as well. */
  lemma AppendedIff(cs: seq<Chunk>, extra: Buffer)
    requires AllComplete(cs) && |cs| >= 1 && cs[0] == Opcode(OP_RETURN) && IsPushOnly(cs[1..])
    ensures Encode(cs).Some?
    ensures var script := Encode(cs).value + extra;
      StandardDataOut(script) <==> |script| <= 223 && IsPushOnlyBytes(extra)
  {
    hide Encode, Parse, Complete, IsPushOnly;
    ParseAfterComplete(cs, extra);
    var script := Encode(cs).value + extra;
    if Parse(extra).Some? {
      var ts := Parse(extra).value;
      ParseThenEncode(script);
      assert (cs + ts)[0] == cs[0] && (cs + ts)[1..] == cs[1..] + ts;
      PushOnlyConcat(cs[1..], ts);
    }
  }

  lemma PushOnlyConcat(a: seq<Chunk>, b: seq<Chunk>)
    ensures IsPushOnly(a + b) <==> IsPushOnly(a) && IsPushOnly(b)
  {
    var all := a + b;
    if IsPushOnly(all) {
      forall i | 0 <= i < |a| ensures a[i].opcodenum <= OP_16 { assert all[i] == a[i]; }
      forall i | 0 <= i < |b| ensures b[i].opcodenum <= OP_16 { assert all[|a| + i] == b[i]; }
    }
  }

  /** The bytes of a post id that fit its push, and those behind it. */
  function Fitting(p: Platform, post: Buffer): (b: Buffer)
    ensures |b| <= PostLen(p)
  {
    Slice(post, 0, PostLen(p))
  }

  function Excess(p: Platform, post: Buffer): Buffer {
    if |post| <= PostLen(p) then [] else post[PostLen(p)..]
  }

  /** Chunks and bytes of a target behind a head of complete pushes. */
  lemma TargetIsDataOutIff(head: seq<Chunk>, headBytes: Buffer, p: Platform, profile: Buffer, postId: string,
                           post: Buffer)
    requires AllComplete(head) && |head| >= 1 && head[0] == Opcode(OP_RETURN) && IsPushOnly(head[1..])
    requires Encode(head) == Some(headBytes) && |headBytes| <= 20
    requires |profile| == ProfileLen(p) && (postId == "" ==> post == [])
    ensures var script := headBytes + TargetBytes(p, profile, postId, post);
      StandardDataOut(script) <==> |script| <= 223 && IsPushOnlyBytes(Excess(p, post))
  {
    hide Encode, Parse, Complete, IsPushOnly, TargetBytes, TargetChunks, StandardDataOut;
    var fit, extra := Fitting(p, post), Excess(p, post);
    var target := TargetChunks(p, profile, postId, fit);
    var cs := head + target;
    var bytes := headBytes + TargetBytes(p, profile, postId, fit);
    TargetSize(p, profile, postId, fit);
    EncodeTarget(p, profile, postId, fit);
    EncodeConcat(head, target);
    SplitTarget(p, profile, postId, post);
    ConcatAssoc(headBytes, TargetBytes(p, profile, postId, fit), extra);
    assert cs[0] == head[0] && cs[1..] == head[1..] + target;
    PushOnlyConcat(head[1..], target);
    if postId == "" || |fit| == PostLen(p) {
      AppendedIff(cs, extra);
    } else {
      NothingLeft();
      ShapedConcat(head, target);
      DataOutShape(bytes, cs);
      assert bytes + [] == bytes;
    }
  }

  lemma NothingLeft()
    ensures IsPushOnlyBytes([])
  {
  }

  lemma ShapedConcat(a: seq<Chunk>, b: seq<Chunk>)
    requires AllComplete(a) && ReaderShaped(b)
    ensures ReaderShaped(a + b)
  {
    hide Complete, CutShort;
  }

  lemma {:induction false} EncodeConcat(a: seq<Chunk>, b: seq<Chunk>)
    requires Encode(a).Some? && Encode(b).Some?
    ensures Encode(a + b) == Some(Encode(a).value + Encode(b).value)
  {
    hide Encode, EncodeChunk;
    EncodeNil();
    if a == [] {
      assert a + b == b;
      assert [] + Encode(b).value == Encode(b).value;
    } else {
      var rest := a[1..];
      assert a == [a[0]] + rest && a + b == [a[0]] + (rest + b);
      EncodeFirst(a[0], rest);
      EncodeConcat(rest, b);
      EncodeFirst(a[0], rest + b);
      ConcatAssoc(EncodeChunk(a[0]).value, Encode(rest).value, Encode(b).value);
    }
  }

  lemma SplitTarget(p: Platform, profile: Buffer, postId: string, post: Buffer)
    requires postId == "" ==> post == []
    ensures TargetBytes(p, profile, postId, post) == TargetBytes(p, profile, postId, Fitting(p, post)) + Excess(p, post)
    ensures |Fitting(p, post)| < PostLen(p) ==> Excess(p, post) == []
  {
    if postId != "" {
      assert post == Fitting(p, post) + Excess(p, post);
    }
  }

  lemma HeadChunks(lokad: Buffer, op: Option<byte>)
    requires |lokad| == 4 && (op.Some? ==> op.value == 0 || OP_PUSHDATA4 < op.value <= OP_16)
    ensures var tail := if op.Some? then [Opcode(op.value)] + [] else [];
      var head := [Opcode(OP_RETURN)] + ([OpPush(lokad, 4)] + tail);
      && AllComplete(head) && head[0] == Opcode(OP_RETURN) && IsPushOnly(head[1..])
      && Encode(head) == Some([OP_RETURN, 4] + lokad + if op.Some? then [op.value] else [])
  {
    hide Encode;
    var tail := if op.Some? then [Opcode(op.value)] + [] else [];
    EncodeNil();
    if op.Some? {
      EncodeOp(op.value, []);
    }
    EncodePush(lokad, 4, tail);
    EncodeOp(OP_RETURN, [OpPush(lokad, 4)] + tail);
    var end := if op.Some? then [op.value] else [];
    assert end + [] == end && Encode(tail) == Some(end);
    assert [OP_RETURN] + ([4] + lokad + end) == [OP_RETURN, 4] + lokad + end;
  }

  /** A RANK script is a standard data output exactly when it is at most 223 bytes long and what its
      post id has beyond the announced length, if anything, parses as pushes. */
  lemma RankIsDataOutIff(env: Env, sentiment: Sentiment, p: Platform, profileId: string, postId: string)
    requires ToScriptRANK(env, sentiment, p, profileId, postId).Some?
    ensures var script := ToScriptRANK(env, sentiment, p, profileId, postId).value;
      var post := PostBytes(env, p, postId);
      && (StandardDataOut(script) <==> |script| <= 223 && IsPushOnlyBytes(Excess(p, post)))
      && (|post| <= PostLen(p) ==> StandardDataOut(script))
  {
    hide Encode, TargetBytes, ToScriptRANK, ProfileBuf, StandardDataOut, PostBuf, Parse, IsPushOnly, Complete;
    RankLayout(env, sentiment, p, profileId, postId);
    var profile, post := ProfileBuf(p, profileId).value, PostBytes(env, p, postId);
    var op := Some(SentimentOp(sentiment));
    HeadChunks(RANK_BYTES, op);
    var head := [Opcode(OP_RETURN)] + ([OpPush(RANK_BYTES, 4)] + ([Opcode(op.value)] + []));
    TargetIsDataOutIff(head, [OP_RETURN, 4] + RANK_BYTES + [op.value], p, profile, postId, post);
    if |post| <= PostLen(p) {
      TargetSize(p, profile, postId, post);
      NothingLeft();
    }
  }

  const TWO_68 := 0x10_0000_0000_0000_0000
  const TWO_72 := 0x100_0000_0000_0000_0000

  /** A decimal with 18 hex digits, the last two above 0x60. */
  predicate Spoiling(id: string) {
    IsDecimal(id) && TWO_68 <= FromDecimal(id) < TWO_72 && FromDecimal(id) % 256 > 0x60
  }

  lemma HigherPowers()
    ensures Pow16(17) == TWO_68 && Pow16(18) == TWO_72
  {
    Powers();
  }

  /** Such an id spoils its script. */
  lemma LongPostSpoils(env: Env, sentiment: Sentiment, profileId: string, postId: string)
    requires ToScriptRANK(env, sentiment, Twitter, profileId, postId).Some? && Spoiling(postId)
    ensures !StandardDataOut(ToScriptRANK(env, sentiment, Twitter, profileId, postId).value)
  {
    hide StandardDataOut, ToScriptRANK, IsPushOnlyBytes, PostBytes;
    var last := SpoilingExcess(env, postId);
    OpcodeIsNoPush(last);
    RankIsDataOutIff(env, sentiment, Twitter, profileId, postId);
  }

  /** Its excess is one byte, a non-push opcode. */
  lemma SpoilingExcess(env: Env, postId: string) returns (last: byte)
    requires Spoiling(postId)
    ensures last > OP_16 && Excess(Twitter, PostBytes(env, Twitter, postId)) == [last]
  {
    hide Unhex, HexDigits, FromBE, Pow16, FromDecimal, LowerHex, IsHex;
    var v := FromDecimal(postId);
    var digits := HexDigits(v);
    var b := Unhex(digits);
    HigherPowers();
    HexDigitsLength(v, 17);
    HexDigitsLength(v, 18);
    LowerIsHex(digits);
    UnhexLength(digits);
    HexDigitsBytes(v);
    SnocBytes(b[..8], b[8]);
    assert b == b[..8] + [b[8]];
    last := b[8];
  }

  lemma OpcodeIsNoPush(op: byte)
    requires op > OP_16
    ensures !IsPushOnlyBytes([op])
  {
    assert Parse([op]) == Some([Opcode(op)] + []) by {
      assert ReadChunk([op]) == Some((Opcode(op), 1)) && Rest([op], 1) == [];
    }
    assert Parse([op]).value[0] == Opcode(op);
  }

  lemma SpoilingIdExists() returns (id: string)
    ensures Spoiling(id)
  {
    hide FromDecimal, ToDecimal, IsDecimal;
    id := ToDecimal(TWO_68 + 0xff);
    DecimalInverse(TWO_68 + 0xff);
    TextIsDecimal(TWO_68 + 0xff);
  }

  lemma TextIsDecimal(n: nat)
    ensures IsDecimal(ToDecimal(n))
  {
  }

  /** All two or three scripts of a comment are standard data outputs exactly when the first one is
      at most 223 bytes long and its post id's excess parses as pushes. */
  lemma RnkcIsDataOutIff(env: Env, p: Platform, profileId: string, postId: string, comment: Buffer)
    requires ToScriptRNKC(env, p, profileId, postId, comment).Some?
    ensures var scripts := ToScriptRNKC(env, p, profileId, postId, comment).value;
      var post := PostBytes(env, p, postId);
      && ((forall s :: s in scripts ==> StandardDataOut(s)) <==>
          |scripts[0]| <= 223 && IsPushOnlyBytes(Excess(p, post)))
      && (|post| <= PostLen(p) ==> forall s :: s in scripts ==> StandardDataOut(s))
  {
    hide Encode, TargetBytes, ToScriptRNKC, ProfileBuf, StandardDataOut, CommentScript, PostBuf, Parse, IsPushOnly,
      Complete;
    RnkcLayout(env, p, profileId, postId, comment);
    var scripts := ToScriptRNKC(env, p, profileId, postId, comment).value;
    var profile, post := ProfileBuf(p, profileId).value, PostBytes(env, p, postId);
    HeadChunks(RNKC_BYTES, None);
    assert [OP_RETURN, 4] + RNKC_BYTES + [] == [OP_RETURN, 4] + RNKC_BYTES;
    var head := [Opcode(OP_RETURN)] + ([OpPush(RNKC_BYTES, 4)] + []);
    TargetIsDataOutIff(head, [OP_RETURN, 4] + RNKC_BYTES, p, profile, postId, post);
    CommentIsDataOut(Slice(comment, 0, MAX_OP_RETURN_DATA));
    if |comment| > MAX_OP_RETURN_DATA {
      CommentIsDataOut(comment[MAX_OP_RETURN_DATA..]);
    }
    assert scripts == [scripts[0]] + scripts[1..];
    assert scripts[0] in scripts;
    if |post| <= PostLen(p) {
      TargetSize(p, profile, postId, post);
      NothingLeft();
    }
  }

  lemma CommentIsDataOut(part: Buffer)
    requires |part| <= MAX_OP_RETURN_DATA
    ensures StandardDataOut(CommentScript(part))
  {
    hide Encode, StandardDataOut, CommentScript;
    CommentLayout(part);
    var push := Data(OP_PUSHDATA1, |part|, part);
    EncodeNil();
    EncodeCons(push, []);
    EncodeOp(OP_RETURN, [push] + []);
    var cs := [Opcode(OP_RETURN)] + ([push] + []);
    assert LE(|part|, 1) == [|part|] by { assert LE(|part| / 256, 0) == []; }
    assert cs[1..] == [push];
    assert [OP_RETURN] + ([OP_PUSHDATA1] + [|part|] + part + []) == [OP_RETURN, OP_PUSHDATA1, |part|] + part;
    DataOutShape(CommentScript(part), cs);
  }

  // ----- The processor object -----

  class ScriptProcessor {
    const script: Buffer
    var supplementalScripts: seq<Buffer>

    constructor (script: Buffer)
      requires |script| >= 6
      ensures this.script == script && supplementalScripts == []
    {
      this.script := script;
      supplementalScripts := [];
    }

    /** None is the RangeError on an empty script. */
    method AddScript(extra: Buffer) returns (added: Option<bool>)
      modifies this
      ensures added == if extra == [] then None else Some(extra[0] == OP_RETURN)
      ensures supplementalScripts == old(supplementalScripts) + if added == Some(true) then [extra] else []
    {
      if extra == [] {
        return None;
      }
      if extra[0] != OP_RETURN {
        return Some(false);
      }
      supplementalScripts := supplementalScripts + [extra];
      return Some(true);
    }

    static method ProcessComment(scripts: seq<Buffer>) returns (r: Option<Buffer>)
      ensures r == Comment(scripts)
    {
      var commentBuf: Buffer := [];
      var i := 0;
      while i < |scripts|
        invariant 0 <= i <= |scripts|
        invariant Comment(scripts) == Prefixed(commentBuf, Comment(scripts[i..]))
      {
        var s := scripts[i];
        assert scripts[i..][1..] == scripts[i + 1..];
        if |s| < 2 {
          return None;
        }
        if s[1] != OP_PUSHDATA1 {
          break;
        }
        if |s| < 3 {
          return None;
        }
        var dataSize := s[2];
        if dataSize > MAX_OP_RETURN_DATA {
          break;
        }
        ghost var before := commentBuf;
        commentBuf := commentBuf + Slice(s, 3, dataSize);
        assert forall rest: Buffer :: before + (Slice(s, 3, dataSize) + rest) == commentBuf + rest;
        i := i + 1;
      }
      assert commentBuf + [] == commentBuf;
      return Some(commentBuf);
    }

    method ProcessScriptRNKC(env: Env, burnedSats: nat) returns (r: Parsed<RnkcOutput>)
      requires |script| >= 6
      ensures r == ProcessRNKC(env, script, supplementalScripts, burnedSats)
    {
      if |supplementalScripts| == 0 || |supplementalScripts| > 2 {
        return Nothing;
      }
      var lokad := Lokad(script);
      if lokad != LOKAD_RNKC && lokad != LOKAD_RANK {
        return Nothing;
      }
      var at := if lokad == LOKAD_RNKC then 7 else 8;
      if |script| <= at {
        return Throws;
      }
      var platform := PlatformOf(script[at]);
      if platform.None? {
        return Nothing;
      }
      var comment := ProcessComment(supplementalScripts);
      if comment.None? {
        return Throws;
      }
      var data := comment.value;
      if |data| < MIN_DATA_LENGTH || burnedSats < MIN_FEE_RATE * |data| {
        return Nothing;
      }
      var out := RnkcOutput(data, burnedSats / |data|, platform.value, "", "");
      var profileId := ReadProfile(env, script, at + 2, platform.value);
      if profileId != "" {
        out := out.(profileId := profileId, postId := ReadPost(script, at + 2, platform.value));
      }
      return Parsed(out);
    }
  }
}
