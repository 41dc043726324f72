/** Building, spending and verifying Taproot outputs (lib/bitcore/taproot.ts): the control block
    writer against the verifier that re-parses it. */
module TaprootSpend {
  import opened Buffers
  import opened ModArith
  import opened EllipticCurve
  import opened PublicKeys
  import opened ScriptCodec
  import opened Taproot
  import opened TaprootHashes

  // ----- Outputs -----

  /** `buildPayToTaproot`: None when the state or the commitment has the wrong length. */
  function PayToTaproot(commitment: PublicKey, state: Option<Buffer>): Option<seq<Chunk>>
    requires commitment.point.Affine?
  {
    if (state.Some? && |state.value| != 32) || |ToDER(commitment)| != 33 then None
    else
      var base := [ChunkFor(Op(OP_SCRIPTTYPE)), ChunkFor(Op(OP_1)), ChunkFor(Push(ToDER(commitment)))];
      Some(if state.Some? then base + [ChunkFor(Push(state.value))] else base)
  }

  datatype Output = Output(script: seq<Chunk>, commitment: PublicKey, merkleRoot: Hash, leaves: seq<TapLeaf>)

  /** `buildScriptPathTaproot`. */
  function ScriptPathOutput(env: Env, key: PublicKey, tree: TapNode, state: Option<Buffer>): Option<Output>
    requires key.point.Affine?
  {
    match BuildTapTree(env.sha256, tree)
    case None => None
    case Some(t) =>
      match TweakPublicKey(env, key, t.merkleRoot)
      case None => None
      case Some(commitment) =>
        match PayToTaproot(commitment, state)
        case None => None
        case Some(script) => Some(Output(script, commitment, t.merkleRoot, t.leaves))
  }

  /** `isPayToTaproot` on the script's bytes. */
  predicate IsPayToTaproot(buf: Buffer) {
    && |buf| >= 36 && buf[0] == OP_SCRIPTTYPE && buf[1] == OP_1 && buf[2] == 33
    && (|buf| == 36 || (|buf| == 69 && buf[36] == 32))
  }

  /** The bytes of an output with this commitment and state. */
  function OutputBytes(commitment: Buffer, state: Option<Buffer>): Buffer {
    [OP_SCRIPTTYPE, OP_1, 33] + commitment + if state.Some? then [32] + state.value else []
  }

  /** The recogniser accepts exactly the two documented layouts. */
  lemma IsPayToTaprootIff(buf: Buffer)
    ensures IsPayToTaproot(buf) <==>
      exists commitment: Buffer, state: Option<Buffer> ::
        |commitment| == 33 && (state.Some? ==> |state.value| == 32) && buf == OutputBytes(commitment, state)
  {
    if IsPayToTaproot(buf) {
      var commitment := buf[3..36];
      var state := if |buf| == 36 then None else Some(buf[37..69]);
      assert buf == OutputBytes(commitment, state);
    }
  }

  lemma PayToTaprootBytes(commitment: PublicKey, state: Option<Buffer>)
    requires commitment.point.Affine? && PayToTaproot(commitment, state).Some?
    ensures Encode(PayToTaproot(commitment, state).value) == Some(OutputBytes(ToDER(commitment), state))
    ensures IsPayToTaproot(OutputBytes(ToDER(commitment), state))
  {
    hide ToDER, Encode, EncodeChunk, ChunkFor, IsPayToTaproot, OutputBytes;
    var der := ToDER(commitment);
    OutputBytesRecognised(der, state);
    SmallItem(Op(OP_SCRIPTTYPE));
    SmallItem(Op(OP_1));
    SmallItem(Push(der));
    var a, b, d := ChunkFor(Op(OP_SCRIPTTYPE)), ChunkFor(Op(OP_1)), ChunkFor(Push(der));
    EncodeNil();
    if state.Some? {
      SmallItem(Push(state.value));
      var e := ChunkFor(Push(state.value));
      EncodeOne(e);
      EncodeThree(a, b, d, [e], [OP_SCRIPTTYPE], [OP_1], [33] + der, [32] + state.value);
    } else {
      EncodeThree(a, b, d, [], [OP_SCRIPTTYPE], [OP_1], [33] + der, []);
      assert [a, b, d] + [] == [a, b, d];
    }
    OutputBytesLayout(der, state);
  }

  lemma OutputBytesRecognised(commitment: Buffer, state: Option<Buffer>)
    requires |commitment| == 33 && (state.Some? ==> |state.value| == 32)
    ensures IsPayToTaproot(OutputBytes(commitment, state))
  {
  }

  lemma OutputBytesLayout(commitment: Buffer, state: Option<Buffer>)
    ensures OutputBytes(commitment, state) ==
      [OP_SCRIPTTYPE] + [OP_1] + ([33] + commitment) + (if state.Some? then [32] + state.value else [])
  {
  }

  lemma EncodeOne(c: Chunk)
    requires EncodeChunk(c).Some?
    ensures Encode([c]) == EncodeChunk(c)
  {
    EncodeCons(c, []);
    assert [c] + [] == [c] && EncodeChunk(c).value + [] == EncodeChunk(c).value;
  }

  lemma EncodeThree(a: Chunk, b: Chunk, d: Chunk, tail: seq<Chunk>, x: Buffer, y: Buffer, z: Buffer, t: Buffer)
    requires EncodeChunk(a) == Some(x) && EncodeChunk(b) == Some(y)
    requires EncodeChunk(d) == Some(z) && Encode(tail) == Some(t)
    ensures Encode([a, b, d] + tail) == Some(x + y + z + t)
  {
    hide Encode, EncodeChunk;
    EncodeCons(d, tail);
    EncodeCons(b, [d] + tail);
    EncodeCons(a, [b] + ([d] + tail));
    assert [a] + ([b] + ([d] + tail)) == [a, b, d] + tail;
    assert x + (y + (z + t)) == x + y + z + t;
  }

  /** The bytes of an opcode, or of data that needs no length field. */
  lemma SmallItem(item: Item)
    requires if item.Op? then 0 <= item.num < 256 else |item.data| < 76
    ensures EncodeChunk(ChunkFor(item)) == Some(if item.Op? then [item.num] else [|item.data|] + item.data)
  {
  }

  // ----- Control blocks -----

  /** `(leafVersion & 0xfe) | parity`. */
  function ControlByte(key: PublicKey, version: byte): byte {
    version - version % 2 + if key.compressed && Odd(key.point) then 1 else 0
  }

  function Concat(path: seq<Hash>): (b: Buffer)
    ensures |b| == 32 * |path|
    decreases |path|
  {
    if path == [] then [] else Concat(path[..|path| - 1]) + path[|path| - 1]
  }

  function ControlBlock(key: PublicKey, leaf: TapLeaf): (b: Buffer)
    requires key.point.Affine?
    ensures |b| == 33 + 32 * |leaf.merklePath|
  {
    [ControlByte(key, leaf.leafVersion)] + ToDER(key)[1..33] + Concat(leaf.merklePath)
  }

  lemma ParityByte(key: PublicKey)
    requires key.point.Affine?
    ensures ToDER(key)[0] == 3 <==> key.compressed && Odd(key.point)
  {
  }

  method CreateControlBlock(env: Env, key: PublicKey, leafIndex: int, tree: TapNode) returns (r: Option<Buffer>)
    requires key.point.Affine?
    ensures r.Some? <==> BuildTapTree(env.sha256, tree).Some?
                         && 0 <= leafIndex < |BuildTapTree(env.sha256, tree).value.leaves|
    ensures r.Some? ==> r.value == ControlBlock(key, BuildTapTree(env.sha256, tree).value.leaves[leafIndex])
  {
    hide BuildTapTree, ToDER;
    var built := BuildTapTree(env.sha256, tree);
    if built.None? || leafIndex < 0 || leafIndex >= |built.value.leaves| {
      return None;
    }
    var leaf := built.value.leaves[leafIndex];
    var pubKeyBytes := ToDER(key);
    ParityByte(key);
    var parity := if pubKeyBytes[0] == 3 then 1 else 0;
    var out: Buffer := [leaf.leafVersion - leaf.leafVersion % 2 + parity];
    out := out + pubKeyBytes[1..33];
    ghost var head := out;
    for i := 0 to |leaf.merklePath|
      invariant out == head + Concat(leaf.merklePath[..i])
    {
      assert leaf.merklePath[..i + 1][..i] == leaf.merklePath[..i];
      out := out + leaf.merklePath[i];
    }
    assert leaf.merklePath[..|leaf.merklePath|] == leaf.merklePath;
    r := Some(out);
  }

  /** The size test of the verifier. */
  predicate ControlSizeOk(cb: Buffer) {
    CONTROL_BASE_SIZE <= |cb| <= CONTROL_MAX_SIZE && (|cb| - CONTROL_BASE_SIZE) % CONTROL_NODE_SIZE == 0
  }

  /** Node i of the Merkle path inside a control block. */
  function NodeAt(cb: Buffer, i: nat): Hash
    requires 33 + 32 * i + 32 <= |cb|
  {
    cb[33 + 32 * i..33 + 32 * i + 32]
  }

  function PathOf(cb: Buffer): (path: seq<Hash>)
    requires |cb| >= 33
    ensures |path| == (|cb| - 33) / 32
    ensures forall i :: 0 <= i < |path| ==> path[i] == NodeAt(cb, i)
  {
    seq((|cb| - 33) / 32, i requires 0 <= i < (|cb| - 33) / 32 => NodeAt(cb, i))
  }

  lemma {:induction false} ConcatNode(path: seq<Hash>, i: nat)
    requires i < |path|
    ensures Concat(path)[32 * i..32 * i + 32] == path[i]
    decreases |path|
  {
    var front := path[..|path| - 1];
    if i < |path| - 1 {
      ConcatNode(front, i);
      assert Concat(path)[32 * i..32 * i + 32] == Concat(front)[32 * i..32 * i + 32];
    }
  }

  /** Re-parsing a control block gives back version bits, parity, x-coordinate and path. */
  lemma ControlBlockRoundTrip(key: PublicKey, leaf: TapLeaf)
    requires key.point.Affine?
    ensures var cb := ControlBlock(key, leaf);
      && cb[0] == ControlByte(key, leaf.leafVersion)
      && cb[1..33] == ToDER(key)[1..33]
      && PathOf(cb) == leaf.merklePath
  {
    hide ToDER, Concat;
    var cb, path := ControlBlock(key, leaf), leaf.merklePath;
    assert cb[33..] == Concat(path);
    forall i | 0 <= i < |path| ensures NodeAt(cb, i) == path[i] {
      ConcatNode(path, i);
      assert cb[33 + 32 * i..33 + 32 * i + 32] == cb[33..][32 * i..32 * i + 32];
    }
    assert PathOf(cb) == path;
  }

  // ----- Verification -----

  /** `verifyTaprootScriptPath`; every exception inside it counts as false. */
  predicate ScriptPathValid(env: Env, internalX: Buffer, script: seq<Chunk>, commitment: Buffer,
                            version: byte, path: seq<Hash>, parity: int)
    requires |internalX| == 32 && |commitment| == 33
  {
    match (Encode(script), FromDER(env.curve, [if parity == 0 then 2 else 3] + internalX),
           FromDER(env.curve, commitment))
    case (Some(bytes), Some(key), Some(actual)) =>
      |bytes| <= 0x1F_FFFF_FFFF_FFFF &&
      (match TweakPublicKey(env, key, Fold(env.sha256, LeafHash(env.sha256, bytes, version), path))
       case None => false
       case Some(expected) => ToDER(expected) == ToDER(actual))
    case _ => false
  }

  method VerifyTaprootScriptPath(env: Env, internalX: Buffer, script: seq<Chunk>, commitment: Buffer,
                                 version: byte, path: seq<Hash>, parity: int) returns (ok: bool)
    requires |internalX| == 32 && |commitment| == 33
    ensures ok == ScriptPathValid(env, internalX, script, commitment, version, path, parity)
  {
    var fullPubkey := [if parity == 0 then 2 else 3] + internalX;
    var bytes := Encode(script);
    if bytes.None? || |bytes.value| > 0x1F_FFFF_FFFF_FFFF {
      return false;
    }
    var leafHash := LeafHash(env.sha256, bytes.value, version);
    ghost var start := leafHash;
    for i := 0 to |path|
      invariant leafHash == Fold(env.sha256, start, path[..i])
    {
      FoldSnoc(env.sha256, start, path[..i], path[i]);
      assert path[..i + 1] == path[..i] + [path[i]];
      BranchCommutes(env.sha256, leafHash, path[i]);
      if Less(leafHash, path[i]) {
        leafHash := BranchHash(env.sha256, leafHash, path[i]);
      } else {
        leafHash := BranchHash(env.sha256, path[i], leafHash);
      }
    }
    assert path[..|path|] == path;
    var internalKey := FromDER(env.curve, fullPubkey);
    var actual := FromDER(env.curve, commitment);
    if internalKey.None? || actual.None? {
      return false;
    }
    var expected := TweakPublicKey(env, internalKey.value, leafHash);
    if expected.None? {
      return false;
    }
    return ToDER(expected.value) == ToDER(actual.value);
  }

  datatype SpendError =
    | TaprootPhaseout
    | MalformedScript
    | InvalidStackOperation
    | AnnexNotSupported
    | WrongControlSize
    | LeafVersionNotSupported
    | ControlBlockVerificationFailed

  datatype SpendResult =
    | Throws
    | Failed(error: SpendError)
    | KeyPath(stack: seq<Buffer>)
    | ScriptPath(scriptToExecute: seq<Chunk>, stack: seq<Buffer>)

  /** `verifyTaprootSpend`; `phaseout` is the flag that disables Taproot. */
  function VerifySpend(env: Env, scriptPubkey: seq<Chunk>, stack: seq<Buffer>, phaseout: bool): SpendResult {
    if phaseout then Failed(TaprootPhaseout) else
    match Encode(scriptPubkey)
    case None => Throws
    case Some(buf) =>
      if !IsPayToTaproot(buf) then Failed(MalformedScript)
      else if stack == [] then Failed(InvalidStackOperation)
      else
        var cb := stack[|stack| - 1];
        if |stack| >= 2 && cb != [] && cb[0] == ANNEX_TAG then Failed(AnnexNotSupported)
        else if |stack| == 1 then KeyPath(stack)
        else
          match Parse(stack[|stack| - 2])
          case None => Throws
          case Some(script) =>
            if !ControlSizeOk(cb) then Failed(WrongControlSize)
            else if cb[0] - cb[0] % 2 != LEAF_TAPSCRIPT then Failed(LeafVersionNotSupported)
            else if !ScriptPathValid(env, cb[1..33], script, buf[3..36], LEAF_TAPSCRIPT, PathOf(cb), cb[0] % 2) then
              Failed(ControlBlockVerificationFailed)
            else
              var rest := stack[..|stack| - 2];
              ScriptPath(script, if |buf| == 69 then rest + [buf[37..69]] else rest)
  }

  method VerifyTaprootSpend(env: Env, scriptPubkey: seq<Chunk>, stack: seq<Buffer>, phaseout: bool)
    returns (r: SpendResult)
    ensures r == VerifySpend(env, scriptPubkey, stack, phaseout)
  {
    if phaseout {
      return Failed(TaprootPhaseout);
    }
    var encoded := Encode(scriptPubkey);
    if encoded.None? {
      return Throws;
    }
    var scriptBuf := encoded.value;
    if !IsPayToTaproot(scriptBuf) {
      return Failed(MalformedScript);
    }
    var vchPubkey := scriptBuf[3..36];
    if |stack| == 0 {
      return Failed(InvalidStackOperation);
    }
    if |stack| >= 2 && |stack[|stack| - 1]| > 0 && stack[|stack| - 1][0] == ANNEX_TAG {
      return Failed(AnnexNotSupported);
    }
    if |stack| == 1 {
      return KeyPath(stack);
    }
    var controlBlock := stack[|stack| - 1];
    var execScript := Parse(stack[|stack| - 2]);
    if execScript.None? {
      return Throws;
    }
    var newStack := stack[..|stack| - 2];
    if !ControlSizeOk(controlBlock) {
      return Failed(WrongControlSize);
    }
    var leafVersion := controlBlock[0] - controlBlock[0] % 2;
    if leafVersion != LEAF_TAPSCRIPT {
      return Failed(LeafVersionNotSupported);
    }
    var merklePath: seq<Hash> := [];
    var i := CONTROL_BASE_SIZE;
    while i < |controlBlock|
      invariant i == 33 + 32 * |merklePath| <= |controlBlock|
      invariant merklePath == PathOf(controlBlock)[..|merklePath|]
    {
      merklePath := merklePath + [NodeAt(controlBlock, |merklePath|)];
      i := i + CONTROL_NODE_SIZE;
    }
    assert merklePath == PathOf(controlBlock);
    var isValid := VerifyTaprootScriptPath(env, controlBlock[1..33], execScript.value, vchPubkey,
                                           leafVersion, merklePath, controlBlock[0] % 2);
    if !isValid {
      return Failed(ControlBlockVerificationFailed);
    }
    if |scriptBuf| == 69 {
      newStack := newStack + [scriptBuf[37..69]];
    }
    return ScriptPath(execScript.value, newStack);
  }

  // ----- Completeness -----

  /** The tweak scalar of a key and a root. */
  function TweakScalar(env: Env, key: PublicKey, root: Hash): nat
    requires key.point.Affine?
  {
    FromBE(env.sha256(TweakInput(env, key, root)))
  }

  /** A control block that names this internal key. */
  predicate NamesKey(cb: Buffer, key: PublicKey)
    requires key.point.Affine?
  {
    |cb| >= 33 && cb[0] % 2 == (if Odd(key.point) then 1 else 0) && cb[1..33] == BE(key.point.x, 32)
  }

  lemma NamedKeyIsRead(c: Curve, cb: Buffer, key: PublicKey)
    requires Lawful(c) && ValidKey(c, key) && key.compressed && NamesKey(cb, key)
    ensures FromDER(c, [if cb[0] % 2 == 0 then 2 else 3] + cb[1..33]) == Some(key)
  {
    DERRoundTrip(c, key);
  }

  /** The internal key a control block names: its prefix bit and x-coordinate, lifted. */
  function NamedKey(c: Curve, cb: Buffer): Option<PublicKey>
    requires |cb| >= 33
  {
    FromDER(c, [if cb[0] % 2 == 0 then 2 else 3] + cb[1..33])
  }

  lemma NamedKeyIsValid(c: Curve, cb: Buffer)
    requires Lawful(c) && |cb| >= 33 && NamedKey(c, cb).Some?
    ensures ValidKey(c, NamedKey(c, cb).value) && NamedKey(c, cb).value.compressed
  {
    hide BE, FromBE;
    assert LiftLaw(c, cb[0] % 2 != 0, FromBE(([if cb[0] % 2 == 0 then 2 else 3] + cb[1..33])[1..]));
  }

  /** Whatever key the control block names, the script-path check on a built output succeeds exactly
      when that key, tweaked with the folded root, is the output's own tweaked key. */
  lemma NamedPathValidIff(env: Env, key: PublicKey, tree: TapNode, state: Option<Buffer>,
                          cb: Buffer, bytes: NodeBuffer, path: seq<Hash>)
    requires Lawful(env.curve) && ValidKey(env.curve, key) && key.compressed
    requires ScriptPathOutput(env, key, tree, state).Some?
    requires |cb| >= 33 && Parse(bytes).Some?
    ensures var out := ScriptPathOutput(env, key, tree, state).value;
      var root := Fold(env.sha256, LeafHash(env.sha256, bytes, LEAF_TAPSCRIPT), path);
      && |ToDER(out.commitment)| == 33
      && (ScriptPathValid(env, cb[1..33], Parse(bytes).value, ToDER(out.commitment),
                          LEAF_TAPSCRIPT, path, cb[0] % 2) <==>
          NamedKey(env.curve, cb).Some? &&
          SameTweakedKey(env, NamedKey(env.curve, cb).value, root, key, out.merkleRoot))
  {
    hide Fold, LeafHash, TweakInput, Lawful, Parse, Encode, ToDER, FromDER, BuildTapTree, PayToTaproot, AddScalar;
    var c := env.curve;
    var out := ScriptPathOutput(env, key, tree, state).value;
    var root := Fold(env.sha256, LeafHash(env.sha256, bytes, LEAF_TAPSCRIPT), path);
    var u := TweakScalar(env, key, out.merkleRoot);
    ParseThenEncode(bytes);
    AddScalarValid(c, key, u);
    DERRoundTrip(c, out.commitment);
    assert AddScalar(c, key, u) == Some(out.commitment);
    if NamedKey(c, cb).Some? {
      var named := NamedKey(c, cb).value;
      NamedKeyIsValid(c, cb);
      var t := TweakScalar(env, named, root);
      if AddScalar(c, named, t).Some? {
        AddScalarValid(c, named, t);
        DERInjective(c, AddScalar(c, named, t).value, out.commitment);
      }
    }
  }

  /** Two keys, each tweaked with its own root, give the same key. */
  predicate SameTweakedKey(env: Env, a: PublicKey, aRoot: Hash, b: PublicKey, bRoot: Hash)
    requires a.point.Affine? && b.point.Affine?
  {
    AddScalar(env.curve, a, TweakScalar(env, a, aRoot)) == AddScalar(env.curve, b, TweakScalar(env, b, bRoot))
  }

  /** For an output built from this key and tree, the script-path check succeeds exactly when the
      folded root has the same tweak scalar modulo n as the tree's root. */
  lemma ScriptPathValidIff(env: Env, key: PublicKey, tree: TapNode, state: Option<Buffer>,
                           cb: Buffer, bytes: NodeBuffer, path: seq<Hash>)
    requires Lawful(env.curve) && ValidKey(env.curve, key) && key.compressed && NamesKey(cb, key)
    requires ScriptPathOutput(env, key, tree, state).Some?
    requires Parse(bytes).Some?
    ensures var out := ScriptPathOutput(env, key, tree, state).value;
      var root := Fold(env.sha256, LeafHash(env.sha256, bytes, LEAF_TAPSCRIPT), path);
      && |ToDER(out.commitment)| == 33
      && (ScriptPathValid(env, cb[1..33], Parse(bytes).value, ToDER(out.commitment),
                          LEAF_TAPSCRIPT, path, cb[0] % 2) <==>
          Cong(TweakScalar(env, key, root), TweakScalar(env, key, out.merkleRoot), env.curve.n))
  {
    hide Fold, LeafHash, TweakInput, Lawful, Parse, Encode, ToDER, FromDER, BuildTapTree, PayToTaproot, AddScalar,
      Cong, ScriptPathValid;
    var out := ScriptPathOutput(env, key, tree, state).value;
    var root := Fold(env.sha256, LeafHash(env.sha256, bytes, LEAF_TAPSCRIPT), path);
    NamedKeyIsRead(env.curve, cb, key);
    NamedPathValidIff(env, key, tree, state, cb, bytes, path);
    AddScalarInjective(env.curve, key, TweakScalar(env, key, root), TweakScalar(env, key, out.merkleRoot));
  }

  /** What spending leaf `index` of a built output gives, for any tree, state and arguments. Leaves
      of version 0xc0 at depth at most 128 succeed, run that leaf's script, and leave the arguments
      followed by the state. */
  lemma SpendCompleteness(env: Env, key: PublicKey, tree: TapNode, state: Option<Buffer>,
                          args: seq<Buffer>, index: nat)
    requires Lawful(env.curve) && ValidKey(env.curve, key) && key.compressed
    requires ScriptPathOutput(env, key, tree, state).Some?
    requires index < |ScriptPathOutput(env, key, tree, state).value.leaves|
    ensures var out := ScriptPathOutput(env, key, tree, state).value;
      var leaf := out.leaves[index];
      Encode(leaf.script).Some? &&
      var stack := args + [Encode(leaf.script).value, ControlBlock(key, leaf)];
      VerifySpend(env, out.script, stack, false) ==
        if ControlByte(key, leaf.leafVersion) == ANNEX_TAG then Failed(AnnexNotSupported)
        else if |leaf.merklePath| > CONTROL_MAX_NODE_COUNT then Failed(WrongControlSize)
        else if leaf.leafVersion - leaf.leafVersion % 2 != LEAF_TAPSCRIPT then Failed(LeafVersionNotSupported)
        else if leaf.leafVersion == LEAF_TAPSCRIPT || OddVersionTweaksAlike(env, key, leaf, out.merkleRoot) then
          ScriptPath(leaf.script, if state.Some? then args + [state.value] else args)
        else Failed(ControlBlockVerificationFailed)
  {
    hide Fold, LeafHash, TweakInput, Lawful, Parse, Encode, ToDER, FromDER, BuildTapTree, AddScalar,
      ScriptPathValid, ControlBlock, ControlByte, PathOf;
    var out := ScriptPathOutput(env, key, tree, state).value;
    var leaf := out.leaves[index];
    LeavesFoldToRoot(env.sha256, tree, index);
    var bytes: NodeBuffer := Encode(leaf.script).value;
    var cb := ControlBlock(key, leaf);
    var stack := args + [bytes, cb];
    ControlBlockRoundTrip(key, leaf);
    ControlBlockNamesKey(key, leaf);
    PayToTaprootBytes(out.commitment, state);
    OutputParts(ToDER(out.commitment), state);
    ScriptPathValidIff(env, key, tree, state, cb, bytes, leaf.merklePath);
    StackParts(args, bytes, cb);
    VersionBits(key, leaf.leafVersion);
    assert ControlSizeOk(cb) <==> |leaf.merklePath| <= CONTROL_MAX_NODE_COUNT;
  }

  /** An odd version is hashed with its low bit when building and without it when verifying; the
      spend then succeeds only if the two roots tweak the key alike. */
  ghost predicate OddVersionTweaksAlike(env: Env, key: PublicKey, leaf: TapLeaf, merkleRoot: Hash)
    requires key.point.Affine? && env.curve.n > 0
  {
    match Encode(leaf.script)
    case None => false
    case Some(bytes) =>
      |bytes| <= 0x1F_FFFF_FFFF_FFFF &&
      Cong(TweakScalar(env, key, Fold(env.sha256, LeafHash(env.sha256, bytes, LEAF_TAPSCRIPT), leaf.merklePath)),
           TweakScalar(env, key, merkleRoot), env.curve.n)
  }

  lemma ControlBlockNamesKey(key: PublicKey, leaf: TapLeaf)
    requires key.point.Affine? && key.compressed
    ensures NamesKey(ControlBlock(key, leaf), key)
  {
    hide BE;
    ControlBlockRoundTrip(key, leaf);
    assert ToDER(key)[1..33] == BE(key.point.x, 32);
  }

  lemma VersionBits(key: PublicKey, version: byte)
    ensures var b := ControlByte(key, version); b - b % 2 == version - version % 2
  {
  }

  lemma OutputParts(commitment: Buffer, state: Option<Buffer>)
    requires |commitment| == 33 && (state.Some? ==> |state.value| == 32)
    ensures var buf := OutputBytes(commitment, state);
      && |buf| == (if state.Some? then 69 else 36) && buf[3..36] == commitment
      && (state.Some? ==> buf[37..69] == state.value)
  {
  }

  lemma StackParts(args: seq<Buffer>, script: Buffer, cb: Buffer)
    ensures var stack := args + [script, cb];
      |stack| >= 2 && stack[|stack| - 1] == cb && stack[|stack| - 2] == script && stack[..|stack| - 2] == args
  {
  }

  // ----- Soundness -----

  /** Two different hash inputs, of this key with two different roots, whose values agree modulo the
      group order. */
  ghost predicate TweakClash(env: Env, key: PublicKey, a: Hash, b: Hash)
    requires key.point.Affine? && env.curve.n > 0
  {
    a != b && exists x, y :: TwoTweaks(env, x, key, a, y, key, b)
                             && Cong(FromBE(env.sha256(x)), FromBE(env.sha256(y)), env.curve.n)
  }

  /** x and y are different, and are what the tweaks of these keys with these roots hash. */
  predicate TwoTweaks(env: Env, x: Buffer, a: PublicKey, aRoot: Hash, y: Buffer, b: PublicKey, bRoot: Hash)
    requires a.point.Affine? && b.point.Affine?
  {
    x != y && IsTweakInput(env, x, a, aRoot) && IsTweakInput(env, y, b, bRoot)
  }

  /** Two keys whose sums with the hashes of two different inputs, one of each key and its root, are
      one point: a + H(x)G == b + H(y)G. */
  ghost predicate KeysMeet(env: Env, a: PublicKey, aRoot: Hash, b: PublicKey, bRoot: Hash)
    requires a.point.Affine? && b.point.Affine?
  {
    exists x, y :: TwoTweaks(env, x, a, aRoot, y, b, bRoot) && SumsMeet(env, x, a.point, y, b.point)
  }

  predicate SumsMeet(env: Env, x: Buffer, a: Point, y: Buffer, b: Point) {
    var c := env.curve;
    var sum := (c.add)(a, Mul(c, FromBE(env.sha256(x)), c.g));
    sum != Infinity && sum == (c.add)(b, Mul(c, FromBE(env.sha256(y)), c.g))
  }

  lemma OtherKeysMeet(env: Env, a: PublicKey, aRoot: Hash, b: PublicKey, bRoot: Hash)
    requires Lawful(env.curve) && ValidKey(env.curve, a) && ValidKey(env.curve, b) && a.compressed && b.compressed
    requires a != b && SameTweakedKey(env, a, aRoot, b, bRoot)
    requires AddScalar(env.curve, b, TweakScalar(env, b, bRoot)).Some?
    ensures KeysMeet(env, a, aRoot, b, bRoot)
  {
    hide Lawful, TweakInput, IsTweakInput, Mul;
    var x, y := TweakInput(env, a, aRoot), TweakInput(env, b, bRoot);
    TweakInputIff(env, a, aRoot, x);
    TweakInputIff(env, b, bRoot, y);
    TweakInputBinds(env, a, aRoot, b, bRoot);
    assert TwoTweaks(env, x, a, aRoot, y, b, bRoot) && SumsMeet(env, x, a.point, y, b.point);
  }

  /** A spend by script path reveals a leaf recorded in the tree with version 0xc0 and the recorded
      path, unless hash inputs computed on the way collide. */
  ghost predicate RevealsLeaf(env: Env, key: PublicKey, tree: TapNode, merkleRoot: Hash, bytes: NodeBuffer,
                              path: seq<Hash>)
    requires key.point.Affine? && env.curve.n > 0
  {
    || Recorded(env.sha256, tree, bytes, LEAF_TAPSCRIPT, path)
    || Clash(env.sha256, TreeInputs(env.sha256, tree), FoldInputs(env.sha256, bytes, LEAF_TAPSCRIPT, path))
    || TweakClash(env, key, Fold(env.sha256, LeafHash(env.sha256, bytes, LEAF_TAPSCRIPT), path), merkleRoot)
  }

  /** Whatever stack spends a built output by script path runs exactly the script on it and keeps
      exactly the remaining arguments and the state. Its control block names some key. If that is
      the internal key, the stack reveals a recorded leaf, or a collision. If it is another key, the
      tweaks of the two keys hash two different inputs, each of which determines its whole key and its
      root, and the two sums of a key and G times its hash are one point. */
  lemma SpendSoundness(env: Env, key: PublicKey, tree: TapNode, state: Option<Buffer>, stack: seq<Buffer>)
    requires Lawful(env.curve) && ValidKey(env.curve, key) && key.compressed
    requires ScriptPathOutput(env, key, tree, state).Some?
    requires VerifySpend(env, ScriptPathOutput(env, key, tree, state).value.script, stack, false).ScriptPath?
    ensures |stack| >= 2 && |stack[|stack| - 1]| >= 33 && |stack[|stack| - 2]| <= 0x1F_FFFF_FFFF_FFFF
    ensures NamedKey(env.curve, stack[|stack| - 1]).Some? && Parse(stack[|stack| - 2]).Some?
    ensures var out := ScriptPathOutput(env, key, tree, state).value;
      var bytes: NodeBuffer := stack[|stack| - 2];
      var rest := stack[..|stack| - 2];
      VerifySpend(env, out.script, stack, false) ==
        ScriptPath(Parse(bytes).value, if state.Some? then rest + [state.value] else rest)
    ensures var out := ScriptPathOutput(env, key, tree, state).value;
      var bytes: NodeBuffer := stack[|stack| - 2];
      var path := PathOf(stack[|stack| - 1]);
      var named := NamedKey(env.curve, stack[|stack| - 1]).value;
      if named == key then RevealsLeaf(env, key, tree, out.merkleRoot, bytes, path)
      else KeysMeet(env, named, Fold(env.sha256, LeafHash(env.sha256, bytes, LEAF_TAPSCRIPT), path),
                    key, out.merkleRoot)
  {
    hide Fold, LeafHash, TweakInput, Lawful, Parse, Encode, ToDER, FromDER, BuildTapTree, AddScalar, Cong,
      ScriptPathValid, PathOf,
      TreeInputs, FoldInputs, Clash, Recorded, NamedKey, SameTweakedKey, KeysMeet, RevealsLeaf;
    var out := ScriptPathOutput(env, key, tree, state).value;
    var cb := stack[|stack| - 1];
    PayToTaprootBytes(out.commitment, state);
    OutputParts(ToDER(out.commitment), state);
    PassedIsSmall(env, cb[1..33], stack[|stack| - 2], ToDER(out.commitment), PathOf(cb), cb[0] % 2);
    var bytes: NodeBuffer := stack[|stack| - 2];
    NamedPathValidIff(env, key, tree, state, cb, bytes, PathOf(cb));
    if NamedKey(env.curve, cb).value == key {
      NamedKeyReveals(env, key, tree, state, bytes, PathOf(cb));
    } else {
      NamedKeyIsValid(env.curve, cb);
      OtherKeysMeet(env, NamedKey(env.curve, cb).value,
                    Fold(env.sha256, LeafHash(env.sha256, bytes, LEAF_TAPSCRIPT), PathOf(cb)), key, out.merkleRoot);
    }
  }

  lemma PassedIsSmall(env: Env, internalX: Buffer, bytes: Buffer, commitment: Buffer, path: seq<Hash>, parity: int)
    requires |internalX| == 32 && |commitment| == 33 && Parse(bytes).Some?
    requires ScriptPathValid(env, internalX, Parse(bytes).value, commitment, LEAF_TAPSCRIPT, path, parity)
    ensures |bytes| <= 0x1F_FFFF_FFFF_FFFF
  {
    hide Parse, Encode, FromDER, ToDER, Fold, LeafHash;
    ParseThenEncode(bytes);
  }

  /** Under the internal key, equal tweaked keys come from a recorded leaf or a collision. */
  lemma NamedKeyReveals(env: Env, key: PublicKey, tree: TapNode, state: Option<Buffer>, bytes: NodeBuffer,
                        path: seq<Hash>)
    requires Lawful(env.curve) && ValidKey(env.curve, key) && key.compressed
    requires ScriptPathOutput(env, key, tree, state).Some?
    requires SameTweakedKey(env, key, Fold(env.sha256, LeafHash(env.sha256, bytes, LEAF_TAPSCRIPT), path),
                            key, ScriptPathOutput(env, key, tree, state).value.merkleRoot)
    ensures RevealsLeaf(env, key, tree, ScriptPathOutput(env, key, tree, state).value.merkleRoot, bytes, path)
  {
    hide Fold, LeafHash, TweakInput, Lawful, ToDER, BuildTapTree, AddScalar, Cong, TreeInputs, FoldInputs, Clash,
      Recorded, IsTweakInput;
    var out := ScriptPathOutput(env, key, tree, state).value;
    var root := Fold(env.sha256, LeafHash(env.sha256, bytes, LEAF_TAPSCRIPT), path);
    AddScalarInjective(env.curve, key, TweakScalar(env, key, root), TweakScalar(env, key, out.merkleRoot));
    if root == out.merkleRoot {
      RootBindsLeaf(env.sha256, tree, bytes, LEAF_TAPSCRIPT, path);
    } else {
      var x, y := TweakInput(env, key, root), TweakInput(env, key, out.merkleRoot);
      TweakInputIff(env, key, root, x);
      TweakInputIff(env, key, out.merkleRoot, y);
      TweakInputBinds(env, key, root, key, out.merkleRoot);
      assert TwoTweaks(env, x, key, root, y, key, out.merkleRoot);
    }
  }

  // ----- Private keys -----

  /** The point of `tweakPrivateKey` is that of `tweakPublicKey` of the public key, and both throw or
      neither does. The new private key is always compressed, so the two public keys are equal
      exactly when the given key was compressed (or both throw). */
  lemma TweaksAgree(env: Env, d: nat, compressed: bool, root: Hash)
    requires Lawful(env.curve) && 0 < d < env.curve.n
    ensures Mul(env.curve, d, env.curve.g).Affine?
    ensures var key := PublicKey(Mul(env.curve, d, env.curve.g), compressed);
      var public, private := TweakPublicKey(env, key, root), TweakPrivateKey(env, d, compressed, root);
      && (public.None? <==> private.None?)
      && (private.Some? ==>
            var fromPrivate := PublicKey(Mul(env.curve, private.value, env.curve.g), true);
            && public.value == fromPrivate.(compressed := compressed)
            && (public.value == fromPrivate <==> compressed))
  {
    hide TweakInput, Lawful;
    var c := env.curve;
    BasePoint(c);
    MulZeroIff(c, d, c.g);
    ModUnique(d, 0, d, c.n);
    var key := PublicKey(Mul(c, d, c.g), compressed);
    TweakCommutes(c, d, FromBE(env.sha256(TweakInput(env, key, root))));
  }
}
