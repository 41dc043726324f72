/** Which Taproot outputs can be built and which stacks spend them, in literal bytes and sizes
    (lib/bitcore/taproot.ts). */
module TaprootRules {
  import opened Buffers
  import opened EllipticCurve
  import opened PublicKeys
  import opened ScriptCodec
  import opened Taproot
  import opened TaprootHashes
  import opened TaprootSpend

  /** 0x62 0x51 0x21, the key in 33 bytes, and for a state 0x20 and its 32 bytes. */
  predicate IsOutput(c: Curve, buf: Buffer, commitment: PublicKey, state: Option<Buffer>) {
    && |buf| == (if state.Some? then 69 else 36) && buf[..3] == [0x62, 0x51, 0x21]
    && FromDER(c, buf[3..36]) == Some(commitment)
    && (state.Some? ==> buf[36] == 0x20 && buf[37..] == state.value)
  }

  lemma OutputBytesMean(c: Curve, commitment: PublicKey, state: Option<Buffer>)
    requires Lawful(c) && ValidKey(c, commitment) && commitment.compressed && (state.Some? ==> |state.value| == 32)
    ensures IsOutput(c, OutputBytes(ToDER(commitment), state), commitment, state)
  {
    hide Lawful, ToDER, FromDER;
    DERRoundTrip(c, commitment);
    DERFields(c, commitment);
    var buf := OutputBytes(ToDER(commitment), state);
    assert buf[..3] == [0x62, 0x51, 0x21] && buf[3..36] == ToDER(commitment);
    assert state.Some? ==> buf[37..] == state.value;
  }

  /** `buildScriptPathTaproot` succeeds exactly when the tree can be built, the key is compressed, the
      state has 32 bytes and the tweaked key is not infinity; its script then is the key plus G times
      the hash of the key and the root, in the documented bytes. */
  lemma OutputIff(env: Env, key: PublicKey, tree: TapNode, state: Option<Buffer>) returns (x: Buffer, sum: Point)
    requires Lawful(env.curve) && ValidKey(env.curve, key)
    ensures var built := BuildTapTree(env.sha256, tree);
      var out := ScriptPathOutput(env, key, tree, state);
      && (built.Some? ==> IsTweakInput(env, x, key, built.value.merkleRoot))
      && sum == (env.curve.add)(key.point, Mul(env.curve, FromBE(env.sha256(x)), env.curve.g))
      && (out.Some? <==> built.Some? && key.compressed && (state.Some? ==> |state.value| == 32) && sum != Infinity)
      && (out.Some? ==>
            && out.value.commitment == PublicKey(sum, true)
            && out.value.merkleRoot == built.value.merkleRoot && out.value.leaves == built.value.leaves
            && Encode(out.value.script).Some?
            && IsOutput(env.curve, Encode(out.value.script).value, out.value.commitment, state))
  {
    hide Lawful, IsTweakInput, BuildTapTree, TweakPublicKey, Mul, ToDER, FromDER, Encode, IsOutput, OutputBytes;
    var built := BuildTapTree(env.sha256, tree);
    var root := if built.Some? then built.value.merkleRoot else seq(32, _ => 0);
    x := TweakMeans(env, key, root);
    sum := (env.curve.add)(key.point, Mul(env.curve, FromBE(env.sha256(x)), env.curve.g));
    var out := ScriptPathOutput(env, key, tree, state);
    if out.Some? {
      TweakIsValid(env, key, root);
      PayToTaprootBytes(out.value.commitment, state);
      OutputBytesMean(env.curve, out.value.commitment, state);
    }
  }

  lemma TweakIsValid(env: Env, key: PublicKey, root: Hash)
    requires Lawful(env.curve) && ValidKey(env.curve, key) && TweakPublicKey(env, key, root).Some?
    ensures ValidKey(env.curve, TweakPublicKey(env, key, root).value)
    ensures TweakPublicKey(env, key, root).value.compressed == key.compressed
  {
    hide Lawful, TweakInput;
    AddScalarValid(env.curve, key, FromBE(env.sha256(TweakInput(env, key, root))));
  }

  /** A control block is the leaf version with the parity of y in its lowest bit, x, and the path from the
      bottom up, 32 bytes a node. */
  lemma ControlFields(c: Curve, key: PublicKey, leaf: TapLeaf)
    requires Lawful(c) && ValidKey(c, key) && key.compressed
    ensures var cb, n := ControlBlock(key, leaf), |leaf.merklePath|;
      && |cb| == 33 + 32 * n && cb[0] == 2 * (leaf.leafVersion / 2) + key.point.y % 2
      && FromBE(cb[1..33]) == key.point.x
      && forall i :: 0 <= i < n ==> cb[33 + 32 * i..33 + 32 * i + 32] == leaf.merklePath[i]
  {
    hide Lawful, ToDER, FromBE, ControlBlock;
    ControlSize(key, leaf);
    ControlBlockRoundTrip(key, leaf);
    DERFields(c, key);
    var cb := ControlBlock(key, leaf);
    forall i | 0 <= i < |leaf.merklePath|
      ensures cb[33 + 32 * i..33 + 32 * i + 32] == leaf.merklePath[i]
    {
      assert PathOf(cb)[i] == NodeAt(cb, i);
    }
  }

  lemma ControlSize(key: PublicKey, leaf: TapLeaf)
    requires key.point.Affine?
    ensures |ControlBlock(key, leaf)| == 33 + 32 * |leaf.merklePath|
  {
    hide ToDER;
  }

  /** A control block has 33 bytes and 32 for each of at most 128 nodes. */
  lemma ControlSizeIff(cb: Buffer)
    ensures ControlSizeOk(cb) <==> exists m: nat :: m <= 128 && |cb| == 33 + 32 * m
  {
    if ControlSizeOk(cb) {
      assert |cb| == 33 + 32 * ((|cb| - 33) / 32);
    }
  }

  /** The verdicts that need no hash: the disabled protocol, scripts and stacks without the form, a
      one-element stack, an annex, an odd-sized control block and an unknown leaf version. */
  lemma VerdictIff(env: Env, script: seq<Chunk>, stack: seq<Buffer>, phaseout: bool)
    ensures var r, n := VerifySpend(env, script, stack, phaseout), |stack|;
      var open := !phaseout && Encode(script).Some? && IsPayToTaproot(Encode(script).value);
      var annex := n >= 2 && stack[n - 1] != [] && stack[n - 1][0] == 0x50;
      var executes := open && n >= 2 && !annex && Parse(stack[n - 2]).Some?;
      && (r == Failed(TaprootPhaseout) <==> phaseout)
      && (r == Throws <==>
          !phaseout && (Encode(script).None? || (open && n >= 2 && !annex && Parse(stack[n - 2]).None?)))
      && (r == Failed(MalformedScript) <==> !phaseout && Encode(script).Some? && !open)
      && (r == Failed(InvalidStackOperation) <==> open && n == 0)
      && (r == Failed(AnnexNotSupported) <==> open && annex)
      && (r.KeyPath? <==> open && n == 1)
      && (r.KeyPath? ==> r.stack == stack)
      && (r == Failed(WrongControlSize) <==> executes && !ControlSizeOk(stack[n - 1]))
      && (r == Failed(LeafVersionNotSupported) <==>
          executes && ControlSizeOk(stack[n - 1]) && stack[n - 1][0] != 0xc0 && stack[n - 1][0] != 0xc1)
  {
    hide Encode, Parse, IsPayToTaproot, ScriptPathValid, PathOf;
  }

  /** The internal key a control block names: the parity of its first byte, x from the next 32. */
  predicate Names(c: Curve, cb: Buffer, named: PublicKey)
    requires |cb| >= 33 && c.p > 0
  {
    && named.point.Affine? && named.compressed
    && named.point.x == FromBE(cb[1..33]) % c.p && named.point.y % 2 == cb[0] % 2
  }

  /** A stack spends a built output by script path exactly when its last element has the size of a
      control block and version 0xc0 and names a key, the element below is a script, and that key
      tweaked with the root folded from the script's leaf along the block's path is the output's. */
  lemma SpendIff(env: Env, key: PublicKey, tree: TapNode, state: Option<Buffer>, stack: seq<Buffer>)
    requires Lawful(env.curve) && ValidKey(env.curve, key) && key.compressed
    requires ScriptPathOutput(env, key, tree, state).Some?
    requires |stack| >= 2 && |stack[|stack| - 2]| <= 0x1F_FFFF_FFFF_FFFF
    ensures env.curve.p > 0
    ensures var out := ScriptPathOutput(env, key, tree, state).value;
      VerifySpend(env, out.script, stack, false).ScriptPath? <==>
        SpendsBy(env, stack[|stack| - 2], stack[|stack| - 1], out)
  {
    hide Fold, LeafHash, Parse, Encode, ToDER, BuildTapTree, ScriptPathValid, PathOf, TweaksToOutput, Lawful,
      TweakPublicKey, IsPayToTaproot, OutputBytes, VerifySpend;
    var out := ScriptPathOutput(env, key, tree, state).value;
    var bytes: NodeBuffer, cb := stack[|stack| - 2], stack[|stack| - 1];
    PositiveModulus(env.curve);
    TweakIsValid(env, key, out.merkleRoot);
    DERFields(env.curve, out.commitment);
    PayToTaprootBytes(out.commitment, state);
    OutputParts(ToDER(out.commitment), state);
    ExecutesIff(env, out.script, OutputBytes(ToDER(out.commitment), state), stack);
    if ControlSizeOk(cb) && Parse(bytes).Some? {
      PathTest(env, cb, bytes, out);
    }
  }

  lemma ExecutesIff(env: Env, script: seq<Chunk>, buf: Buffer, stack: seq<Buffer>)
    requires Encode(script) == Some(buf) && |buf| >= 36 && IsPayToTaproot(buf) && |stack| >= 2
    ensures var cb := stack[|stack| - 1];
      VerifySpend(env, script, stack, false).ScriptPath? <==>
        Parse(stack[|stack| - 2]).Some? && ControlSizeOk(cb) && (cb[0] == 0xc0 || cb[0] == 0xc1)
        && ScriptPathValid(env, cb[1..33], Parse(stack[|stack| - 2]).value, buf[3..36], 0xc0, PathOf(cb), cb[0] % 2)
  {
    hide Encode, Parse, ScriptPathValid, PathOf, IsPayToTaproot;
  }

  ghost predicate SpendsBy(env: Env, bytes: NodeBuffer, cb: Buffer, out: Output)
    requires env.curve.p > 0
  {
    Parse(bytes).Some? && ControlSizeOk(cb) && (cb[0] == 0xc0 || cb[0] == 0xc1) && TweaksToOutput(env, cb, bytes, out)
  }

  /** The key the control block names tweaks, with the folded root, to the output's key. */
  ghost predicate TweaksToOutput(env: Env, cb: Buffer, bytes: NodeBuffer, out: Output)
    requires |cb| >= 33 && env.curve.p > 0
  {
    TweaksTo(env, cb, Fold(env.sha256, LeafHash(env.sha256, bytes, 0xc0), PathOf(cb)), out.commitment.point)
  }

  ghost predicate TweaksTo(env: Env, cb: Buffer, root: Hash, q: Point)
    requires |cb| >= 33 && env.curve.p > 0
  {
    exists named, x :: TweaksWith(env, cb, named, x, root, q)
  }

  ghost predicate TweaksWith(env: Env, cb: Buffer, named: PublicKey, x: Buffer, root: Hash, q: Point)
    requires |cb| >= 33 && env.curve.p > 0
  {
    && Names(env.curve, cb, named) && ValidKey(env.curve, named) && IsTweakInput(env, x, named, root)
    && (env.curve.add)(named.point, Mul(env.curve, FromBE(env.sha256(x)), env.curve.g)) == q
  }

  lemma PathTest(env: Env, cb: Buffer, bytes: NodeBuffer, out: Output)
    requires Lawful(env.curve) && ValidKey(env.curve, out.commitment) && out.commitment.compressed
    requires |cb| >= 33 && Parse(bytes).Some?
    ensures ScriptPathValid(env, cb[1..33], Parse(bytes).value, ToDER(out.commitment), 0xc0, PathOf(cb), cb[0] % 2)
            <==> TweaksToOutput(env, cb, bytes, out)
  {
    hide Fold, LeafHash, Lawful, Parse, Encode, ToDER, FromDER, PathOf, TweakPublicKey, TweaksTo;
    var c, root := env.curve, Fold(env.sha256, LeafHash(env.sha256, bytes, 0xc0), PathOf(cb));
    ParseThenEncode(bytes);
    DERRoundTrip(c, out.commitment);
    OneKeyNamed(env, cb, root, out);
    if NamedKey(c, cb).Some? {
      var named := NamedKey(c, cb).value;
      NamedKeyIsValid(c, cb);
      if TweakPublicKey(env, named, root).Some? {
        TweakIsValid(env, named, root);
        DERInjective(c, TweakPublicKey(env, named, root).value, out.commitment);
      }
    }
  }

  lemma OneKeyNamed(env: Env, cb: Buffer, root: Hash, out: Output)
    requires Lawful(env.curve) && |cb| >= 33
    requires ValidKey(env.curve, out.commitment) && out.commitment.compressed
    ensures env.curve.p > 0
    ensures TweaksTo(env, cb, root, out.commitment.point) <==>
            NamedKey(env.curve, cb).Some?
            && TweakPublicKey(env, NamedKey(env.curve, cb).value, root) == Some(out.commitment)
  {
    hide Lawful, FromDER, IsTweakInput, NamedKey, TweakPublicKey, TweakInput, Mul;
    var c, q := env.curve, out.commitment.point;
    PositiveModulus(c);
    if TweaksTo(env, cb, root, q) {
      var named, x :| TweaksWith(env, cb, named, x, root, q);
      NamedIff(c, cb, named);
      TweakPoint(env, named, root);
      assert TweakPublicKey(env, named, root) == Some(PublicKey(q, true));
    }
    if NamedKey(c, cb).Some? {
      var named := NamedKey(c, cb).value;
      NamedIff(c, cb, named);
      TweakPoint(env, named, root);
      if TweakPublicKey(env, named, root) == Some(out.commitment) {
        assert TweaksWith(env, cb, named, TweakInput(env, named, root), root, q);
      }
    }
  }

  /** Whatever bytes are hashed for a key and a root, the tweaked key is the sum they give. */
  lemma TweakPoint(env: Env, key: PublicKey, root: Hash)
    requires Lawful(env.curve) && ValidKey(env.curve, key)
    ensures IsTweakInput(env, TweakInput(env, key, root), key, root)
    ensures forall x | IsTweakInput(env, x, key, root) ::
      var sum := (env.curve.add)(key.point, Mul(env.curve, FromBE(env.sha256(x)), env.curve.g));
      TweakPublicKey(env, key, root) == if sum == Infinity then None else Some(PublicKey(sum, key.compressed))
  {
    hide Lawful, IsTweakInput, TweakInput, Mul;
    TweakInputIff(env, key, root, TweakInput(env, key, root));
    forall x | IsTweakInput(env, x, key, root) ensures x == TweakInput(env, key, root) {
      TweakInputIff(env, key, root, x);
    }
  }

  lemma PositiveModulus(c: Curve)
    requires Lawful(c)
    ensures c.p > 0
  {
  }

  lemma NamedIff(c: Curve, cb: Buffer, named: PublicKey)
    requires Lawful(c) && |cb| >= 33
    ensures NamedKey(c, cb) == Some(named) <==> Names(c, cb, named) && ValidKey(c, named)
  {
    hide Lawful, FromDER, FromBE;
    var b := [if cb[0] % 2 == 0 then 2 else 3] + cb[1..33];
    assert b[1..] == cb[1..33];
    FromDERIff(c, b, named);
  }
}
