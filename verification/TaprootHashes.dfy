/** What the Taproot hashes are taken of, read back from the bytes: tagged hashes as BIP 340 defines
    them, leaf and branch hashes as BIP 341 does, and the tweak over the whole internal key. */
module TaprootHashes {
  import opened Buffers
  import opened EllipticCurve
  import opened PublicKeys
  import opened ScriptCodec
  import opened Taproot

  /** x starts with the hash of this tag, twice. */
  predicate Tagged(sha: Buffer -> Hash, x: Buffer, tag: string) {
    |x| >= 64 && x[..32] == sha(TextBytes(tag)) && x[32..64] == sha(TextBytes(tag))
  }

  lemma TagTexts()
    ensures TAG_LEAF == TextBytes("TapLeaf") && TAG_BRANCH == TextBytes("TapBranch")
    ensures TAG_TWEAK == TextBytes("TapTweak")
  {
    TagText("TapLeaf", TAG_LEAF);
    TagText("TapBranch", TAG_BRANCH);
    TagText("TapTweak", TAG_TWEAK);
  }

  lemma {:induction false} TagText(s: string, b: Buffer)
    requires |s| == |b| && forall i :: 0 <= i < |s| ==> s[i] as int == b[i]
    ensures TextBytes(s) == b
  {
    if s != [] {
      TagText(s[1..], b[1..]);
      assert b == [b[0]] + b[1..];
    }
  }

  lemma TaggedFields(sha: Buffer -> Hash, tag: Buffer, data: Buffer)
    ensures var x := TaggedInput(sha, tag, data);
      |x| == 64 + |data| && x[..32] == sha(tag) && x[32..64] == sha(tag) && x[64..] == data
  {
  }

  lemma TaggedFrom(sha: Buffer -> Hash, tag: Buffer, x: Buffer)
    requires |x| >= 64 && x[..32] == sha(tag) && x[32..64] == sha(tag)
    ensures x == TaggedInput(sha, tag, x[64..])
  {
    assert x == x[..32] + x[32..64] + x[64..];
  }

  // ----- Leaves -----

  /** A compact size at the front of b, and how many bytes it takes. */
  function ReadCompact(b: Buffer): Option<(nat, nat)> {
    if b == [] then None
    else if b[0] < 253 then Some((b[0], 1))
    else
      var k := if b[0] == 253 then 2 else if b[0] == 254 then 4 else 8;
      if |b| < 1 + k then None else Some((FromLE(b[1..1 + k]), 1 + k))
  }

  lemma {:induction false} ReadVarint(n: nat, rest: Buffer)
    requires n < 0x1_0000_0000_0000_0000
    ensures ReadCompact(Varint(n) + rest) == Some((n, |Varint(n)|))
    ensures |Varint(n)| == if n < 253 then 1 else if n < 0x1_0000 then 3 else if n < 0x1_0000_0000 then 5 else 9
  {
    hide LE, FromLE, Pow256;
    var b := Varint(n) + rest;
    PowersOfBytes();
    if 253 <= n < 0x1_0000 {
      LEInverse(n, 2);
      assert b[1..3] == LE(n, 2);
    } else if 0x1_0000 <= n < 0x1_0000_0000 {
      LEInverse(n, 4);
      assert b[1..5] == LE(n, 4);
    } else if 0x1_0000_0000 <= n {
      var lo, hi := n % 0x1_0000_0000, n / 0x1_0000_0000;
      LEInverse(lo, 4);
      LEInverse(hi, 4);
      FromLEConcat(LE(lo, 4), LE(hi, 4));
      assert b[1..9] == LE(lo, 4) + LE(hi, 4);
    }
  }

  lemma PowersOfBytes()
    ensures Pow256(2) == 0x1_0000 && Pow256(4) == 0x1_0000_0000
  {
  }

  /** x is what BIP 341 hashes for this leaf: the tag, the version byte, the script's length as the
      shortest compact size, the script. */
  predicate IsLeafInput(sha: Buffer -> Hash, x: Buffer, script: NodeBuffer, version: byte) {
    Tagged(sha, x, "TapLeaf") && IsLeafData(x[64..], script, version)
  }

  predicate IsLeafData(data: Buffer, script: NodeBuffer, version: byte) {
    && data != [] && data[0] == version
    && var n := |script|;
       var size := if n < 253 then 1 else if n < 0x1_0000 then 3 else if n < 0x1_0000_0000 then 5 else 9;
       ReadCompact(data[1..]) == Some((n, size)) && |data| == 1 + size + n && data[1 + size..] == script
  }

  lemma LeafHashMeans(sha: Buffer -> Hash, script: NodeBuffer, version: byte)
    ensures IsLeafInput(sha, LeafInput(sha, script, version), script, version)
    ensures LeafHash(sha, script, version) == sha(LeafInput(sha, script, version))
  {
    hide TaggedInput, TAG_LEAF, LeafData, IsLeafData;
    TagTexts();
    TaggedFields(sha, TAG_LEAF, LeafData(script, version));
    LeafDataMeans(script, version);
  }

  lemma LeafDataMeans(script: NodeBuffer, version: byte)
    ensures IsLeafData(LeafData(script, version), script, version)
  {
    hide Varint, ReadCompact;
    var size := Varint(|script|);
    var data := LeafData(script, version);
    ReadVarint(|script|, script);
    assert data[1..] == size + script;
    assert data[1 + |size|..] == script;
  }

  // ----- Branches -----

  /** x is what BIP 341 hashes for these two children: the tag, then both in ascending order. */
  predicate IsBranchInput(sha: Buffer -> Hash, x: Buffer, l: Hash, r: Hash) {
    Tagged(sha, x, "TapBranch") && IsBranchData(x[64..], l, r)
  }

  predicate IsBranchData(data: Buffer, l: Hash, r: Hash) {
    && |data| == 64 && FromBE(data[..32]) <= FromBE(data[32..])
    && ((data[..32] == l && data[32..] == r) || (data[..32] == r && data[32..] == l))
  }

  lemma BranchHashMeans(sha: Buffer -> Hash, l: Hash, r: Hash)
    ensures IsBranchInput(sha, BranchInput(sha, l, r), l, r)
    ensures BranchHash(sha, l, r) == sha(BranchInput(sha, l, r))
  {
    hide TaggedInput, TAG_BRANCH, Less, IsBranchData;
    TagTexts();
    var data := if Less(l, r) then l + r else r + l;
    TaggedFields(sha, TAG_BRANCH, data);
    BranchDataMeans(l, r);
  }

  lemma BranchDataMeans(l: Hash, r: Hash)
    ensures IsBranchData(if Less(l, r) then l + r else r + l, l, r)
  {
    hide FromBE, Less;
    LessIsNumeric(l, r);
    assert (l + r)[..32] == l && (l + r)[32..] == r && (r + l)[..32] == r && (r + l)[32..] == l;
  }

  /** The path recorded for a leaf starts with the hash beside it and goes up: for the first leaf of
      ((a, b), c) it is the hash of b and then that of c. */
  lemma PathGoesUp(sha: Buffer -> Hash, a: NodeBuffer, b: NodeBuffer, c: NodeBuffer)
    requires Parse(a).Some? && Parse(b).Some? && Parse(c).Some?
    ensures var tree := Branch(Branch(Leaf(a, None), Leaf(b, None)), Leaf(c, None));
      var r := BuildTapTree(sha, tree);
      && r.Some? && |r.value.leaves| == 3
      && r.value.leaves[0].merklePath == [LeafHash(sha, b, 0xc0), LeafHash(sha, c, 0xc0)]
      && r.value.leaves[1].merklePath == [LeafHash(sha, a, 0xc0), LeafHash(sha, c, 0xc0)]
      && r.value.leaves[2].merklePath == [BranchHash(sha, LeafHash(sha, a, 0xc0), LeafHash(sha, b, 0xc0))]
  {
    hide BuildTapTree, LeafHash, BranchHash, Parse;
    LeafTree(sha, a);
    LeafTree(sha, b);
    LeafTree(sha, c);
    BranchTree(sha, Leaf(a, None), Leaf(b, None));
    BranchTree(sha, Branch(Leaf(a, None), Leaf(b, None)), Leaf(c, None));
  }

  lemma LeafTree(sha: Buffer -> Hash, script: NodeBuffer)
    requires Parse(script).Some?
    ensures var r := BuildTapTree(sha, Leaf(script, None));
      && r.Some? && r.value.merkleRoot == LeafHash(sha, script, 0xc0)
      && |r.value.leaves| == 1 && r.value.leaves[0].merklePath == []
  {
    hide LeafHash, Parse;
  }

  lemma BranchTree(sha: Buffer -> Hash, left: TapNode, right: TapNode)
    requires BuildTapTree(sha, left).Some? && BuildTapTree(sha, right).Some?
    ensures var l, r := BuildTapTree(sha, left).value, BuildTapTree(sha, right).value;
      BuildTapTree(sha, Branch(left, right)) ==
        Some(TreeResult(BranchHash(sha, l.merkleRoot, r.merkleRoot),
                        Extend(l.leaves, r.merkleRoot) + Extend(r.leaves, l.merkleRoot)))
  {
    hide BranchHash, LeafHash, Parse, Extend;
  }

  // ----- Trees -----

  /** The leaves of a tree from left to right. */
  function Frontier(tree: TapNode): (f: seq<(NodeBuffer, Option<int>)>)
    ensures f != []
  {
    match tree
    case Leaf(script, version) => [(script, version)]
    case Branch(left, right) => Frontier(left) + Frontier(right)
  }

  /** Every script parses and every version given is a byte. */
  predicate LeavesOk(f: seq<(NodeBuffer, Option<int>)>) {
    forall i :: 0 <= i < |f| ==> Parse(f[i].0).Some? && (f[i].1.Some? ==> 0 <= f[i].1.value < 256)
  }

  lemma LeavesOkConcat(f: seq<(NodeBuffer, Option<int>)>, g: seq<(NodeBuffer, Option<int>)>)
    ensures LeavesOk(f + g) <==> LeavesOk(f) && LeavesOk(g)
  {
    hide Parse;
    assert forall i :: 0 <= i < |f| ==> (f + g)[i] == f[i];
    assert forall i :: 0 <= i < |g| ==> (f + g)[|f| + i] == g[i];
  }

  /** `buildTapTree` succeeds exactly when every leaf script parses and every version given is a byte,
      and then lists the leaves from left to right, a missing or zero version as 0xc0. */
  lemma {:induction false} BuildsIff(sha: Buffer -> Hash, tree: TapNode)
    ensures BuildTapTree(sha, tree).Some? <==> LeavesOk(Frontier(tree))
    ensures BuildTapTree(sha, tree).Some? ==>
      var leaves, f := BuildTapTree(sha, tree).value.leaves, Frontier(tree);
      && |leaves| == |f|
      && forall i :: 0 <= i < |f| ==>
           Some(leaves[i].script) == Parse(f[i].0)
           && leaves[i].leafVersion == if f[i].1 == None || f[i].1 == Some(0) then 0xc0 else f[i].1.value
  {
    hide Parse, LeafHash, BranchHash;
    match tree
    case Leaf(script, version) =>
      assert Frontier(tree)[0] == (script, version);
      assert LeavesOk(Frontier(tree)) <==> Parse(script).Some? && (version.Some? ==> 0 <= version.value < 256);
    case Branch(left, right) =>
      BuildsIff(sha, left);
      BuildsIff(sha, right);
      LeavesOkConcat(Frontier(left), Frontier(right));
  }

  // ----- The tweak -----

  /** x is what the tweak of this key and root hashes: the tag, the whole serialised key, the root. */
  predicate IsTweakInput(env: Env, x: Buffer, key: PublicKey, root: Hash)
    requires key.point.Affine?
  {
    && Tagged(env.sha256, x, "TapTweak")
    && if key.compressed then IsKeyAndRoot(x[64..], key.point, root) else IsLongKeyAndRoot(x[64..], key.point, root)
  }

  predicate IsKeyAndRoot(data: Buffer, q: Point, root: Hash)
    requires q.Affine?
  {
    && |data| == 65 && data[0] == (if q.y % 2 == 0 then 2 else 3) && FromBE(data[1..33]) == q.x
    && data[33..] == root
  }

  predicate IsLongKeyAndRoot(data: Buffer, q: Point, root: Hash)
    requires q.Affine?
  {
    && |data| == 97 && data[0] == 4 && FromBE(data[1..33]) == q.x && FromBE(data[33..65]) == q.y
    && data[65..] == root
  }

  /** These are the bytes the tweak hashes, and no others have those fields. */
  lemma TweakInputIff(env: Env, key: PublicKey, root: Hash, x: Buffer)
    requires Lawful(env.curve) && ValidKey(env.curve, key)
    ensures IsTweakInput(env, x, key, root) <==> x == TweakInput(env, key, root)
  {
    hide Lawful, ToDER, TaggedInput, TAG_TWEAK, IsKeyAndRoot, IsLongKeyAndRoot;
    TagTexts();
    var data := ToDER(key) + root;
    TaggedFields(env.sha256, TAG_TWEAK, data);
    KeyAndRoot(env.curve, key, root);
    if IsTweakInput(env, x, key, root) {
      SameKeyAndRoot(x[64..], data, key, root);
      TaggedFrom(env.sha256, TAG_TWEAK, x);
    }
  }

  lemma SameKeyAndRoot(a: Buffer, b: Buffer, key: PublicKey, root: Hash)
    requires key.point.Affine?
    requires if key.compressed then IsKeyAndRoot(a, key.point, root) && IsKeyAndRoot(b, key.point, root)
             else IsLongKeyAndRoot(a, key.point, root) && IsLongKeyAndRoot(b, key.point, root)
    ensures a == b
  {
    hide FromBE, BE;
    FromBEInverse(a[1..33]);
    FromBEInverse(b[1..33]);
    if key.compressed {
      assert a == [a[0]] + a[1..33] + a[33..] && b == [b[0]] + b[1..33] + b[33..];
    } else {
      FromBEInverse(a[33..65]);
      FromBEInverse(b[33..65]);
      assert a == [a[0]] + a[1..33] + a[33..65] + a[65..] && b == [b[0]] + b[1..33] + b[33..65] + b[65..];
    }
  }

  lemma KeyAndRoot(c: Curve, key: PublicKey, root: Hash)
    requires Lawful(c) && ValidKey(c, key)
    ensures var data := ToDER(key) + root;
      if key.compressed then IsKeyAndRoot(data, key.point, root) else IsLongKeyAndRoot(data, key.point, root)
  {
    if key.compressed {
      ShortKeyAndRoot(c, key, root);
    } else {
      LongKeyAndRoot(c, key, root);
    }
  }

  lemma ShortKeyAndRoot(c: Curve, key: PublicKey, root: Hash)
    requires Lawful(c) && ValidKey(c, key) && key.compressed
    ensures IsKeyAndRoot(ToDER(key) + root, key.point, root)
  {
    hide Lawful, FromBE, ToDER;
    DERFields(c, key);
    assert (ToDER(key) + root)[1..33] == ToDER(key)[1..33];
  }

  lemma LongKeyAndRoot(c: Curve, key: PublicKey, root: Hash)
    requires Lawful(c) && ValidKey(c, key) && !key.compressed
    ensures IsLongKeyAndRoot(ToDER(key) + root, key.point, root)
  {
    hide Lawful, FromBE, ToDER;
    DERFields(c, key);
    var der := ToDER(key);
    assert (der + root)[1..33] == der[1..33] && (der + root)[33..65] == der[33..65];
  }

  /** Two valid compressed keys and two roots have one tweak input only if they are the same. */
  lemma TweakInputBinds(env: Env, a: PublicKey, r: Hash, b: PublicKey, s: Hash)
    requires Lawful(env.curve) && ValidKey(env.curve, a) && ValidKey(env.curve, b) && a.compressed && b.compressed
    ensures TweakInput(env, a, r) == TweakInput(env, b, s) <==> a == b && r == s
  {
    hide Lawful, ToDER, TaggedInput;
    var x, y := ToDER(a) + r, ToDER(b) + s;
    if TweakInput(env, a, r) == TweakInput(env, b, s) {
      TaggedInputParts(env.sha256, TAG_TWEAK, x, TAG_TWEAK, y);
      assert x[..33] == ToDER(a) && y[..33] == ToDER(b) && x[33..] == r && y[33..] == s;
      DERInjective(env.curve, a, b);
    }
  }

  /** The tweaked key is the key plus G times the number of the hash of those bytes, and fails only at
      infinity; the tweaked secret is the secret plus that number, modulo the order. */
  lemma TweakMeans(env: Env, key: PublicKey, root: Hash) returns (x: Buffer)
    requires Lawful(env.curve) && ValidKey(env.curve, key)
    ensures IsTweakInput(env, x, key, root)
    ensures var sum := (env.curve.add)(key.point, Mul(env.curve, FromBE(env.sha256(x)), env.curve.g));
      TweakPublicKey(env, key, root) == if sum == Infinity then None else Some(PublicKey(sum, key.compressed))
    ensures forall d: nat | Mul(env.curve, d, env.curve.g) == key.point ::
      var k := (d + FromBE(env.sha256(x))) % env.curve.n;
      TweakPrivateKey(env, d, key.compressed, root) == if k == 0 then None else Some(k)
  {
    hide TweakInput, IsTweakInput, Mul;
    x := TweakInput(env, key, root);
    TweakInputIff(env, key, root, x);
  }
}
