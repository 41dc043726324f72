/** Taproot script trees, control blocks and spend verification (lib/bitcore/taproot.ts).
    SHA-256 is a parameter; nothing is assumed about it beyond its output length. */
module Taproot {
  import opened Buffers
  import opened EllipticCurve
  import opened PublicKeys
  import opened ScriptCodec

  type Hash = b: Buffer | |b| == 32 witness seq(32, _ => 0)

  /** A buffer Node can allocate; its length fits the eight-byte compact size. */
  type NodeBuffer = b: Buffer | |b| <= 0x1F_FFFF_FFFF_FFFF

  datatype Env = Env(curve: Curve, sha256: Buffer -> Hash)

  const LEAF_TAPSCRIPT := 0xc0
  const CONTROL_BASE_SIZE := 33
  const CONTROL_NODE_SIZE := 32
  const CONTROL_MAX_NODE_COUNT := 128
  const CONTROL_MAX_SIZE := 33 + 32 * 128
  const OP_SCRIPTTYPE := 98
  const OP_1 := 81
  const ANNEX_TAG := 0x50

  // "TapLeaf", "TapBranch", "TapTweak"
  const TAG_LEAF: Buffer := [84, 97, 112, 76, 101, 97, 102]
  const TAG_BRANCH: Buffer := [84, 97, 112, 66, 114, 97, 110, 99, 104]
  const TAG_TWEAK: Buffer := [84, 97, 112, 84, 119, 101, 97, 107]

  // ----- Hashes -----

  /** What `taggedHash` feeds to SHA-256. */
  function TaggedInput(sha: Buffer -> Hash, tag: Buffer, data: Buffer): Buffer {
    sha(tag) + sha(tag) + data
  }

  /** `BufferWriter.varintBufNum`. */
  function Varint(n: nat): Buffer
    requires n < 0x1_0000_0000_0000_0000
  {
    if n < 253 then [n]
    else if n < 0x1_0000 then [253] + LE(n, 2)
    else if n < 0x1_0000_0000 then [254] + LE(n, 4)
    else [255] + LE(n % 0x1_0000_0000, 4) + LE(n / 0x1_0000_0000, 4)
  }

  function LeafData(script: NodeBuffer, version: byte): Buffer {
    [version] + Varint(|script|) + script
  }

  function LeafInput(sha: Buffer -> Hash, script: NodeBuffer, version: byte): Buffer {
    TaggedInput(sha, TAG_LEAF, LeafData(script, version))
  }

  /** `calculateTapLeaf` on script bytes. */
  function LeafHash(sha: Buffer -> Hash, script: NodeBuffer, version: byte): Hash {
    sha(LeafInput(sha, script, version))
  }

  function BranchInput(sha: Buffer -> Hash, left: Hash, right: Hash): Buffer {
    TaggedInput(sha, TAG_BRANCH, if Less(left, right) then left + right else right + left)
  }

  /** `calculateTapBranch`: the children are sorted first. */
  function BranchHash(sha: Buffer -> Hash, left: Hash, right: Hash): Hash {
    sha(BranchInput(sha, left, right))
  }

  function TweakInput(env: Env, key: PublicKey, root: Hash): Buffer
    requires key.point.Affine?
  {
    TaggedInput(env.sha256, TAG_TWEAK, ToDER(key) + root)
  }

  /** `tweakPublicKey`; None when the tweaked point is infinity. */
  function TweakPublicKey(env: Env, key: PublicKey, root: Hash): Option<PublicKey>
    requires key.point.Affine?
  {
    AddScalar(env.curve, key, FromBE(env.sha256(TweakInput(env, key, root))))
  }

  /** `tweakPrivateKey`: the new secret modulo the group order; zero makes the constructor throw. The
      tweak hashes the old key in its own form, the new key is compressed. */
  function TweakPrivateKey(env: Env, d: nat, compressed: bool, root: Hash): Option<nat>
    requires env.curve.n > 0 && Mul(env.curve, d, env.curve.g).Affine?
  {
    var key := PublicKey(Mul(env.curve, d, env.curve.g), compressed);
    var k := (d + FromBE(env.sha256(TweakInput(env, key, root)))) % env.curve.n;
    if k == 0 then None else Some(k)
  }

  // ----- Script trees -----

  datatype TapNode =
    | Leaf(script: NodeBuffer, leafVersion: Option<int>)
    | Branch(left: TapNode, right: TapNode)

  datatype TapLeaf = TapLeaf(script: seq<Chunk>, leafVersion: byte, leafHash: Hash, merklePath: seq<Hash>)

  datatype TreeResult = TreeResult(merkleRoot: Hash, leaves: seq<TapLeaf>)

  /** `leafVersion || 0xc0`. */
  function VersionOf(v: Option<int>): int {
    if v == None || v == Some(0) then LEAF_TAPSCRIPT else v.value
  }

  /** Adds the sibling's root to the path of every leaf. */
  function Extend(leaves: seq<TapLeaf>, sibling: Hash): (r: seq<TapLeaf>)
    ensures |r| == |leaves|
    ensures forall i :: 0 <= i < |r| ==> r[i] == leaves[i].(merklePath := leaves[i].merklePath + [sibling])
  {
    seq(|leaves|, i requires 0 <= i < |leaves| => leaves[i].(merklePath := leaves[i].merklePath + [sibling]))
  }

  /** `buildTapTree`; None when a leaf script does not parse or a version is no byte. */
  function BuildTapTree(sha: Buffer -> Hash, tree: TapNode): (r: Option<TreeResult>)
    ensures r.Some? ==> |r.value.leaves| > 0
  {
    match tree
    case Leaf(script, leafVersion) =>
      var v := VersionOf(leafVersion);
      if !(0 <= v < 256) || Parse(script).None? then None
      else
        var h := LeafHash(sha, script, v);
        Some(TreeResult(h, [TapLeaf(Parse(script).value, v, h, [])]))
    case Branch(left, right) =>
      match (BuildTapTree(sha, left), BuildTapTree(sha, right))
      case (Some(l), Some(r)) =>
        Some(TreeResult(BranchHash(sha, l.merkleRoot, r.merkleRoot),
                        Extend(l.leaves, r.merkleRoot) + Extend(r.leaves, l.merkleRoot)))
      case _ => None
  }

  /** The root the verifier's loop reaches from a leaf hash along a path. */
  function Fold(sha: Buffer -> Hash, start: Hash, path: seq<Hash>): Hash
    decreases |path|
  {
    if path == [] then start
    else BranchHash(sha, Fold(sha, start, path[..|path| - 1]), path[|path| - 1])
  }

  /** Sorting makes the branch hash independent of the order of its arguments. */
  lemma BranchCommutes(sha: Buffer -> Hash, a: Hash, b: Hash)
    ensures BranchHash(sha, a, b) == BranchHash(sha, b, a)
    ensures BranchInput(sha, a, b) == BranchInput(sha, b, a)
  {
    LessTrichotomy(a, b);
    LessTrichotomy(b, a);
  }

  /** Every recorded leaf folds along its recorded path to the root, and its script is a parsed
      leaf script of the tree. */
  lemma {:induction false} LeavesFoldToRoot(sha: Buffer -> Hash, tree: TapNode, i: nat)
    requires BuildTapTree(sha, tree).Some? && i < |BuildTapTree(sha, tree).value.leaves|
    ensures var r := BuildTapTree(sha, tree).value; var leaf := r.leaves[i];
      && Encode(leaf.script).Some? && |Encode(leaf.script).value| <= 0x1F_FFFF_FFFF_FFFF
      && Parse(Encode(leaf.script).value) == Some(leaf.script)
      && leaf.leafHash == LeafHash(sha, Encode(leaf.script).value, leaf.leafVersion)
      && Fold(sha, leaf.leafHash, leaf.merklePath) == r.merkleRoot
  {
    hide Parse, Encode, LeafHash, BranchHash;
    match tree
    case Leaf(script, _) =>
      ParseThenEncode(script);
    case Branch(left, right) =>
      var l, r := BuildTapTree(sha, left).value, BuildTapTree(sha, right).value;
      var n := |l.leaves|;
      if i < n {
        LeavesFoldToRoot(sha, left, i);
        FoldSnoc(sha, l.leaves[i].leafHash, l.leaves[i].merklePath, r.merkleRoot);
      } else {
        LeavesFoldToRoot(sha, right, i - n);
        FoldSnoc(sha, r.leaves[i - n].leafHash, r.leaves[i - n].merklePath, l.merkleRoot);
        BranchCommutes(sha, l.merkleRoot, r.merkleRoot);
      }
  }

  lemma FoldSnoc(sha: Buffer -> Hash, start: Hash, path: seq<Hash>, last: Hash)
    ensures Fold(sha, start, path + [last]) == BranchHash(sha, Fold(sha, start, path), last)
  {
    assert (path + [last])[..|path|] == path;
  }

  // ----- Binding -----

  /** Two different inputs, one from each set, with the same SHA-256 value. */
  ghost predicate Clash(sha: Buffer -> Hash, a: set<Buffer>, b: set<Buffer>) {
    exists x, y :: x in a && y in b && Collide(sha, x, y)
  }

  predicate Collide(sha: Buffer -> Hash, x: Buffer, y: Buffer) {
    x != y && sha(x) == sha(y)
  }

  /** All inputs hashed while building the tree. */
  function TreeInputs(sha: Buffer -> Hash, tree: TapNode): set<Buffer> {
    {TAG_LEAF, TAG_BRANCH} +
    match tree
    case Leaf(script, v) => if 0 <= VersionOf(v) < 256 then {LeafInput(sha, script, VersionOf(v))} else {}
    case Branch(left, right) =>
      TreeInputs(sha, left) + TreeInputs(sha, right) +
      match (BuildTapTree(sha, left), BuildTapTree(sha, right))
      case (Some(l), Some(r)) => {BranchInput(sha, l.merkleRoot, r.merkleRoot)}
      case _ => {}
  }

  /** All inputs the verifier hashes along a path. */
  function FoldInputs(sha: Buffer -> Hash, script: NodeBuffer, version: byte, path: seq<Hash>): set<Buffer>
    decreases |path|
  {
    if path == [] then {TAG_LEAF, TAG_BRANCH, LeafInput(sha, script, version)}
    else
      var front := path[..|path| - 1];
      FoldInputs(sha, script, version, front) +
      {BranchInput(sha, Fold(sha, LeafHash(sha, script, version), front), path[|path| - 1])}
  }

  /** The tree records this script, version and path for leaf i. */
  ghost predicate RecordedAt(sha: Buffer -> Hash, tree: TapNode, script: NodeBuffer, version: byte,
                             path: seq<Hash>, i: int)
  {
    && BuildTapTree(sha, tree).Some? && 0 <= i < |BuildTapTree(sha, tree).value.leaves|
    && var leaf := BuildTapTree(sha, tree).value.leaves[i];
       Some(leaf.script) == Parse(script) && leaf.leafVersion == version && leaf.merklePath == path
  }

  ghost predicate Recorded(sha: Buffer -> Hash, tree: TapNode, script: NodeBuffer, version: byte, path: seq<Hash>) {
    exists i :: RecordedAt(sha, tree, script, version, path, i)
  }

  lemma VarintInjective(m: nat, n: nat, s: Buffer, t: Buffer)
    requires m < 0x1_0000_0000_0000_0000 && n < 0x1_0000_0000_0000_0000
    requires |s| == m && |t| == n && Varint(m) + s == Varint(n) + t
    ensures s == t
  {
    var a, b := Varint(m) + s, Varint(n) + t;
    assert a[0] == Varint(m)[0] && b[0] == Varint(n)[0];
    assert |Varint(m)| == |Varint(n)|;
    assert s == a[|Varint(m)|..] && t == b[|Varint(n)|..];
  }

  lemma LeafDataInjective(s: NodeBuffer, v: byte, t: NodeBuffer, w: byte)
    requires LeafData(s, v) == LeafData(t, w)
    ensures s == t && v == w
  {
    hide Varint;
    var a, b := LeafData(s, v), LeafData(t, w);
    assert a[0] == v && b[0] == w;
    assert a[1..] == Varint(|s|) + s && b[1..] == Varint(|t|) + t;
    VarintInjective(|s|, |t|, s, t);
  }

  /** Equal tagged inputs have the same data, and tags whose hashes agree. */
  lemma TaggedInputParts(sha: Buffer -> Hash, tag: Buffer, data: Buffer, tag': Buffer, data': Buffer)
    requires TaggedInput(sha, tag, data) == TaggedInput(sha, tag', data')
    ensures data == data' && sha(tag) == sha(tag')
  {
    var a, b := TaggedInput(sha, tag, data), TaggedInput(sha, tag', data');
    assert a[..32] == sha(tag) && b[..32] == sha(tag');
    assert a[64..] == data && b[64..] == data';
  }

  /** A leaf input and a branch input either differ, or betray a collision between the tags. */
  lemma LeafIsNotBranch(sha: Buffer -> Hash, script: NodeBuffer, version: byte, l: Hash, r: Hash)
    ensures LeafInput(sha, script, version) != BranchInput(sha, l, r) || Collide(sha, TAG_LEAF, TAG_BRANCH)
  {
    if LeafInput(sha, script, version) == BranchInput(sha, l, r) {
      TaggedInputParts(sha, TAG_LEAF, LeafData(script, version), TAG_BRANCH, if Less(l, r) then l + r else r + l);
    }
    assert |TAG_LEAF| != |TAG_BRANCH|;
  }

  lemma BranchInputInjective(sha: Buffer -> Hash, a: Hash, b: Hash, l: Hash, r: Hash)
    requires BranchInput(sha, a, b) == BranchInput(sha, l, r)
    ensures (a == l && b == r) || (a == r && b == l)
  {
    var x := if Less(a, b) then a + b else b + a;
    var y := if Less(l, r) then l + r else r + l;
    TaggedInputParts(sha, TAG_BRANCH, x, TAG_BRANCH, y);
    assert x[..32] == y[..32] && x[32..] == y[32..];
  }

  lemma ClashMonotone(sha: Buffer -> Hash, a: set<Buffer>, b: set<Buffer>, a': set<Buffer>, b': set<Buffer>)
    requires Clash(sha, a, b) && a <= a' && b <= b'
    ensures Clash(sha, a', b')
  {
  }

  lemma MakeClash(sha: Buffer -> Hash, a: set<Buffer>, b: set<Buffer>, x: Buffer, y: Buffer)
    requires x in a && y in b && Collide(sha, x, y)
    ensures Clash(sha, a, b)
  {
  }

  lemma FoldInputsTop(sha: Buffer -> Hash, script: NodeBuffer, version: byte, path: seq<Hash>)
    ensures TAG_BRANCH in FoldInputs(sha, script, version, path) && TAG_LEAF in FoldInputs(sha, script, version, path)
    ensures path == [] ==> LeafInput(sha, script, version) in FoldInputs(sha, script, version, path)
    ensures path != [] ==>
      var front := path[..|path| - 1];
      FoldInputs(sha, script, version, front) <= FoldInputs(sha, script, version, path)
      && BranchInput(sha, Fold(sha, LeafHash(sha, script, version), front), path[|path| - 1])
         in FoldInputs(sha, script, version, path)
  {
    if path != [] {
      FoldInputsTop(sha, script, version, path[..|path| - 1]);
    }
  }

  /** Taproot soundness: whatever script, version and path fold to the root of the tree are recorded
      in it, or two of the inputs hashed on the way form a SHA-256 collision. */
  lemma {:induction false} RootBindsLeaf(sha: Buffer -> Hash, tree: TapNode, script: NodeBuffer, version: byte,
                                         path: seq<Hash>)
    requires BuildTapTree(sha, tree).Some?
    requires Fold(sha, LeafHash(sha, script, version), path) == BuildTapTree(sha, tree).value.merkleRoot
    ensures Recorded(sha, tree, script, version, path)
         || Clash(sha, TreeInputs(sha, tree), FoldInputs(sha, script, version, path))
    decreases tree
  {
    match tree
    case Leaf(s, v) => RootBindsSingleLeaf(sha, tree, script, version, path);
    case Branch(left, right) =>
      if path == [] {
        BranchRootIsNoLeaf(sha, tree, script, version);
      } else {
        BranchStep(sha, tree, script, version, path);
        var l, r := BuildTapTree(sha, left).value, BuildTapTree(sha, right).value;
        var front, last := path[..|path| - 1], path[|path| - 1];
        var sub := Fold(sha, LeafHash(sha, script, version), front);
        if sub == l.merkleRoot && last == r.merkleRoot {
          RootBindsLeaf(sha, left, script, version, front);
          LiftChild(sha, tree, true, script, version, path);
        } else if sub == r.merkleRoot && last == l.merkleRoot {
          RootBindsLeaf(sha, right, script, version, front);
          LiftChild(sha, tree, false, script, version, path);
        }
      }
  }

  lemma RootBindsSingleLeaf(sha: Buffer -> Hash, tree: TapNode, script: NodeBuffer, version: byte, path: seq<Hash>)
    requires tree.Leaf? && BuildTapTree(sha, tree).Some?
    requires Fold(sha, LeafHash(sha, script, version), path) == BuildTapTree(sha, tree).value.merkleRoot
    ensures Recorded(sha, tree, script, version, path)
         || Clash(sha, TreeInputs(sha, tree), FoldInputs(sha, script, version, path))
  {
    hide Parse, LeafInput, BranchInput;
    var v := VersionOf(tree.leafVersion);
    var x := LeafInput(sha, tree.script, v);
    var a, b := TreeInputs(sha, tree), FoldInputs(sha, script, version, path);
    FoldInputsTop(sha, script, version, path);
    if path == [] {
      var y := LeafInput(sha, script, version);
      if x == y {
        LeafInputInjective(sha, tree.script, v, script, version);
        assert RecordedAt(sha, tree, script, version, path, 0);
      } else {
        MakeClash(sha, a, b, x, y);
      }
    } else {
      var sub, last := Fold(sha, LeafHash(sha, script, version), path[..|path| - 1]), path[|path| - 1];
      LeafIsNotBranch(sha, tree.script, v, sub, last);
      if Collide(sha, TAG_LEAF, TAG_BRANCH) {
        MakeClash(sha, a, b, TAG_LEAF, TAG_BRANCH);
      } else {
        MakeClash(sha, a, b, x, BranchInput(sha, sub, last));
      }
    }
  }

  lemma LeafInputInjective(sha: Buffer -> Hash, s: NodeBuffer, v: byte, t: NodeBuffer, w: byte)
    requires LeafInput(sha, s, v) == LeafInput(sha, t, w)
    ensures s == t && v == w
  {
    TaggedInputParts(sha, TAG_LEAF, LeafData(s, v), TAG_LEAF, LeafData(t, w));
    LeafDataInjective(s, v, t, w);
  }

  lemma BranchRootIsNoLeaf(sha: Buffer -> Hash, tree: TapNode, script: NodeBuffer, version: byte)
    requires tree.Branch? && BuildTapTree(sha, tree).Some?
    requires LeafHash(sha, script, version) == BuildTapTree(sha, tree).value.merkleRoot
    ensures Clash(sha, TreeInputs(sha, tree), FoldInputs(sha, script, version, []))
  {
    hide Parse, LeafInput, BranchInput;
    var l, r := BuildTapTree(sha, tree.left).value.merkleRoot, BuildTapTree(sha, tree.right).value.merkleRoot;
    var a, b := TreeInputs(sha, tree), FoldInputs(sha, script, version, []);
    LeafIsNotBranch(sha, script, version, l, r);
    if Collide(sha, TAG_LEAF, TAG_BRANCH) {
      MakeClash(sha, a, b, TAG_LEAF, TAG_BRANCH);
    } else {
      MakeClash(sha, a, b, BranchInput(sha, l, r), LeafInput(sha, script, version));
    }
  }

  /** One step down: the last fold used the children's roots, or the branch inputs collide. */
  lemma BranchStep(sha: Buffer -> Hash, tree: TapNode, script: NodeBuffer, version: byte, path: seq<Hash>)
    requires tree.Branch? && BuildTapTree(sha, tree).Some? && path != []
    requires Fold(sha, LeafHash(sha, script, version), path) == BuildTapTree(sha, tree).value.merkleRoot
    ensures var l := BuildTapTree(sha, tree.left).value.merkleRoot;
      var r := BuildTapTree(sha, tree.right).value.merkleRoot;
      var sub := Fold(sha, LeafHash(sha, script, version), path[..|path| - 1]);
      var last := path[|path| - 1];
      || (sub == l && last == r) || (sub == r && last == l)
      || Clash(sha, TreeInputs(sha, tree), FoldInputs(sha, script, version, path))
  {
    hide Parse, LeafInput, BranchInput;
    var l, r := BuildTapTree(sha, tree.left).value.merkleRoot, BuildTapTree(sha, tree.right).value.merkleRoot;
    var sub, last := Fold(sha, LeafHash(sha, script, version), path[..|path| - 1]), path[|path| - 1];
    FoldInputsTop(sha, script, version, path);
    if BranchInput(sha, sub, last) == BranchInput(sha, l, r) {
      BranchInputInjective(sha, sub, last, l, r);
    } else {
      MakeClash(sha, TreeInputs(sha, tree), FoldInputs(sha, script, version, path),
                BranchInput(sha, l, r), BranchInput(sha, sub, last));
    }
  }

  /** A leaf recorded in a child is recorded in the parent with the sibling's root appended. */
  lemma LiftRecorded(sha: Buffer -> Hash, tree: TapNode, left: bool, script: NodeBuffer, version: byte,
                     path: seq<Hash>, i: nat)
    requires tree.Branch? && BuildTapTree(sha, tree).Some? && path != []
    requires RecordedAt(sha, if left then tree.left else tree.right, script, version, path[..|path| - 1], i)
    requires path[|path| - 1] == BuildTapTree(sha, if left then tree.right else tree.left).value.merkleRoot
    ensures Recorded(sha, tree, script, version, path)
  {
    hide Parse, LeafInput, BranchInput, LeafHash;
    var j := if left then i else |BuildTapTree(sha, tree.left).value.leaves| + i;
    assert path[..|path| - 1] + [path[|path| - 1]] == path;
    assert RecordedAt(sha, tree, script, version, path, j);
  }

  lemma LiftClash(sha: Buffer -> Hash, tree: TapNode, left: bool, script: NodeBuffer, version: byte, path: seq<Hash>)
    requires tree.Branch? && path != []
    requires Clash(sha, TreeInputs(sha, if left then tree.left else tree.right),
                   FoldInputs(sha, script, version, path[..|path| - 1]))
    ensures Clash(sha, TreeInputs(sha, tree), FoldInputs(sha, script, version, path))
  {
    hide Clash, BuildTapTree, BranchInput, LeafInput;
    FoldInputsTop(sha, script, version, path);
    ClashMonotone(sha, TreeInputs(sha, if left then tree.left else tree.right),
                  FoldInputs(sha, script, version, path[..|path| - 1]),
                  TreeInputs(sha, tree), FoldInputs(sha, script, version, path));
  }

  lemma LiftChild(sha: Buffer -> Hash, tree: TapNode, left: bool, script: NodeBuffer, version: byte, path: seq<Hash>)
    requires tree.Branch? && BuildTapTree(sha, tree).Some? && path != []
    requires path[|path| - 1] == BuildTapTree(sha, if left then tree.right else tree.left).value.merkleRoot
    requires var child := if left then tree.left else tree.right; var front := path[..|path| - 1];
      || Recorded(sha, child, script, version, front)
      || Clash(sha, TreeInputs(sha, child), FoldInputs(sha, script, version, front))
    ensures Recorded(sha, tree, script, version, path)
         || Clash(sha, TreeInputs(sha, tree), FoldInputs(sha, script, version, path))
  {
    hide Clash, BuildTapTree, TreeInputs, FoldInputs, RecordedAt;
    var child, front := if left then tree.left else tree.right, path[..|path| - 1];
    if Clash(sha, TreeInputs(sha, child), FoldInputs(sha, script, version, front)) {
      LiftClash(sha, tree, left, script, version, path);
    } else {
      var i :| RecordedAt(sha, child, script, version, front, i);
      RecordedIndex(sha, child, script, version, front, i);
      LiftRecorded(sha, tree, left, script, version, path, i);
    }
  }

  lemma RecordedIndex(sha: Buffer -> Hash, tree: TapNode, script: NodeBuffer, version: byte, path: seq<Hash>, i: int)
    requires RecordedAt(sha, tree, script, version, path, i)
    ensures i >= 0
  {
  }
}
