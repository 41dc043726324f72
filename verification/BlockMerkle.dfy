/** The block Merkle tree of lib/bitcore/block/block.ts: one growing array, levels padded with a
    null hash. The double SHA-256 is a parameter. */
module BlockMerkle {
  import opened Buffers

  type Hash = b: Buffer | |b| == 32 witness seq(32, _ => 0)

  const NULL_HASH: Hash := Zeros(32)

  type Sha = Buffer -> Hash

  /** What `_getHash()` and `_getTxid()` return for a transaction. */
  datatype Transaction = Transaction(hash: Hash, txid: Hash)

  // ----- Level by level -----

  function Join(left: Hash, right: Hash): Buffer {
    left + right
  }

  function Pair(sha: Sha, left: Hash, right: Hash): Hash {
    sha(Join(left, right))
  }

  /** Number of pairs when the last one may be half empty. */
  function HalfUp(n: nat): nat {
    (n + 1) / 2
  }

  function Padded(xs: seq<Hash>): (ys: seq<Hash>)
    ensures |ys| == 2 * HalfUp(|xs|) && |ys| % 2 == 0
  {
    if |xs| % 2 == 1 then xs + [NULL_HASH] else xs
  }

  function NextLevel(sha: Sha, xs: seq<Hash>): (ys: seq<Hash>)
    requires |xs| % 2 == 0
    ensures |ys| == |xs| / 2
    ensures forall i :: 0 <= i < |ys| ==> ys[i] == Pair(sha, xs[2 * i], xs[2 * i + 1])
  {
    seq(|xs| / 2, i requires 0 <= i < |xs| / 2 => Pair(sha, xs[2 * i], xs[2 * i + 1]))
  }

  /** All levels one after the other, each padded to even length except a single root. */
  function FlatTree(sha: Sha, xs: seq<Hash>): (tree: seq<Hash>)
    requires xs != []
    ensures tree != []
    decreases |xs|
  {
    if |xs| == 1 then xs else Padded(xs) + FlatTree(sha, NextLevel(sha, Padded(xs)))
  }

  lemma FlatTreeUnfold(sha: Sha, xs: seq<Hash>)
    requires |xs| > 1
    ensures FlatTree(sha, xs) == Padded(xs) + FlatTree(sha, NextLevel(sha, Padded(xs)))
  {
    hide NextLevel, Padded, HalfUp;
  }

  function Root(sha: Sha, xs: seq<Hash>): Hash
    requires xs != []
  {
    var tree := FlatTree(sha, xs);
    tree[|tree| - 1]
  }

  // ----- The recursive tree, from the root down -----

  /** Number of nodes on level h above n leaves. */
  function Width(n: nat, h: nat): (w: nat)
    ensures n > 0 ==> w > 0
  {
    if h == 0 then n else HalfUp(Width(n, h - 1))
  }

  /** Node i of level h: a leaf, or the hash of two children, a missing one being the null hash. */
  function Node(sha: Sha, xs: seq<Hash>, h: nat, i: nat): Hash
    decreases h
  {
    if i >= Width(|xs|, h) then NULL_HASH
    else if h == 0 then xs[i]
    else Pair(sha, Node(sha, xs, h - 1, 2 * i), Node(sha, xs, h - 1, 2 * i + 1))
  }

  /** Levels above the leaves until a single node is left. */
  function Height(n: nat): nat
    requires n > 0
  {
    if n == 1 then 0 else 1 + Height(HalfUp(n))
  }

  /** Where level h starts in the flat array. */
  function Offset(n: nat, h: nat): nat {
    if h == 0 then 0 else Offset(n, h - 1) + 2 * HalfUp(Width(n, h - 1))
  }

  // ----- The flat array is the recursive tree -----

  lemma {:induction false} WidthShift(n: nat, h: nat)
    ensures Width(HalfUp(n), h) == Width(n, h + 1)
    ensures n > 1 ==> Offset(n, h + 1) == 2 * HalfUp(n) + Offset(HalfUp(n), h)
  {
    hide HalfUp;
    if h > 0 {
      WidthShift(n, h - 1);
    }
  }

  /** Leaf level: the padded list holds the leaves and then null hashes. */
  lemma PaddedAt(sha: Sha, xs: seq<Hash>, k: nat)
    requires k < |Padded(xs)|
    ensures Padded(xs)[k] == Node(sha, xs, 0, k)
  {
  }

  lemma NodePair(sha: Sha, xs: seq<Hash>, h: nat, i: nat)
    requires i < Width(|xs|, h + 1)
    ensures Node(sha, xs, h + 1, i) == Pair(sha, Node(sha, xs, h, 2 * i), Node(sha, xs, h, 2 * i + 1))
  {
  }

  /** Level h of the next level up is level h + 1 of this one. */
  lemma {:induction false} NodeShift(sha: Sha, xs: seq<Hash>, h: nat, i: nat)
    requires |xs| > 1
    ensures Node(sha, NextLevel(sha, Padded(xs)), h, i) == Node(sha, xs, h + 1, i)
  {
    hide NextLevel, Padded, HalfUp, Pair;
    var up := NextLevel(sha, Padded(xs));
    WidthShift(|xs|, h);
    if i < Width(|up|, h) {
      NodePair(sha, xs, h, i);
      if h == 0 {
        PaddedAt(sha, xs, 2 * i);
        PaddedAt(sha, xs, 2 * i + 1);
      } else {
        NodePair(sha, up, h - 1, i);
        NodeShift(sha, xs, h - 1, 2 * i);
        NodeShift(sha, xs, h - 1, 2 * i + 1);
      }
    }
  }

  lemma HeightFacts(n: nat, h: nat)
    requires n > 0 && h < Height(n)
    ensures n > 1 && Offset(n, 0) == 0 && Width(n, 0) == n
    ensures h > 0 ==> h - 1 < Height(HalfUp(n))
  {
  }

  lemma HeightStep(n: nat)
    requires n > 1
    ensures Height(n) == 1 + Height(HalfUp(n))
  {
  }

  lemma RootUnfold(sha: Sha, xs: seq<Hash>)
    requires |xs| > 1
    ensures Root(sha, xs) == Root(sha, NextLevel(sha, Padded(xs)))
  {
    hide FlatTree, NextLevel, Padded;
    FlatTreeUnfold(sha, xs);
  }

  lemma Shrinks(sha: Sha, xs: seq<Hash>)
    requires |xs| > 1
    ensures 0 < |NextLevel(sha, Padded(xs))| < |xs|
    ensures |Padded(xs)| == 2 * |NextLevel(sha, Padded(xs))| && |NextLevel(sha, Padded(xs))| == HalfUp(|xs|)
  {
  }

  lemma RootOfOne(sha: Sha, xs: seq<Hash>)
    requires |xs| == 1
    ensures Root(sha, xs) == Node(sha, xs, 0, 0) && |FlatTree(sha, xs)| == Offset(1, 0) + 1 && Height(1) == 0
  {
  }

  /** Refinement: level h of the recursive null-padded tree lies contiguously at its offset, padding
      included, for every number of leaves. */
  lemma {:induction false} FlatTreeLayout(sha: Sha, xs: seq<Hash>, h: nat, i: nat)
    requires xs != [] && h < Height(|xs|) && i < 2 * HalfUp(Width(|xs|, h))
    ensures Offset(|xs|, h) + i < |FlatTree(sha, xs)|
    ensures FlatTree(sha, xs)[Offset(|xs|, h) + i] == Node(sha, xs, h, i)
    decreases |xs|
  {
    hide NextLevel, Padded, Pair, FlatTree, Node, Offset, Height;
    var p := Padded(xs);
    var up := NextLevel(sha, p);
    HeightFacts(|xs|, h);
    FlatTreeUnfold(sha, xs);
    if h == 0 {
      PaddedAt(sha, xs, i);
    } else {
      WidthShift(|xs|, h - 1);
      FlatTreeLayout(sha, up, h - 1, i);
      NodeShift(sha, xs, h - 1, i);
    }
  }

  /** The last element is the root of the recursive tree, and the array holds nothing else. */
  lemma {:induction false} RootIsTreeRoot(sha: Sha, xs: seq<Hash>)
    requires xs != []
    ensures Root(sha, xs) == Node(sha, xs, Height(|xs|), 0)
    ensures |FlatTree(sha, xs)| == Offset(|xs|, Height(|xs|)) + 1
    decreases |xs|
  {
    hide NextLevel, Padded, Pair, FlatTree, Node, Offset, HalfUp, Height, Root;
    if |xs| == 1 {
      RootOfOne(sha, xs);
    } else {
      FlatTreeUnfold(sha, xs);
      RootUnfold(sha, xs);
      var up := NextLevel(sha, Padded(xs));
      Shrinks(sha, xs);
      HeightStep(|xs|);
      RootIsTreeRoot(sha, up);
      NodeShift(sha, xs, Height(|up|), 0);
      WidthShift(|xs|, Height(|up|));
    }
  }

  // ----- The tree in plain words -----

  /** 2 to the power h. */
  function Pow2(h: nat): (w: nat)
    ensures w >= 1
  {
    if h == 0 then 1 else 2 * Pow2(h - 1)
  }

  /** Level h has a node for every begun group of 2^h leaves. */
  lemma {:induction false} WidthMeans(n: nat, h: nat, i: nat)
    ensures i < Width(n, h) <==> i * Pow2(h) < n
  {
    if h > 0 {
      hide HalfUp;
      WidthMeans(n, h - 1, 2 * i);
      HalfMeans(Width(n, h - 1), i);
      Doubled(i, Pow2(h - 1));
    }
  }

  lemma HalfMeans(n: nat, i: nat)
    ensures i < HalfUp(n) <==> 2 * i < n
  {
  }

  lemma Doubled(i: nat, w: nat)
    ensures 2 * i * w == i * (2 * w)
  {
  }

  predicate IsNull(h: Hash) {
    forall i :: 0 <= i < 32 ==> h[i] == 0
  }

  /** A node with leaves below it is the hash of its left child followed by its right child, on level 0
      the leaf itself; a node without any is 32 zero bytes. */
  lemma NodeMeans(sha: Sha, xs: seq<Hash>, h: nat, i: nat)
    ensures Node(sha, xs, h, i) ==
      if i * Pow2(h) >= |xs| then NULL_HASH
      else if h == 0 then xs[i]
      else sha(Node(sha, xs, h - 1, 2 * i) + Node(sha, xs, h - 1, 2 * i + 1))
    ensures IsNull(NULL_HASH)
  {
    WidthMeans(|xs|, h, i);
  }

  /** The root is the top node of the lowest tree that holds all leaves. */
  lemma RootMeans(sha: Sha, xs: seq<Hash>) returns (h: nat)
    requires xs != []
    ensures Root(sha, xs) == Node(sha, xs, h, 0)
    ensures |xs| <= Pow2(h) && (h > 0 ==> Pow2(h - 1) < |xs|)
  {
    h := Height(|xs|);
    RootIsTreeRoot(sha, xs);
    HeightMeans(|xs|);
  }

  lemma {:induction false} HeightMeans(n: nat)
    requires n > 0
    ensures var h := Height(n); n <= Pow2(h) && (h > 0 ==> Pow2(h - 1) < n)
    decreases n
  {
    if n > 1 {
      HeightMeans(HalfUp(n));
    }
  }

  // ----- Binding -----

  /** Inputs hashed for one level. */
  function LevelInputs(xs: seq<Hash>): set<Buffer>
    requires |xs| % 2 == 0
  {
    set i | 0 <= i < |xs| / 2 :: Join(xs[2 * i], xs[2 * i + 1])
  }

  /** Inputs hashed for the whole tree. */
  function TreeInputs(sha: Sha, xs: seq<Hash>): set<Buffer>
    requires xs != []
    decreases |xs|
  {
    if |xs| == 1 then {} else LevelInputs(Padded(xs)) + TreeInputs(sha, NextLevel(sha, Padded(xs)))
  }

  ghost predicate Clash(sha: Sha, a: set<Buffer>, b: set<Buffer>) {
    exists x, y :: x in a && y in b && Collide(sha, x, y)
  }

  predicate Collide(sha: Sha, x: Buffer, y: Buffer) {
    x != y && sha(x) == sha(y)
  }

  /** Equal next levels come from equal levels, or a pair of inputs collides. */
  lemma LevelBinding(sha: Sha, xs: seq<Hash>, ys: seq<Hash>)
    requires |xs| == |ys| && |xs| % 2 == 0 && NextLevel(sha, xs) == NextLevel(sha, ys)
    ensures xs == ys || Clash(sha, LevelInputs(xs), LevelInputs(ys))
  {
    if !Clash(sha, LevelInputs(xs), LevelInputs(ys)) {
      forall k | 0 <= k < |xs| ensures xs[k] == ys[k] {
        PairBinding(sha, xs, ys, k / 2);
      }
    }
  }

  lemma PairBinding(sha: Sha, xs: seq<Hash>, ys: seq<Hash>, i: nat)
    requires |xs| == |ys| && |xs| % 2 == 0 && i < |xs| / 2
    requires NextLevel(sha, xs) == NextLevel(sha, ys) && !Clash(sha, LevelInputs(xs), LevelInputs(ys))
    ensures xs[2 * i] == ys[2 * i] && xs[2 * i + 1] == ys[2 * i + 1]
  {
    var x, y := Join(xs[2 * i], xs[2 * i + 1]), Join(ys[2 * i], ys[2 * i + 1]);
    assert NextLevel(sha, xs)[i] == NextLevel(sha, ys)[i];
    assert x in LevelInputs(xs) && y in LevelInputs(ys);
    var collision := Collide(sha, x, y);
    assert xs[2 * i] == x[..32] && ys[2 * i] == y[..32];
    assert xs[2 * i + 1] == x[32..] && ys[2 * i + 1] == y[32..];
  }

  lemma ClashMonotone(sha: Sha, a: set<Buffer>, b: set<Buffer>, a': set<Buffer>, b': set<Buffer>)
    requires Clash(sha, a, b) && a <= a' && b <= b'
    ensures Clash(sha, a', b')
  {
  }

  lemma PaddedPrefix(xs: seq<Hash>)
    ensures Padded(xs)[..|xs|] == xs
  {
  }

  /** Two lists of the same length with the same root are the same list, or two inputs hashed in
      the two trees collide, whatever the height and the padding. */
  lemma {:induction false} RootBindsHashes(sha: Sha, xs: seq<Hash>, ys: seq<Hash>)
    requires |xs| == |ys| > 0 && Root(sha, xs) == Root(sha, ys)
    ensures xs == ys || Clash(sha, TreeInputs(sha, xs), TreeInputs(sha, ys))
    decreases |xs|
  {
    if |xs| > 1 {
      hide Clash, LevelInputs, FlatTree, NextLevel, Padded, Root, HalfUp;
      var p, q := Padded(xs), Padded(ys);
      var up, vp := NextLevel(sha, p), NextLevel(sha, q);
      RootUnfold(sha, xs);
      RootUnfold(sha, ys);
      RootBindsHashes(sha, up, vp);
      if up == vp {
        LevelBinding(sha, p, q);
        if p == q {
          PaddedPrefix(xs);
          PaddedPrefix(ys);
        } else {
          ClashMonotone(sha, LevelInputs(p), LevelInputs(q), TreeInputs(sha, xs), TreeInputs(sha, ys));
        }
      } else {
        ClashMonotone(sha, TreeInputs(sha, up), TreeInputs(sha, vp), TreeInputs(sha, xs), TreeInputs(sha, ys));
      }
    }
  }

  // ----- Lists of different lengths -----

  /** The null hash is an entry of the list or the hash of an input of its tree. */
  ghost predicate NullAppears(sha: Sha, xs: seq<Hash>)
    requires xs != []
  {
    NULL_HASH in xs || HashesToNull(sha, TreeInputs(sha, xs))
  }

  ghost predicate HashesToNull(sha: Sha, inputs: set<Buffer>) {
    exists x :: x in inputs && sha(x) == NULL_HASH
  }

  /** h is the hash of some of these inputs. */
  ghost predicate IsHashOf(sha: Sha, h: Hash, inputs: set<Buffer>) {
    exists x :: x in inputs && sha(x) == h
  }

  /** An entry of the first list is an inner node of the second one's tree. */
  ghost predicate LeafIsNode(sha: Sha, xs: seq<Hash>, ys: seq<Hash>)
    requires ys != []
  {
    exists i :: 0 <= i < |xs| && IsHashOf(sha, xs[i], TreeInputs(sha, ys))
  }

  lemma {:induction false} RootIsHashed(sha: Sha, xs: seq<Hash>)
    requires |xs| > 1
    ensures IsHashOf(sha, Root(sha, xs), TreeInputs(sha, xs))
    decreases |xs|
  {
    hide FlatTree, Root;
    var up := NextLevel(sha, Padded(xs));
    RootUnfold(sha, xs);
    if |up| == 1 {
      LevelIsHashed(sha, xs, 0);
      RootOfOne(sha, up);
      assert Node(sha, up, 0, 0) == up[0];
    } else {
      RootIsHashed(sha, up);
    }
  }

  /** Entry i of the next level is the hash of an input of this one. */
  lemma LevelIsHashed(sha: Sha, xs: seq<Hash>, i: nat)
    requires |xs| > 1 && i < |NextLevel(sha, Padded(xs))|
    ensures var x := Join(Padded(xs)[2 * i], Padded(xs)[2 * i + 1]);
      x in LevelInputs(Padded(xs)) && x in TreeInputs(sha, xs) && sha(x) == NextLevel(sha, Padded(xs))[i]
    ensures 2 * i < |xs| && Padded(xs)[2 * i] == xs[2 * i]
    ensures IsHashOf(sha, NextLevel(sha, Padded(xs))[i], TreeInputs(sha, xs))
  {
  }

  /** The inputs of a tree with their left children: entries of the list, or inner nodes. */
  lemma {:induction false} LeftChild(sha: Sha, xs: seq<Hash>, x: Buffer) returns (left: Hash)
    requires xs != [] && x in TreeInputs(sha, xs)
    ensures |x| == 64 && x[..32] == left
    ensures left in xs || IsHashOf(sha, left, TreeInputs(sha, xs))
    decreases |xs|
  {
    var p := Padded(xs);
    var up := NextLevel(sha, p);
    if x in LevelInputs(p) {
      var i :| 0 <= i < |p| / 2 && x == Join(p[2 * i], p[2 * i + 1]);
      left := p[2 * i];
      assert left == xs[2 * i];
    } else {
      left := LeftChild(sha, up, x);
      if left in up {
        var i :| 0 <= i < |up| && up[i] == left;
        LevelIsHashed(sha, xs, i);
      }
    }
  }

  /** The left child of an input above the leaves is an inner node. */
  lemma UpperLeftChild(sha: Sha, xs: seq<Hash>, x: Buffer) returns (left: Hash)
    requires |xs| > 1 && x in TreeInputs(sha, NextLevel(sha, Padded(xs)))
    ensures |x| == 64 && x[..32] == left && IsHashOf(sha, left, TreeInputs(sha, xs))
  {
    var up := NextLevel(sha, Padded(xs));
    left := LeftChild(sha, up, x);
    if left in up {
      var i :| 0 <= i < |up| && up[i] == left;
      LevelIsHashed(sha, xs, i);
    }
  }

  /** An entry of the next level that is an inner node of the other one's next level: then the two
      inputs collide, or they are one and its left half is an entry here and an inner node there. */
  lemma LeafIsNodeDown(sha: Sha, xs: seq<Hash>, ys: seq<Hash>)
    requires |xs| > 1 && |ys| > 1
    requires LeafIsNode(sha, NextLevel(sha, Padded(xs)), NextLevel(sha, Padded(ys)))
    ensures Clash(sha, TreeInputs(sha, xs), TreeInputs(sha, ys)) || LeafIsNode(sha, xs, ys)
  {
    hide TreeInputs, NextLevel, Padded, Clash;
    var up, vp := NextLevel(sha, Padded(xs)), NextLevel(sha, Padded(ys));
    var i :| 0 <= i < |up| && IsHashOf(sha, up[i], TreeInputs(sha, vp));
    var y :| y in TreeInputs(sha, vp) && sha(y) == up[i];
    LevelIsHashed(sha, xs, i);
    var x := Join(Padded(xs)[2 * i], Padded(xs)[2 * i + 1]);
    var left := UpperLeftChild(sha, ys, y);
    UpperInputs(sha, ys);
    if x == y {
      assert x[..32] == xs[2 * i];
      assert IsHashOf(sha, xs[2 * i], TreeInputs(sha, ys));
    } else {
      MakeClash(sha, TreeInputs(sha, xs), TreeInputs(sha, ys), x, y);
    }
  }

  lemma UpperInputs(sha: Sha, xs: seq<Hash>)
    requires |xs| > 1
    ensures TreeInputs(sha, NextLevel(sha, Padded(xs))) <= TreeInputs(sha, xs)
    ensures LevelInputs(Padded(xs)) <= TreeInputs(sha, xs)
  {
  }

  lemma MakeClash(sha: Sha, a: set<Buffer>, b: set<Buffer>, x: Buffer, y: Buffer)
    requires x in a && y in b && x != y && sha(x) == sha(y)
    ensures Clash(sha, a, b)
  {
    assert Collide(sha, x, y);
  }

  lemma ClashSymmetric(sha: Sha, a: set<Buffer>, b: set<Buffer>)
    requires Clash(sha, a, b)
    ensures Clash(sha, b, a)
  {
    var x, y :| x in a && y in b && Collide(sha, x, y);
    assert Collide(sha, y, x);
  }

  lemma NullDown(sha: Sha, xs: seq<Hash>)
    requires |xs| > 1 && NullAppears(sha, NextLevel(sha, Padded(xs)))
    ensures NullAppears(sha, xs)
  {
    hide TreeInputs, NextLevel, Padded;
    var up := NextLevel(sha, Padded(xs));
    UpperInputs(sha, xs);
    if NULL_HASH in up {
      var i :| 0 <= i < |up| && up[i] == NULL_HASH;
      LevelIsHashed(sha, xs, i);
    }
  }

  /** What two different lists with one root must show. */
  ghost predicate Confusable(sha: Sha, xs: seq<Hash>, ys: seq<Hash>)
    requires xs != [] && ys != []
  {
    || Clash(sha, TreeInputs(sha, xs), TreeInputs(sha, ys))
    || NullAppears(sha, xs) || NullAppears(sha, ys)
    || LeafIsNode(sha, xs, ys) || LeafIsNode(sha, ys, xs)
  }

  lemma ConfusableDown(sha: Sha, xs: seq<Hash>, ys: seq<Hash>)
    requires |xs| > 1 && |ys| > 1
    requires Confusable(sha, NextLevel(sha, Padded(xs)), NextLevel(sha, Padded(ys)))
    ensures Confusable(sha, xs, ys)
  {
    hide TreeInputs, NextLevel, Padded, Clash, NullAppears, LeafIsNode;
    var up, vp := NextLevel(sha, Padded(xs)), NextLevel(sha, Padded(ys));
    UpperInputs(sha, xs);
    UpperInputs(sha, ys);
    if Clash(sha, TreeInputs(sha, up), TreeInputs(sha, vp)) {
      ClashMonotone(sha, TreeInputs(sha, up), TreeInputs(sha, vp), TreeInputs(sha, xs), TreeInputs(sha, ys));
    } else if NullAppears(sha, up) {
      NullDown(sha, xs);
    } else if NullAppears(sha, vp) {
      NullDown(sha, ys);
    } else if LeafIsNode(sha, up, vp) {
      LeafIsNodeDown(sha, xs, ys);
    } else {
      LeafIsNodeDown(sha, ys, xs);
      if Clash(sha, TreeInputs(sha, ys), TreeInputs(sha, xs)) {
        ClashSymmetric(sha, TreeInputs(sha, ys), TreeInputs(sha, xs));
      }
    }
  }

  /** Equal padded lists are equal, or one of them ends in the null hash. */
  lemma PaddedEqual(sha: Sha, xs: seq<Hash>, ys: seq<Hash>)
    requires xs != [] && ys != [] && Padded(xs) == Padded(ys)
    ensures xs == ys || NULL_HASH in xs || NULL_HASH in ys
  {
    PaddedPrefix(xs);
    PaddedPrefix(ys);
    if |xs| < |ys| {
      assert ys[|ys| - 1] == NULL_HASH;
    } else if |ys| < |xs| {
      assert xs[|xs| - 1] == NULL_HASH;
    }
  }

  /** Two lists of any two lengths with one root are the same list, or two hashed inputs collide, or
      the null hash is an entry or a hashed value, or an entry of one list is an inner node over the
      other. */
  lemma {:induction false} RootBindsAnyLists(sha: Sha, xs: seq<Hash>, ys: seq<Hash>)
    requires xs != [] && ys != [] && Root(sha, xs) == Root(sha, ys)
    ensures xs == ys || Confusable(sha, xs, ys)
    decreases |xs|
  {
    if |xs| > 1 && |ys| > 1 {
      hide Clash, LevelInputs, TreeInputs, FlatTree, NextLevel, Padded, Root, HalfUp, NullAppears, LeafIsNode,
        Confusable;
      var p, q := Padded(xs), Padded(ys);
      var up, vp := NextLevel(sha, p), NextLevel(sha, q);
      RootUnfold(sha, xs);
      RootUnfold(sha, ys);
      Shrinks(sha, xs);
      Shrinks(sha, ys);
      RootBindsAnyLists(sha, up, vp);
      if up == vp {
        SameUpperLevel(sha, xs, ys);
      } else {
        ConfusableDown(sha, xs, ys);
      }
    } else if |xs| > 1 {
      RootIsHashed(sha, xs);
      RootOfOne(sha, ys);
      assert Root(sha, ys) == ys[0];
    } else if |ys| > 1 {
      RootIsHashed(sha, ys);
      RootOfOne(sha, xs);
      assert Root(sha, xs) == xs[0];
    } else {
      RootOfOne(sha, xs);
      RootOfOne(sha, ys);
    }
  }

  lemma SameUpperLevel(sha: Sha, xs: seq<Hash>, ys: seq<Hash>)
    requires |xs| > 1 && |ys| > 1 && NextLevel(sha, Padded(xs)) == NextLevel(sha, Padded(ys))
    ensures xs == ys || Confusable(sha, xs, ys)
  {
    hide TreeInputs, LevelInputs, NextLevel, Padded, Clash, LeafIsNode, HashesToNull;
    Shrinks(sha, xs);
    Shrinks(sha, ys);
    LevelBinding(sha, Padded(xs), Padded(ys));
    if Padded(xs) == Padded(ys) {
      PaddedEqual(sha, xs, ys);
    } else {
      UpperInputs(sha, xs);
      UpperInputs(sha, ys);
      ClashMonotone(sha, LevelInputs(Padded(xs)), LevelInputs(Padded(ys)), TreeInputs(sha, xs), TreeInputs(sha, ys));
    }
  }

  /** Both exceptions are real for bare lists. An odd list and the same list with a null hash
      appended have one root. */
  lemma PaddingIsInvisible(sha: Sha, xs: seq<Hash>)
    requires |xs| % 2 == 1 && |xs| > 1
    ensures Root(sha, xs) == Root(sha, xs + [NULL_HASH]) && xs != xs + [NULL_HASH]
  {
    assert Padded(xs) == Padded(xs + [NULL_HASH]);
  }

  /** And so have a list of two hashes and the list of their one parent. */
  lemma RootOfRoot(sha: Sha, a: Hash, b: Hash)
    ensures Root(sha, [a, b]) == Root(sha, [Pair(sha, a, b)])
  {
    var up := NextLevel(sha, Padded([a, b]));
    assert up == [Pair(sha, a, b)];
  }

  // ----- Blocks -----

  function LeafHash(sha: Sha, tx: Transaction): Hash {
    sha(Join(tx.hash, tx.txid))
  }

  /** `getTransactionHashes`. */
  function LeafHashes(sha: Sha, txs: seq<Transaction>): (hs: seq<Hash>)
    ensures hs != []
  {
    if txs == [] then [NULL_HASH]
    else seq(|txs|, i requires 0 <= i < |txs| => LeafHash(sha, txs[i]))
  }

  /** The leaves of a block: the hash of each transaction's hash followed by its id, in order, or one
      null hash. */
  lemma LeavesMean(sha: Sha, txs: seq<Transaction>)
    ensures txs == [] ==> LeafHashes(sha, txs) == [NULL_HASH]
    ensures txs != [] ==> |LeafHashes(sha, txs)| == |txs|
    ensures forall i :: 0 <= i < |txs| ==> LeafHashes(sha, txs)[i] == sha(txs[i].hash + txs[i].txid)
  {
  }

  function BlockInputs(sha: Sha, txs: seq<Transaction>): set<Buffer> {
    (set i | 0 <= i < |txs| :: Join(txs[i].hash, txs[i].txid)) + TreeInputs(sha, LeafHashes(sha, txs))
  }

  /** Two blocks with equally many transactions and one Merkle root carry the same hashes and ids
      in the same order, or inputs hashed for the two roots collide. */
  lemma RootBindsTransactions(sha: Sha, a: seq<Transaction>, b: seq<Transaction>)
    requires |a| == |b| && Root(sha, LeafHashes(sha, a)) == Root(sha, LeafHashes(sha, b))
    ensures a == b || Clash(sha, BlockInputs(sha, a), BlockInputs(sha, b))
  {
    if a != [] {
      hide TreeInputs, Root;
      var xs, ys := LeafHashes(sha, a), LeafHashes(sha, b);
      RootBindsHashes(sha, xs, ys);
      if xs != ys {
        ClashMonotone(sha, TreeInputs(sha, xs), TreeInputs(sha, ys), BlockInputs(sha, a), BlockInputs(sha, b));
      } else if !Clash(sha, BlockInputs(sha, a), BlockInputs(sha, b)) {
        forall i | 0 <= i < |a| ensures a[i] == b[i] {
          var x, y := Join(a[i].hash, a[i].txid), Join(b[i].hash, b[i].txid);
          assert xs[i] == ys[i];
          assert x in BlockInputs(sha, a) && y in BlockInputs(sha, b);
          var collision := Collide(sha, x, y);
          assert a[i].hash == x[..32] && b[i].hash == y[..32];
          assert a[i].txid == x[32..] && b[i].txid == y[32..];
        }
      }
    }
  }

  /** Some transaction's hash and id are the two halves of an inner node over the other block. */
  ghost predicate TransactionIsPair(sha: Sha, a: seq<Transaction>, b: seq<Transaction>) {
    exists i :: 0 <= i < |a| && Join(a[i].hash, a[i].txid) in TreeInputs(sha, LeafHashes(sha, b))
  }

  /** A leaf of one block that is an inner node of the other: its transaction is that node's pair,
      or the two inputs collide. */
  lemma LeafIsPair(sha: Sha, a: seq<Transaction>, b: seq<Transaction>)
    requires a != [] && LeafIsNode(sha, LeafHashes(sha, a), LeafHashes(sha, b))
    ensures TransactionIsPair(sha, a, b) || Clash(sha, BlockInputs(sha, a), BlockInputs(sha, b))
  {
    hide TreeInputs, Clash;
    var xs, inputs := LeafHashes(sha, a), TreeInputs(sha, LeafHashes(sha, b));
    var i :| 0 <= i < |xs| && IsHashOf(sha, xs[i], inputs);
    var y :| y in inputs && sha(y) == xs[i];
    var x := Join(a[i].hash, a[i].txid);
    assert x in BlockInputs(sha, a) && y in BlockInputs(sha, b);
    if x != y {
      MakeClash(sha, BlockInputs(sha, a), BlockInputs(sha, b), x, y);
    }
  }

  /** The null hash among leaves and inner nodes of a nonempty block is the hash of an input. */
  lemma NullIsHashed(sha: Sha, txs: seq<Transaction>)
    requires txs != [] && NullAppears(sha, LeafHashes(sha, txs))
    ensures HashesToNull(sha, BlockInputs(sha, txs))
  {
    hide TreeInputs;
    var xs := LeafHashes(sha, txs);
    if NULL_HASH in xs {
      var i :| 0 <= i < |xs| && xs[i] == NULL_HASH;
      assert Join(txs[i].hash, txs[i].txid) in BlockInputs(sha, txs);
    }
  }

  /** An empty block has the null hash for its root; sharing it, another block hashes to null. */
  lemma EmptyBlockRoot(sha: Sha, b: seq<Transaction>)
    requires b != [] && Root(sha, LeafHashes(sha, b)) == Root(sha, LeafHashes(sha, []))
    ensures HashesToNull(sha, BlockInputs(sha, b))
  {
    hide TreeInputs, Root;
    var ys := LeafHashes(sha, b);
    RootOfOne(sha, LeafHashes(sha, []));
    assert Root(sha, LeafHashes(sha, [])) == NULL_HASH;
    if |ys| == 1 {
      RootOfOne(sha, ys);
    } else {
      RootIsHashed(sha, ys);
    }
    NullIsHashed(sha, b);
  }

  /** What two different blocks with one Merkle root must show. */
  ghost predicate BlocksConfusable(sha: Sha, a: seq<Transaction>, b: seq<Transaction>) {
    || Clash(sha, BlockInputs(sha, a), BlockInputs(sha, b))
    || HashesToNull(sha, BlockInputs(sha, a)) || HashesToNull(sha, BlockInputs(sha, b))
    || TransactionIsPair(sha, a, b) || TransactionIsPair(sha, b, a)
  }

  /** Two blocks of any two sizes, one of them possibly empty, with one Merkle root carry the same
      transactions, or two inputs hashed for the roots collide, or one of them hashes to the null
      hash, or a transaction's hash and id are the two halves of an inner node over the other. */
  lemma RootBindsBlocks(sha: Sha, a: seq<Transaction>, b: seq<Transaction>)
    requires Root(sha, LeafHashes(sha, a)) == Root(sha, LeafHashes(sha, b))
    ensures a == b || BlocksConfusable(sha, a, b)
  {
    hide TreeInputs, Root, Clash, LeafHashes, BlockInputs, NullAppears, LeafIsNode, HashesToNull, TransactionIsPair;
    var xs, ys := LeafHashes(sha, a), LeafHashes(sha, b);
    if |a| == |b| {
      RootBindsTransactions(sha, a, b);
    } else if a == [] {
      EmptyBlockRoot(sha, b);
    } else if b == [] {
      EmptyBlockRoot(sha, a);
    } else {
      RootBindsAnyLists(sha, xs, ys);
      LeafCount(sha, a);
      LeafCount(sha, b);
      if Clash(sha, TreeInputs(sha, xs), TreeInputs(sha, ys)) {
        ClashMonotone(sha, TreeInputs(sha, xs), TreeInputs(sha, ys), BlockInputs(sha, a), BlockInputs(sha, b));
      } else if NullAppears(sha, xs) {
        NullIsHashed(sha, a);
      } else if NullAppears(sha, ys) {
        NullIsHashed(sha, b);
      } else if LeafIsNode(sha, xs, ys) {
        LeafIsPair(sha, a, b);
      } else {
        LeafIsPair(sha, b, a);
        if Clash(sha, BlockInputs(sha, b), BlockInputs(sha, a)) {
          ClashSymmetric(sha, BlockInputs(sha, b), BlockInputs(sha, a));
        }
      }
    }
  }

  lemma LeafCount(sha: Sha, txs: seq<Transaction>)
    requires txs != []
    ensures |LeafHashes(sha, txs)| == |txs| && TreeInputs(sha, LeafHashes(sha, txs)) <= BlockInputs(sha, txs)
  {
    hide TreeInputs;
  }

  lemma FlatTreeStep(sha: Sha, done: seq<Hash>, level: seq<Hash>)
    requires |level| > 1
    ensures done + FlatTree(sha, level) == done + Padded(level) + FlatTree(sha, NextLevel(sha, Padded(level)))
  {
    hide FlatTree, NextLevel, Padded;
    FlatTreeUnfold(sha, level);
    ConcatAssoc(done, Padded(level), FlatTree(sha, NextLevel(sha, Padded(level))));
  }

  lemma FlatTreeEnd(sha: Sha, level: seq<Hash>)
    requires |level| == 1
    ensures FlatTree(sha, level) == level
  {
  }

  class Block {
    const sha: Sha
    const headerRoot: Hash
    var transactions: seq<Transaction>

    constructor (sha: Sha, headerRoot: Hash, transactions: seq<Transaction>)
      ensures this.sha == sha && this.headerRoot == headerRoot && this.transactions == transactions
    {
      this.sha, this.headerRoot, this.transactions := sha, headerRoot, transactions;
    }

    method GetTransactionHashes() returns (hashes: seq<Hash>)
      ensures hashes == LeafHashes(sha, transactions)
    {
      hashes := [];
      if |transactions| == 0 {
        return [NULL_HASH];
      }
      for t := 0 to |transactions|
        invariant |hashes| == t
        invariant forall i :: 0 <= i < t ==> hashes[i] == LeafHash(sha, transactions[i])
      {
        hashes := hashes + [sha(Join(transactions[t].hash, transactions[t].txid))];
      }
    }

    /** Hashes the level of even length `size` that starts at j and pushes the results. */
    method PushLevel(tree: seq<Hash>, j: nat, size: nat) returns (r: seq<Hash>)
      requires size % 2 == 0 && j + size == |tree|
      ensures r == tree + NextLevel(sha, tree[j..])
    {
      r := tree;
      var i := 0;
      ghost var level := tree[j..];
      while i < size
        invariant i % 2 == 0 && i <= size
        invariant r == tree + NextLevel(sha, level)[..i / 2]
      {
        assert level[i] == r[j + i] && level[i + 1] == r[j + i + 1];
        var next := sha(Join(r[j + i], r[j + i + 1]));
        assert NextLevel(sha, level)[i / 2] == next;
        assert NextLevel(sha, level)[..i / 2 + 1] == NextLevel(sha, level)[..i / 2] + [next];
        r := r + [next];
        i := i + 2;
      }
      assert NextLevel(sha, level)[..i / 2] == NextLevel(sha, level);
    }

    /** The loop with running offset j; `size` is bumped inside the body when a level is odd. */
    method GetMerkleTree() returns (tree: seq<Hash>)
      ensures tree == FlatTree(sha, LeafHashes(sha, transactions))
    {
      hide NextLevel, LeafHashes, FlatTree;
      tree := GetTransactionHashes();
      ghost var leaves := tree;
      var j, size := 0, |tree|;
      assert tree[0..] == tree && tree[..0] + FlatTree(sha, tree) == FlatTree(sha, tree);
      while size > 1
        invariant 0 < size && j + size == |tree|
        invariant FlatTree(sha, leaves) == tree[..j] + FlatTree(sha, tree[j..])
        decreases size
      {
        ghost var level, done := tree[j..], tree[..j];
        if size % 2 == 1 {
          tree := tree + [NULL_HASH];
          size := size + 1;
        }
        assert tree[j..] == Padded(level) && tree[..j] == done;
        tree := PushLevel(tree, j, size);
        FlatTreeStep(sha, done, level);
        j := j + size;
        assert tree[..j] == done + Padded(level) && tree[j..] == NextLevel(sha, Padded(level));
        size := size / 2;
      }
      FlatTreeEnd(sha, tree[j..]);
      assert tree[..j] + tree[j..] == tree;
    }

    method GetMerkleRoot() returns (root: Hash)
      ensures root == Root(sha, LeafHashes(sha, transactions))
      ensures root == Node(sha, LeafHashes(sha, transactions),
                           Height(|LeafHashes(sha, transactions)|), 0)
    {
      var tree := GetMerkleTree();
      RootIsTreeRoot(sha, LeafHashes(sha, transactions));
      root := tree[|tree| - 1];
    }

    /** Compares both roots as integers, which for 32-byte buffers is equality. */
    method ValidMerkleRoot() returns (ok: bool)
      ensures ok <==> headerRoot == Root(sha, LeafHashes(sha, transactions))
    {
      var root := GetMerkleRoot();
      var h, c := FromBE(headerRoot), FromBE(root);
      FromBEInverse(headerRoot);
      FromBEInverse(root);
      ok := h == c;
    }
  }
}
