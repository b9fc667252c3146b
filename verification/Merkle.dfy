/** Merkle trees: padding and the eager tree, the prover's memoised tree and its
    proofs, and the verifier's fold. The digest function is arbitrary. */
module Merkle {
  import opened Arithmetic

  /** A digest; the empty one marks a node not yet computed. */
  type Digest = seq<int>

  /** The keyed hash of a tree: of two digests, and of a padding index. */
  datatype Contract = Contract(pair: (Digest, Digest) -> Digest, index: nat -> Digest) {
    /** No hash value is the empty digest. */
    ghost predicate NeverEmpty() {
      (forall a: Digest, b: Digest :: pair(a, b) != []) && (forall i: nat :: index(i) != [])
    }

    /** No two different pairs share a hash value. */
    ghost predicate Injective() {
      forall a: Digest, b: Digest, c: Digest, d: Digest ::
        pair(a, b) == pair(c, d) ==> a == c && b == d
    }
  }

  datatype HashDirect = HashDirect(node: Digest, path: nat)

  // ---------- powers of two ----------

  /** The bitwise and of two numbers. */
  function And(a: nat, b: nat): nat {
    if a == 0 then 0 else a % 2 * (b % 2) + 2 * And(a / 2, b / 2)
  }

  predicate PowerOfTwo(x: nat) {
    x != 0 && And(x, x - 1) == 0
  }

  /** The exponent field of x as a double: the position of its highest bit. */
  function Log2(x: nat): nat
    requires x > 0
  {
    NumBits(x) - 1
  }

  function NextPowerOfTwo(x: nat): nat
    requires x > 0
  {
    if PowerOfTwo(x) then x else Pow2(Log2(x) + 1)
  }

  lemma {:induction false} AndSelf(x: nat)
    ensures And(x, x) == x
  {
    if x > 0 {
      AndSelf(x / 2);
    }
  }

  /** Clearing the lowest set bit leaves nothing exactly for the powers of two. */
  lemma {:induction false} PowerOfTwoIff(x: nat)
    requires x > 0
    ensures PowerOfTwo(x) <==> x == Pow2(Log2(x))
  {
    if x == 1 {
      assert And(1, 0) == 0;
    } else if x % 2 == 1 {
      AndSelf(x / 2);
      assert (x - 1) / 2 == x / 2;
    } else {
      PowerOfTwoIff(x / 2);
      assert (x - 1) / 2 == x / 2 - 1;
      assert And(x, x - 1) == 2 * And(x / 2, x / 2 - 1);
    }
  }

  /** The padded size is the smallest power of two that holds x leaves, and its
      logarithm is exact. */
  lemma NextPowerOfTwoIs(x: nat)
    requires x > 0
    ensures NextPowerOfTwo(x) == Pow2(Log2(NextPowerOfTwo(x)))
    ensures x <= NextPowerOfTwo(x) < 2 * x
  {
    PowerOfTwoIff(x);
    NumBitsBound(x);
    NumBitsPow2(Log2(x) + 1);
  }

  lemma {:induction false} NumBitsPow2(k: nat)
    ensures NumBits(Pow2(k)) == k + 1
  {
    if k > 0 {
      NumBitsPow2(k - 1);
    }
  }

  // ---------- the tree ----------

  /** A padded leaf list of a tree of height h. */
  ghost predicate Padded(leaves: seq<Digest>, h: nat) {
    |leaves| == Pow2(h)
  }

  /** The node at an index of the tree stored level by level, leaves last. */
  function NodeAt(c: Contract, leaves: seq<Digest>, index: nat): Digest
    requires index < 2 * |leaves| - 1
    decreases 2 * |leaves| - index
  {
    if index >= |leaves| - 1 then leaves[index - (|leaves| - 1)]
    else c.pair(NodeAt(c, leaves, 2 * index + 1), NodeAt(c, leaves, 2 * index + 2))
  }

  /** The root as it is defined for Merkle trees: of one leaf the leaf, of more the
      hash of the roots of both halves. */
  function Root(c: Contract, leaves: seq<Digest>): Digest
    requires |leaves| > 0
  {
    if |leaves| == 1 then leaves[0]
    else c.pair(Root(c, leaves[..|leaves| / 2]), Root(c, leaves[|leaves| / 2..]))
  }

  lemma NodeAtStep(c: Contract, leaves: seq<Digest>, index: nat)
    requires index < 2 * |leaves| - 1
    ensures |leaves| - 1 <= index ==> NodeAt(c, leaves, index) == leaves[index - (|leaves| - 1)]
    ensures index < |leaves| - 1 ==>
      NodeAt(c, leaves, index) == c.pair(NodeAt(c, leaves, 2 * index + 1), NodeAt(c, leaves, 2 * index + 2))
  {
  }

  /** The tree index of node j of level d. */
  function Index(d: nat, j: nat): nat {
    Pow2(d) - 1 + j
  }

  lemma IndexFits(h: nat, d: nat, j: nat)
    requires d <= h && j < Pow2(d)
    ensures Index(d, j) < 2 * Pow2(h) - 1
    ensures d < h ==> Index(d, j) < Pow2(h) - 1
    ensures Index(d + 1, 2 * j) == 2 * Index(d, j) + 1
    ensures Index(d + 1, 2 * j + 1) == 2 * Index(d, j) + 2
  {
    if d < h {
      Pow2Mono(d + 1, h);
    }
  }

  /** Node j of level d. */
  function Node(c: Contract, leaves: seq<Digest>, h: nat, d: nat, j: nat): Digest
    requires Padded(leaves, h) && d <= h && j < Pow2(d)
  {
    IndexFits(h, d, j);
    NodeAt(c, leaves, Index(d, j))
  }

  lemma NodeStep(c: Contract, leaves: seq<Digest>, h: nat, d: nat, j: nat)
    requires Padded(leaves, h) && d < h && j < Pow2(d)
    ensures 2 * j + 1 < Pow2(d + 1)
    ensures Node(c, leaves, h, d, j)
         == c.pair(Node(c, leaves, h, d + 1, 2 * j), Node(c, leaves, h, d + 1, 2 * j + 1))
  {
    IndexFits(h, d, j);
    assert Pow2(d + 1) == 2 * Pow2(d);
    hide Pow2;
  }

  lemma NodeLeaf(c: Contract, leaves: seq<Digest>, h: nat, j: nat)
    requires Padded(leaves, h) && j < Pow2(h)
    ensures Node(c, leaves, h, h, j) == leaves[j]
  {
    hide Pow2;
  }

  lemma RangeFits(h: nat, d: nat, j: nat)
    requires d <= h && j < Pow2(d)
    ensures 0 <= j * Pow2(h - d) && j * Pow2(h - d) + Pow2(h - d) <= Pow2(h)
  {
    Pow2Add(d, h - d);
    MulMono(j + 1, Pow2(d), Pow2(h - d));
    Distribute(j, Pow2(h - d));
  }

  lemma Distribute(j: int, p: int)
    ensures (j + 1) * p == j * p + p
  {
  }

  lemma Halves(j: nat, p: nat)
    ensures 2 * j * p == j * (2 * p) && (2 * j + 1) * p == j * (2 * p) + p
  {
  }

  /** The leaves below node j of level d. */
  function Below(leaves: seq<Digest>, h: nat, d: nat, j: nat): (s: seq<Digest>)
    requires Padded(leaves, h) && d <= h && j < Pow2(d)
    ensures |s| == Pow2(h - d)
  {
    RangeFits(h, d, j);
    leaves[j * Pow2(h - d)..j * Pow2(h - d) + Pow2(h - d)]
  }

  lemma BelowHalves(leaves: seq<Digest>, h: nat, d: nat, j: nat)
    requires Padded(leaves, h) && d < h && j < Pow2(d) && 2 * j + 1 < Pow2(d + 1)
    ensures Below(leaves, h, d + 1, 2 * j) == Below(leaves, h, d, j)[..Pow2(h - d) / 2]
    ensures Below(leaves, h, d + 1, 2 * j + 1) == Below(leaves, h, d, j)[Pow2(h - d) / 2..]
  {
    var p := Pow2(h - d - 1);
    assert Pow2(h - d) == 2 * p;
    Halves(j, p);
    RangeFits(h, d, j);
    SliceHalves(leaves, j * (2 * p), p);
    hide Pow2;
  }

  lemma SliceHalves<T>(s: seq<T>, a: nat, p: nat)
    requires a + 2 * p <= |s|
    ensures s[a..a + 2 * p][..p] == s[a..a + p] && s[a..a + 2 * p][p..] == s[a + p..a + p + p]
  {
  }

  /** Each node of the array tree is the Merkle root of the leaves below it. */
  lemma {:induction false} NodeIsRoot(c: Contract, leaves: seq<Digest>, h: nat, d: nat, j: nat)
    requires Padded(leaves, h) && d <= h && j < Pow2(d)
    ensures Node(c, leaves, h, d, j) == Root(c, Below(leaves, h, d, j))
    decreases h - d
  {
    if d == h {
      NodeLeaf(c, leaves, h, j);
      assert Pow2(h - d) == 1;
      assert Below(leaves, h, d, j) == [leaves[j]];
    } else {
      NodeStep(c, leaves, h, d, j);
      NodeIsRoot(c, leaves, h, d + 1, 2 * j);
      NodeIsRoot(c, leaves, h, d + 1, 2 * j + 1);
      BelowHalves(leaves, h, d, j);
      assert Pow2(h - d) == 2 * Pow2(h - d - 1);
      hide Node, Below, Pow2;
      assert |Below(leaves, h, d, j)| == Pow2(h - d);
    }
  }

  /** The root of the array tree is the Merkle root of all leaves. */
  lemma TopIsRoot(c: Contract, leaves: seq<Digest>, h: nat)
    requires Padded(leaves, h)
    ensures NodeAt(c, leaves, 0) == Root(c, leaves)
  {
    NodeIsRoot(c, leaves, h, 0, 0);
    assert Below(leaves, h, 0, 0) == leaves;
    assert Index(0, 0) == 0;
  }

  /** The leaf list after padding: the blocks, then hashes of the missing indices. */
  function PaddedLeaves(c: Contract, blocks: seq<Digest>): (leaves: seq<Digest>)
    requires |blocks| > 0
    ensures |leaves| == NextPowerOfTwo(|blocks|) && |blocks| <= |leaves|
    ensures forall i :: 0 <= i < |blocks| ==> leaves[i] == blocks[i]
    ensures forall i :: |blocks| <= i < |leaves| ==> leaves[i] == c.index(i)
  {
    NextPowerOfTwoIs(|blocks|);
    blocks + seq(NextPowerOfTwo(|blocks|) - |blocks|, i requires 0 <= i => c.index(|blocks| + i))
  }

  class MerkleTree {
    const contract: Contract
    const leaves: seq<Digest>
    const height: nat
    const padStart: nat
    const root: Digest

    ghost predicate Valid() {
      && Padded(leaves, height)
      && root == Root(contract, leaves)
    }

    constructor (c: Contract, blocks: seq<Digest>)
      requires |blocks| > 0
      ensures Valid() && contract == c && padStart == |blocks| && padStart <= |leaves| < 2 * padStart
      ensures leaves == PaddedLeaves(c, blocks)
      ensures forall i :: 0 <= i < |leaves| ==> leaves[i] == if i < |blocks| then blocks[i] else c.index(i)
    {
      NextPowerOfTwoIs(|blocks|);
      var chunks, h := Pad(c, blocks);
      var top := MakeRoot(c, chunks, h);
      contract, leaves, height, padStart, root := c, chunks, h, |blocks|, top;
      TopIsRoot(c, chunks, h);
    }

    function GetNumLeaves(): (n: nat)
      ensures Valid() ==> n == |leaves|
    {
      Pow2(height)
    }
  }

  method Pad(c: Contract, blocks: seq<Digest>) returns (chunks: seq<Digest>, height: nat)
    requires |blocks| > 0
    ensures chunks == PaddedLeaves(c, blocks) && Padded(chunks, height) && |blocks| <= |chunks| < 2 * |blocks|
    ensures forall i :: 0 <= i < |chunks| ==> chunks[i] == if i < |blocks| then blocks[i] else c.index(i)
  {
    NextPowerOfTwoIs(|blocks|);
    var nextTwoPow := NextPowerOfTwo(|blocks|);
    hide NextPowerOfTwo;
    height := Log2(nextTwoPow);
    chunks := [];
    var i := 0;
    while i < nextTwoPow
      invariant 0 <= i <= nextTwoPow && |chunks| == i
      invariant forall k :: 0 <= k < i ==> chunks[k] == if k < |blocks| then blocks[k] else c.index(k)
    {
      if i < |blocks| {
        chunks := chunks + [blocks[i]];
      } else {
        chunks := chunks + [c.index(i)];
      }
      i := i + 1;
    }
  }

  /** The eager tree: leaves last, then every inner node from the last one down. */
  method MakeRoot(c: Contract, chunks: seq<Digest>, height: nat) returns (root: Digest)
    requires Padded(chunks, height)
    ensures root == NodeAt(c, chunks, 0)
  {
    var treeSize := 2 * Pow2(height) - 1;
    hide Pow2, NodeAt;
    var tree := new Digest[treeSize](_ => []);
    var x, y := treeSize - 1, Pow2(height) - 1;
    while y >= 0
      invariant -1 <= y < |chunks| && x == y + |chunks| - 1
      invariant forall k :: x < k < treeSize ==> tree[k] == NodeAt(c, chunks, k)
    {
      NodeAtStep(c, chunks, x);
      tree[x] := chunks[y];
      x, y := x - 1, y - 1;
    }
    x := treeSize - 1 - Pow2(height);
    while x >= 0
      invariant -1 <= x < |chunks| - 1
      invariant forall k :: x < k < treeSize ==> tree[k] == NodeAt(c, chunks, k)
    {
      NodeAtStep(c, chunks, x);
      tree[x] := c.pair(tree[2 * x + 1], tree[2 * x + 2]);
      x := x - 1;
    }
    root := tree[0];
  }

  // ---------- the prover ----------

  /** A memo holds at each index nothing or the node of the tree, and all leaves. */
  ghost predicate Memo(c: Contract, leaves: seq<Digest>, m: seq<Digest>) {
    && |m| == 2 * |leaves| - 1
    && (forall i :: 0 <= i < |m| ==> m[i] == [] || m[i] == NodeAt(c, leaves, i))
    && (forall i :: |leaves| - 1 <= i < |m| ==> m[i] != [])
  }

  function Flip(path: nat): nat {
    if path % 2 == 0 then path + 1 else path - 1
  }

  /** The siblings from level d up to level 1 of the path at node j. */
  function Siblings(c: Contract, leaves: seq<Digest>, h: nat, d: nat, j: nat): (s: seq<HashDirect>)
    requires Padded(leaves, h) && d <= h && j < Pow2(d)
    ensures |s| == d
    decreases d
  {
    if d == 0 then []
    else
      [HashDirect(Node(c, leaves, h, d, Flip(j)), Flip(j))] + Siblings(c, leaves, h, d - 1, j / 2)
  }

  lemma SiblingsStep(c: Contract, leaves: seq<Digest>, h: nat, d: nat, j: nat)
    requires Padded(leaves, h) && 0 < d <= h && j < Pow2(d)
    ensures Flip(j) < Pow2(d) && j / 2 < Pow2(d - 1) && Flip(j) / 2 == j / 2
    ensures Index(d, Flip(j)) < 2 * |leaves| - 1
    ensures Siblings(c, leaves, h, d, j)
         == [HashDirect(NodeAt(c, leaves, Index(d, Flip(j))), Flip(j))]
          + Siblings(c, leaves, h, d - 1, j / 2)
  {
    assert Pow2(d) == 2 * Pow2(d - 1);
    IndexFits(h, d, Flip(j));
    hide Pow2, NodeAt;
  }

  lemma Appended(proof: seq<HashDirect>, s: HashDirect, rest: seq<HashDirect>)
    ensures proof + ([s] + rest) == proof + [s] + rest
  {
  }

  lemma MemoSize(c: Contract, leaves: seq<Digest>, m: seq<Digest>)
    requires Memo(c, leaves, m)
    ensures |m| == 2 * |leaves| - 1
  {
    hide NodeAt;
  }

  lemma SiblingsEnd(c: Contract, leaves: seq<Digest>, h: nat, j: nat)
    requires Padded(leaves, h) && j < Pow2(0)
    ensures Siblings(c, leaves, h, 0, j) == []
  {
  }

  /** The proof of a leaf: the leaf itself, then its siblings on the way up. */
  function ProofOf(c: Contract, leaves: seq<Digest>, h: nat, challenge: nat): (s: seq<HashDirect>)
    requires Padded(leaves, h) && challenge < Pow2(h)
    ensures |s| == h + 1
  {
    [HashDirect(leaves[challenge], challenge)] + Siblings(c, leaves, h, h, challenge)
  }

  class MerkleProver {
    const contract: Contract
    const tree: MerkleTree

    ghost predicate Valid() {
      tree.Valid() && tree.contract == contract && contract.NeverEmpty()
      && forall i :: 0 <= i < |tree.leaves| ==> tree.leaves[i] != []
    }

    constructor (c: Contract, hashBlocks: seq<Digest>)
      requires |hashBlocks| > 0 && c.NeverEmpty()
      requires forall i :: 0 <= i < |hashBlocks| ==> hashBlocks[i] != []
      ensures Valid() && contract == c && fresh(tree) && tree.leaves == PaddedLeaves(c, hashBlocks)
      ensures forall i :: 0 <= i < |tree.leaves| ==>
        tree.leaves[i] == if i < |hashBlocks| then hashBlocks[i] else c.index(i)
    {
      contract := c;
      tree := new MerkleTree(c, hashBlocks);
    }

    function GetNumBlocks(): (n: nat)
      ensures Valid() ==> n == |tree.leaves|
    {
      tree.GetNumLeaves()
    }

    /** The node at an index, computed where the memo lacks it and then kept. */
    method ComputeSubTree(index: nat, memo: array<Digest>) returns (d: Digest)
      requires Valid() && Memo(contract, tree.leaves, memo[..]) && index < memo.Length
      modifies memo
      ensures Memo(contract, tree.leaves, memo[..])
      ensures d == NodeAt(contract, tree.leaves, index)
      decreases memo.Length - index
    {
      if memo[index] == [] {
        var left := ComputeSubTree(index * 2 + 1, memo);
        var right := ComputeSubTree(index * 2 + 2, memo);
        memo[index] := contract.pair(left, right);
      }
      return memo[index];
    }

    method GenerateProof(challenge: nat, memo: array<Digest>) returns (proof: seq<HashDirect>)
      requires Valid() && Memo(contract, tree.leaves, memo[..]) && challenge < GetNumBlocks()
      modifies memo
      ensures Memo(contract, tree.leaves, memo[..])
      ensures proof == ProofOf(contract, tree.leaves, tree.height, challenge)
    {
      var path: nat := challenge;
      NodeAtStep(contract, tree.leaves, GetNumBlocks() - 1 + challenge);
      ghost var leaves, h := tree.leaves, tree.height;
      proof := [HashDirect(memo[GetNumBlocks() - 1 + challenge], path)];
      var height := tree.height;
      hide Siblings, Flip, NodeAt, Pow2, Memo, ProofOf;
      while height >= 1
        invariant 0 <= height <= tree.height && path < Pow2(height)
        invariant Memo(contract, tree.leaves, memo[..])
        invariant ProofOf(contract, leaves, h, challenge) == proof + Siblings(contract, leaves, h, height, path)
      {
        var sibling, parent := NextSibling(path, height, memo);
        Appended(proof, sibling, Siblings(contract, leaves, h, height - 1, parent));
        proof := proof + [sibling];
        path := parent;
        height := height - 1;
      }
      SiblingsEnd(contract, leaves, h, path);
    }

    /** The sibling of node `path` of a level, and the node's parent. */
    method NextSibling(path: nat, height: nat, memo: array<Digest>) returns (sibling: HashDirect, parent: nat)
      requires Valid() && Memo(contract, tree.leaves, memo[..]) && 1 <= height <= tree.height && path < Pow2(height)
      modifies memo
      ensures Memo(contract, tree.leaves, memo[..]) && parent < Pow2(height - 1)
      ensures Siblings(contract, tree.leaves, tree.height, height, path)
           == [sibling] + Siblings(contract, tree.leaves, tree.height, height - 1, parent)
    {
      MemoSize(contract, tree.leaves, memo[..]);
      hide Siblings, Flip, NodeAt, Pow2, Memo;
      SiblingsStep(contract, tree.leaves, tree.height, height, path);
      var flipped := Flip(path);
      var index := Pow2(height) - 1 + flipped;
      var node := ComputeSubTree(index, memo);
      sibling, parent := HashDirect(node, flipped), flipped / 2;
    }

    method GenerateProofs(challenges: seq<nat>) returns (proofs: seq<seq<HashDirect>>)
      requires Valid() && forall i :: 0 <= i < |challenges| ==> challenges[i] < Pow2(tree.height)
      ensures |proofs| == |challenges|
      ensures forall i :: 0 <= i < |challenges| ==>
        proofs[i] == ProofOf(contract, tree.leaves, tree.height, challenges[i])
    {
      var treeSize := 2 * GetNumBlocks() - 1;
      var memo := new Digest[treeSize](_ => []);
      var x, y := treeSize - 1, GetNumBlocks() - 1;
      while y >= 0
        invariant -1 <= y < |tree.leaves| && x == y + |tree.leaves| - 1
        invariant forall k :: 0 <= k <= x ==> memo[k] == []
        invariant forall k :: x < k < treeSize ==> memo[k] == tree.leaves[k - (|tree.leaves| - 1)]
      {
        memo[x] := tree.leaves[y];
        x, y := x - 1, y - 1;
      }
      proofs := [];
      x := 0;
      while x < |challenges|
        invariant 0 <= x <= |challenges| && |proofs| == x
        invariant Memo(contract, tree.leaves, memo[..])
        invariant forall i :: 0 <= i < x ==>
          proofs[i] == ProofOf(contract, tree.leaves, tree.height, challenges[i])
      {
        var proof := GenerateProof(challenges[x], memo);
        proofs := proofs + [proof];
        x := x + 1;
      }
    }
  }

  // ---------- the verifier ----------

  /** The parent of a node and its sibling: the sibling's last path bit says
      whether it stands on the right. */
  function Combine(c: Contract, node: Digest, sibling: HashDirect): Digest {
    if sibling.path % 2 == 1 then c.pair(node, sibling.node) else c.pair(sibling.node, node)
  }

  function Fold(c: Contract, node: Digest, siblings: seq<HashDirect>): Digest
    decreases |siblings|
  {
    if |siblings| == 0 then node else Fold(c, Combine(c, node, siblings[0]), siblings[1..])
  }

  predicate Accepts(c: Contract, root: Digest, proof: seq<HashDirect>)
    requires |proof| > 0
  {
    Fold(c, proof[0].node, proof[1..]) == root
  }

  /** The fold from place i of a proof goes on with the parent at place i + 1. */
  lemma FoldFrom(c: Contract, node: Digest, proof: seq<HashDirect>, i: nat)
    requires i + 1 < |proof|
    ensures Fold(c, node, proof[i + 1..]) == Fold(c, Combine(c, node, proof[i + 1]), proof[i + 2..])
  {
    assert proof[i + 1..][0] == proof[i + 1] && proof[i + 1..][1..] == proof[i + 2..];
    hide Combine;
  }

  lemma FoldEnd(c: Contract, proof: seq<HashDirect>)
    ensures forall node :: Fold(c, node, proof[|proof|..]) == node
  {
  }

  class MerkleVerifier {
    const contract: Contract
    const root: Digest
    const numBlocks: nat

    constructor (root: Digest, numLeaves: nat, c: Contract)
      ensures this.root == root && numBlocks == numLeaves && contract == c
    {
      this.root, numBlocks, contract := root, numLeaves, c;
    }

    /** Folds the proof in place: each sibling is overwritten by the parent. */
    method CheckProof(proof: array<HashDirect>) returns (ok: bool)
      requires proof.Length > 0
      modifies proof
      ensures ok <==> Accepts(contract, root, old(proof[..]))
    {
      if proof.Length == 1 {
        return proof[0].node == root;
      }
      ghost var start := proof[..];
      FoldEnd(contract, start);
      hide Fold;
      var i := 0;
      while i < proof.Length - 1
        invariant 0 <= i < proof.Length
        invariant forall k :: i < k < proof.Length ==> proof[k] == start[k]
        invariant Fold(contract, proof[i].node, start[i + 1..]) == Fold(contract, start[0].node, start[1..])
      {
        FoldFrom(contract, proof[i].node, start, i);
        if proof[i + 1].path % 2 == 1 {
          proof[i + 1] := proof[i + 1].(node := contract.pair(proof[i].node, proof[i + 1].node));
        } else {
          proof[i + 1] := proof[i + 1].(node := contract.pair(proof[i + 1].node, proof[i].node));
        }
        i := i + 1;
      }
      return proof[proof.Length - 1].node == root;
    }

    /** Checks a copy of each proof until one fails. There must be a first proof. */
    method VerifyProofs(proofs: seq<seq<HashDirect>>) returns (valid: bool)
      requires |proofs| > 0 && forall i :: 0 <= i < |proofs| ==> |proofs[i]| > 0
      ensures valid <==> forall i :: 0 <= i < |proofs| ==> Accepts(contract, root, proofs[i])
    {
      hide Accepts;
      valid := true;
      var i := 0;
      while i == 0 || (valid && i < |proofs|)
        invariant 0 <= i <= |proofs|
        invariant valid <==> forall k :: 0 <= k < i ==> Accepts(contract, root, proofs[k])
        decreases |proofs| - i
      {
        var p := proofs[i];
        var ith := new HashDirect[|p|](k requires 0 <= k < |p| => p[k]);
        assert ith[..] == p;
        valid := CheckProof(ith);
        i := i + 1;
      }
    }
  }

  // ---------- completeness ----------

  /** The sibling on the path of node j of level d folds with it to their parent. */
  lemma CombineSibling(c: Contract, leaves: seq<Digest>, h: nat, d: nat, j: nat)
    requires Padded(leaves, h) && 0 < d <= h && j < Pow2(d) && Flip(j) < Pow2(d) && j / 2 < Pow2(d - 1)
    ensures Combine(c, Node(c, leaves, h, d, j), HashDirect(Node(c, leaves, h, d, Flip(j)), Flip(j)))
         == Node(c, leaves, h, d - 1, j / 2)
  {
    hide Node, Pow2;
    NodeStep(c, leaves, h, d - 1, j / 2);
  }

  /** Each prefix of the siblings folds to the node above. */
  lemma {:induction false} SiblingsFold(c: Contract, leaves: seq<Digest>, h: nat, d: nat, j: nat)
    requires Padded(leaves, h) && d <= h && j < Pow2(d)
    ensures Fold(c, Node(c, leaves, h, d, j), Siblings(c, leaves, h, d, j)) == NodeAt(c, leaves, 0)
    decreases d
  {
    if d == 0 {
      assert Pow2(0) == 1;
    } else {
      SiblingsStep(c, leaves, h, d, j);
      CombineSibling(c, leaves, h, d, j);
      SiblingsFold(c, leaves, h, d - 1, j / 2);
      FoldStep(c, Node(c, leaves, h, d, j), Siblings(c, leaves, h, d, j));
      hide Fold, Combine, Pow2, NodeAt;
    }
  }

  lemma FoldStep(c: Contract, node: Digest, siblings: seq<HashDirect>)
    requires |siblings| > 0
    ensures Fold(c, node, siblings) == Fold(c, Combine(c, node, siblings[0]), siblings[1..])
  {
  }

  /** Completeness: the proof of every leaf is accepted under the tree's root. */
  lemma ProofsAccepted(c: Contract, leaves: seq<Digest>, h: nat, challenge: nat)
    requires Padded(leaves, h) && challenge < Pow2(h)
    ensures Accepts(c, Root(c, leaves), ProofOf(c, leaves, h, challenge))
  {
    NodeLeaf(c, leaves, h, challenge);
    SiblingsFold(c, leaves, h, h, challenge);
    TopIsRoot(c, leaves, h);
    var p := ProofOf(c, leaves, h, challenge);
    assert p[1..] == Siblings(c, leaves, h, h, challenge);
    hide Fold, Siblings, Root, Pow2;
  }

  /** A whole exchange: what the prover generates for its challenges, the verifier
      with the root of the same blocks accepts. Each proof starts with the block at its
      challenge, or with the hash of an index beyond the blocks. */
  method Exchange(c: Contract, blocks: seq<Digest>, challenges: seq<nat>)
    returns (valid: bool, proofs: seq<seq<HashDirect>>)
    requires |blocks| > 0 && c.NeverEmpty() && |challenges| > 0
    requires forall i :: 0 <= i < |blocks| ==> blocks[i] != []
    requires forall i :: 0 <= i < |challenges| ==> challenges[i] < NextPowerOfTwo(|blocks|)
    ensures valid && |proofs| == |challenges|
    ensures forall i :: 0 <= i < |proofs| ==>
              |proofs[i]| > 0 && proofs[i][0].path == challenges[i]
              && proofs[i][0].node == if challenges[i] < |blocks| then blocks[challenges[i]] else c.index(challenges[i])
  {
    var prover := new MerkleProver(c, blocks);
    var verifier := new MerkleVerifier(prover.tree.root, prover.GetNumBlocks(), c);
    proofs := prover.GenerateProofs(challenges);
    valid := verifier.VerifyProofs(proofs);
    forall i | 0 <= i < |challenges| ensures Accepts(c, verifier.root, proofs[i]) {
      ProofsAccepted(c, prover.tree.leaves, prover.tree.height, challenges[i]);
    }
  }

  // ---------- binding ----------

  /** With a one-to-one pair hash, two leaf lists of one length with one root are the same. */
  lemma {:induction false} RootBinds(c: Contract, a: seq<Digest>, b: seq<Digest>)
    requires c.Injective() && |a| == |b| > 0 && Root(c, a) == Root(c, b)
    ensures a == b
    decreases |a|
  {
    if |a| > 1 {
      var k := |a| / 2;
      RootBinds(c, a[..k], b[..k]);
      RootBinds(c, a[k..], b[k..]);
      assert a == a[..k] + a[k..] && b == b[..k] + b[k..];
    }
  }

  /** So the tree's root commits to the blocks: as many blocks with the same root are the
      same blocks. */
  lemma BlocksBind(c: Contract, a: seq<Digest>, b: seq<Digest>)
    requires c.Injective() && |a| == |b| > 0 && Root(c, PaddedLeaves(c, a)) == Root(c, PaddedLeaves(c, b))
    ensures a == b
  {
    var x, y := PaddedLeaves(c, a), PaddedLeaves(c, b);
    hide Root, NextPowerOfTwo;
    NextPowerOfTwoIs(|a|);
    RootBinds(c, x, y);
    assert forall i :: 0 <= i < |a| ==> a[i] == x[i] == b[i];
  }

  /** The position a list of siblings encodes: under a right sibling the node is a
      left child. */
  function Position(siblings: seq<HashDirect>): nat {
    if |siblings| == 0 then 0
    else (if siblings[0].path % 2 == 1 then 0 else 1) + 2 * Position(siblings[1..])
  }

  lemma {:induction false} PositionFits(siblings: seq<HashDirect>)
    ensures Position(siblings) < Pow2(|siblings|)
  {
    if |siblings| > 0 {
      PositionFits(siblings[1..]);
    }
  }

  /** The siblings' digests are those of the tree along the path of node j. */
  ghost predicate Agree(c: Contract, leaves: seq<Digest>, h: nat, d: nat, j: nat, siblings: seq<HashDirect>)
    requires Padded(leaves, h) && d <= h && j < Pow2(d)
  {
    |siblings| == d &&
    forall i :: 0 <= i < d ==> siblings[i].node == Siblings(c, leaves, h, d, j)[i].node
  }

  /** With a one-to-one pair hash, nodes that fold to the root are those of the tree
      at the position their path bits encode, and so are all siblings. The list may
      be shorter than the tree is high: then it starts at an inner node. */
  lemma {:induction false} FoldBinds(c: Contract, leaves: seq<Digest>, h: nat, node: Digest, siblings: seq<HashDirect>)
    requires c.Injective() && Padded(leaves, h) && |siblings| <= h
    requires Fold(c, node, siblings) == NodeAt(c, leaves, 0)
    ensures Position(siblings) < Pow2(|siblings|)
    ensures node == Node(c, leaves, h, |siblings|, Position(siblings))
    ensures Agree(c, leaves, h, |siblings|, Position(siblings), siblings)
    decreases |siblings|
  {
    hide Fold, Node, Siblings, Position, Combine, Agree, Pow2;
    PositionFits(siblings);
    var d, j := |siblings|, Position(siblings);
    if d == 0 {
      NoSiblings(c, leaves, h, node, siblings);
    } else {
      FoldStep(c, node, siblings);
      FoldBinds(c, leaves, h, Combine(c, node, siblings[0]), siblings[1..]);
      PositionStep(siblings);
      NodeStep(c, leaves, h, d - 1, j / 2);
      CombineBinds(c, node, siblings[0], Node(c, leaves, h, d, j / 2 * 2), Node(c, leaves, h, d, j / 2 * 2 + 1));
      AgreeStep(c, leaves, h, d, j, siblings);
    }
  }

  lemma NoSiblings(c: Contract, leaves: seq<Digest>, h: nat, node: Digest, siblings: seq<HashDirect>)
    requires Padded(leaves, h) && |siblings| == 0 && Fold(c, node, siblings) == NodeAt(c, leaves, 0)
    ensures Position(siblings) == 0 < Pow2(0)
    ensures node == Node(c, leaves, h, 0, 0) && Agree(c, leaves, h, 0, 0, siblings)
  {
    NodeTop(c, leaves, h);
    assert siblings == [];
    hide Node, NodeAt, Siblings;
  }

  lemma NodeTop(c: Contract, leaves: seq<Digest>, h: nat)
    requires Padded(leaves, h)
    ensures Node(c, leaves, h, 0, 0) == NodeAt(c, leaves, 0)
  {
    hide NodeAt;
    assert Index(0, 0) == 0;
  }

  lemma PositionStep(siblings: seq<HashDirect>)
    requires |siblings| > 0
    ensures Position(siblings) / 2 == Position(siblings[1..])
    ensures Position(siblings) % 2 == if siblings[0].path % 2 == 1 then 0 else 1
  {
  }

  lemma CombineBinds(c: Contract, node: Digest, s: HashDirect, left: Digest, right: Digest)
    requires c.Injective() && Combine(c, node, s) == c.pair(left, right)
    ensures if s.path % 2 == 1 then node == left && s.node == right else node == right && s.node == left
  {
  }

  lemma AgreeStep(c: Contract, leaves: seq<Digest>, h: nat, d: nat, j: nat, siblings: seq<HashDirect>)
    requires Padded(leaves, h) && 0 < d <= h && j < Pow2(d) && j / 2 < Pow2(d - 1) && Flip(j) < Pow2(d)
    requires |siblings| == d && siblings[0].node == Node(c, leaves, h, d, Flip(j))
    requires Agree(c, leaves, h, d - 1, j / 2, siblings[1..])
    ensures Agree(c, leaves, h, d, j, siblings)
  {
    SiblingsStep(c, leaves, h, d, j);
    hide Siblings, Pow2, NodeAt, Flip;
    forall i | 0 <= i < d ensures siblings[i].node == Siblings(c, leaves, h, d, j)[i].node {
      if i > 0 {
        assert siblings[i] == siblings[1..][i - 1];
      }
    }
  }

  /** Binding, exactly: a proof as long as the tree is high plus one is accepted
      precisely when its digests are those of the honest proof for the position
      that its path bits encode. */
  lemma AcceptedIff(c: Contract, leaves: seq<Digest>, h: nat, proof: seq<HashDirect>)
    requires c.Injective() && Padded(leaves, h) && |proof| == h + 1
    ensures Position(proof[1..]) < Pow2(h)
    ensures Accepts(c, Root(c, leaves), proof)
       <==> forall i :: 0 <= i <= h ==>
              proof[i].node == ProofOf(c, leaves, h, Position(proof[1..]))[i].node
  {
    PositionFits(proof[1..]);
    var j := Position(proof[1..]);
    var honest := ProofOf(c, leaves, h, j);
    TopIsRoot(c, leaves, h);
    NodeLeaf(c, leaves, h, j);
    if Accepts(c, Root(c, leaves), proof) {
      FoldBinds(c, leaves, h, proof[0].node, proof[1..]);
      hide Fold, Root, NodeAt, Node, Siblings, Pow2, Position;
      forall i | 0 <= i <= h ensures proof[i].node == honest[i].node {
        if i > 0 {
          assert proof[i] == proof[1..][i - 1];
        }
      }
    }
    if forall i :: 0 <= i <= h ==> proof[i].node == honest[i].node {
      hide Fold, Root, NodeAt, Node, Siblings, Pow2, Position;
      ProofsAccepted(c, leaves, h, j);
      SiblingBits(c, leaves, h, h, proof[1..]);
      forall i | 0 <= i < h
        ensures proof[1..][i].node == honest[1..][i].node && proof[1..][i].path % 2 == honest[1..][i].path % 2
      {
        assert proof[i + 1].node == honest[i + 1].node;
        assert honest[1..][i] == Siblings(c, leaves, h, h, j)[i];
      }
      FoldSame(c, proof[0].node, proof[1..], honest[1..]);
    }
  }

  /** The honest siblings at a list's position have the list's path bits. */
  lemma {:induction false} SiblingBits(c: Contract, leaves: seq<Digest>, h: nat, d: nat, siblings: seq<HashDirect>)
    requires Padded(leaves, h) && |siblings| == d <= h
    ensures Position(siblings) < Pow2(d)
    ensures forall i :: 0 <= i < d ==>
      Siblings(c, leaves, h, d, Position(siblings))[i].path % 2 == siblings[i].path % 2
    decreases d
  {
    hide Siblings, Position, Pow2;
    PositionFits(siblings);
    if d > 0 {
      PositionStep(siblings);
      var j := Position(siblings);
      SiblingsStep(c, leaves, h, d, j);
      SiblingBits(c, leaves, h, d - 1, siblings[1..]);
      forall i | 0 <= i < d ensures Siblings(c, leaves, h, d, j)[i].path % 2 == siblings[i].path % 2 {
        if i > 0 {
          assert siblings[i] == siblings[1..][i - 1];
          assert Siblings(c, leaves, h, d, j)[i] == Siblings(c, leaves, h, d - 1, j / 2)[i - 1];
        }
      }
    }
  }

  lemma {:induction false} FoldSame(c: Contract, node: Digest, s: seq<HashDirect>, t: seq<HashDirect>)
    requires |s| == |t|
    requires forall i :: 0 <= i < |s| ==> s[i].node == t[i].node && s[i].path % 2 == t[i].path % 2
    ensures Fold(c, node, s) == Fold(c, node, t)
    decreases |s|
  {
    if |s| > 0 {
      FoldSame(c, Combine(c, node, s[0]), s[1..], t[1..]);
    }
  }
}
