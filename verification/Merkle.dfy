/** The hash tree over the transactions of a block, kept in one flat list, level after level. */
module Merkle {
  import opened Common

  type Hash = int

  /** The hash of two hashes in a row. */
  type PairHash = (Hash, Hash) -> Hash

  // ---------------------------------------------------------------- the tree by levels

  /** n halved, rounded up. */
  function Half(n: nat): (r: nat)
    ensures 2 * r == n || 2 * r == n + 1
  {
    (n + 1) / 2
  }

  /** Neighbours are hashed in pairs, a last one without neighbour with itself. */
  function Node(hash: PairHash, level: seq<Hash>, k: nat): Hash
    requires 2 * k < |level|
  {
    hash(level[2 * k], level[Min(2 * k + 1, |level| - 1)])
  }

  /** The level above. */
  function Above(hash: PairHash, level: seq<Hash>): (r: seq<Hash>)
    ensures |r| == Half(|level|)
    ensures forall k :: 0 <= k < |r| ==> r[k] == Node(hash, level, k)
  {
    seq(Half(|level|), k requires 0 <= k < Half(|level|) => Node(hash, level, k))
  }

  lemma AboveIs(hash: PairHash, level: seq<Hash>, above: seq<Hash>)
    requires |above| == Half(|level|) && forall k :: 0 <= k < |above| ==> above[k] == Node(hash, level, k)
    ensures above == Above(hash, level)
  {
  }

  function Root(hash: PairHash, level: seq<Hash>): Hash
    decreases |level|
  {
    if level == [] then 0 else if |level| == 1 then level[0] else Root(hash, Above(hash, level))
  }

  /** All levels one after the other. */
  function Tree(hash: PairHash, level: seq<Hash>): (r: seq<Hash>)
    ensures |level| <= |r|
    decreases |level|
  {
    if |level| <= 1 then level else level + Tree(hash, Above(hash, level))
  }

  /** The neighbours met on the way from leaf i to the root. */
  function Branch(hash: PairHash, level: seq<Hash>, i: nat): (r: seq<Hash>)
    ensures |r| == Depth(|level|)
    decreases |level|
  {
    if |level| <= 1 then [] else [level[Min(Neighbour(i), |level| - 1)]] + Branch(hash, Above(hash, level), i / 2)
  }

  /** The index with its lowest bit flipped. */
  function Neighbour(i: nat): nat {
    if i % 2 == 0 then i + 1 else i - 1
  }

  function Depth(n: nat): nat {
    if n <= 1 then 0 else 1 + Depth(Half(n))
  }

  /** The root a leaf and a branch lead to. */
  function Climb(hash: PairHash, h: Hash, branch: seq<Hash>, i: int): Hash
    decreases |branch|
  {
    if branch == [] then h else
      Climb(hash, if i % 2 == 1 then hash(branch[0], h) else hash(h, branch[0]), branch[1..], i / 2)
  }

  /** One step up: the leaf and its neighbour make the node above. */
  lemma NeighbourMakesNode(hash: PairHash, level: seq<Hash>, i: nat)
    requires i < |level| && |level| > 1
    ensures i / 2 < Half(|level|)
    ensures var other := level[Min(Neighbour(i), |level| - 1)];
            Node(hash, level, i / 2) == if i % 2 == 1 then hash(other, level[i]) else hash(level[i], other)
  {
    if i % 2 == 1 {
      assert i == 2 * (i / 2) + 1;
    } else {
      assert i == 2 * (i / 2);
    }
  }

  /** A branch taken from the tree leads its leaf back to the root. */
  lemma {:induction false} BranchReachesRoot(hash: PairHash, level: seq<Hash>, i: nat)
    requires i < |level|
    ensures Climb(hash, level[i], Branch(hash, level, i), i) == Root(hash, level)
    decreases |level|
  {
    hide Node;
    hide Neighbour;
    hide Above;
    hide Half;
    if |level| > 1 {
      var branch := Branch(hash, level, i);
      assert branch[1..] == Branch(hash, Above(hash, level), i / 2);
      NeighbourMakesNode(hash, level, i);
      BranchReachesRoot(hash, Above(hash, level), i / 2);
    }
  }

  // ---------------------------------------------------------------- nothing else is accepted

  /** Two different pairs with the same hash. */
  ghost predicate Collides(hash: PairHash) {
    exists a, b, c, d :: (a != c || b != d) && hash(a, b) == hash(c, d)
  }

  lemma Collision(hash: PairHash, a: Hash, b: Hash, c: Hash, d: Hash)
    requires hash(a, b) == hash(c, d)
    ensures (a == c && b == d) || Collides(hash)
  {
  }

  /** Two leaves that climb to one value by branches of one length at one index are the same leaf and branch. */
  lemma {:induction false} ClimbIsInjective(hash: PairHash, h: Hash, branch: seq<Hash>, g: Hash, other: seq<Hash>,
                                            i: int)
    requires |branch| == |other| && Climb(hash, h, branch, i) == Climb(hash, g, other, i)
    ensures (h == g && branch == other) || Collides(hash)
    decreases |branch|
  {
    if branch != [] {
      var h1 := if i % 2 == 1 then hash(branch[0], h) else hash(h, branch[0]);
      var g1 := if i % 2 == 1 then hash(other[0], g) else hash(g, other[0]);
      ClimbIsInjective(hash, h1, branch[1..], g1, other[1..], i / 2);
      if !Collides(hash) {
        if i % 2 == 1 {
          Collision(hash, branch[0], h, other[0], g);
        } else {
          Collision(hash, h, branch[0], g, other[0]);
        }
        assert branch == [branch[0]] + branch[1..];
        assert other == [other[0]] + other[1..];
      }
    }
  }

  /** Only the leaf at the index and its own branch are accepted. */
  lemma OnlyTheLeafIsAccepted(hash: PairHash, level: seq<Hash>, i: nat, h: Hash, branch: seq<Hash>)
    requires i < |level| && |branch| == Depth(|level|)
    ensures Climb(hash, h, branch, i) == Root(hash, level) ==>
              (h == level[i] && branch == Branch(hash, level, i)) || Collides(hash)
  {
    BranchReachesRoot(hash, level, i);
    if Climb(hash, h, branch, i) == Root(hash, level) {
      ClimbIsInjective(hash, h, branch, level[i], Branch(hash, level, i), i);
    }
  }

  // ---------------------------------------------------------------- which lists share a root

  /** The leaf that stands at place q when every level is filled up to a power of two. */
  function LeafAt(n: nat, q: nat): (r: nat)
    requires n > 0
    ensures r < n
    decreases n
  {
    if n == 1 then 0 else Min(2 * LeafAt(Half(n), q / 2) + q % 2, n - 1)
  }

  ghost predicate SameFilledUp(a: seq<Hash>, b: seq<Hash>)
    requires a != [] && b != [] && Depth(|a|) == Depth(|b|)
  {
    forall q: nat :: q < Pow2(Depth(|a|)) ==> a[LeafAt(|a|, q)] == b[LeafAt(|b|, q)]
  }

  /** Filled up alike below means filled up alike above. */
  lemma FilledUpAbove(hash: PairHash, a: seq<Hash>, b: seq<Hash>)
    requires |a| > 1 && |b| > 1 && Depth(|a|) == Depth(|b|) && SameFilledUp(a, b)
    ensures SameFilledUp(Above(hash, a), Above(hash, b))
  {
    hide LeafAt;
    hide Node;
    hide Above;
    hide Half;
    var a1, b1 := Above(hash, a), Above(hash, b);
    forall q: nat | q < Pow2(Depth(|a1|))
      ensures a1[LeafAt(|a1|, q)] == b1[LeafAt(|b1|, q)]
    {
      PairAbove(hash, a, q);
      PairAbove(hash, b, q);
      assert a[LeafAt(|a|, 2 * q)] == b[LeafAt(|b|, 2 * q)];
      assert a[LeafAt(|a|, 2 * q + 1)] == b[LeafAt(|b|, 2 * q + 1)];
    }
  }

  /** Without collision also the other way round. */
  lemma FilledUpBelow(hash: PairHash, a: seq<Hash>, b: seq<Hash>)
    requires |a| > 1 && |b| > 1 && Depth(|a|) == Depth(|b|)
    requires SameFilledUp(Above(hash, a), Above(hash, b))
    ensures SameFilledUp(a, b) || Collides(hash)
  {
    hide LeafAt;
    hide Node;
    hide Above;
    hide Half;
    hide Collides;
    if !Collides(hash) {
      forall q: nat | q < Pow2(Depth(|a|))
        ensures a[LeafAt(|a|, q)] == b[LeafAt(|b|, q)]
      {
        FilledUpBelowAt(hash, a, b, q / 2);
        assert q == 2 * (q / 2) || q == 2 * (q / 2) + 1;
      }
    }
  }

  lemma FilledUpBelowAt(hash: PairHash, a: seq<Hash>, b: seq<Hash>, q: nat)
    requires |a| > 1 && |b| > 1 && Depth(|a|) == Depth(|b|) && q < Pow2(Depth(Half(|a|)))
    requires SameFilledUp(Above(hash, a), Above(hash, b)) && !Collides(hash)
    ensures a[LeafAt(|a|, 2 * q)] == b[LeafAt(|b|, 2 * q)]
    ensures a[LeafAt(|a|, 2 * q + 1)] == b[LeafAt(|b|, 2 * q + 1)]
  {
    hide LeafAt;
    hide Node;
    hide Above;
    hide Half;
    PairAbove(hash, a, q);
    PairAbove(hash, b, q);
    var a1, b1 := Above(hash, a), Above(hash, b);
    assert a1[LeafAt(|a1|, q)] == b1[LeafAt(|b1|, q)];
    Collision(hash, a[LeafAt(|a|, 2 * q)], a[LeafAt(|a|, 2 * q + 1)], b[LeafAt(|b|, 2 * q)], b[LeafAt(|b|, 2 * q + 1)]);
  }

  lemma PairAbove(hash: PairHash, level: seq<Hash>, q: nat)
    requires |level| > 1
    ensures Above(hash, level)[LeafAt(Half(|level|), q)] ==
            hash(level[LeafAt(|level|, 2 * q)], level[LeafAt(|level|, 2 * q + 1)])
  {
    assert 2 * q / 2 == q && (2 * q + 1) / 2 == q && 2 * q % 2 == 0 && (2 * q + 1) % 2 == 1;
  }

  /** Lists of the same depth. */
  lemma {:induction false} SameRootAtOneDepth(hash: PairHash, a: seq<Hash>, b: seq<Hash>)
    requires a != [] && b != [] && Depth(|a|) == Depth(|b|)
    ensures SameFilledUp(a, b) ==> Root(hash, a) == Root(hash, b)
    ensures Root(hash, a) == Root(hash, b) ==> SameFilledUp(a, b) || Collides(hash)
    decreases |a|
  {
    if |a| == 1 {
      assert LeafAt(|a|, 0) == 0 && LeafAt(|b|, 0) == 0;
      assert SameFilledUp(a, b) <==> a[0] == b[0];
    } else {
      if SameFilledUp(a, b) {
        FilledUpAbove(hash, a, b);
      }
      if SameFilledUp(Above(hash, a), Above(hash, b)) {
        FilledUpBelow(hash, a, b);
      }
      SameRootAtOneDepth(hash, Above(hash, a), Above(hash, b));
    }
  }

  /** The level k steps up. */
  function Lift(hash: PairHash, level: seq<Hash>, k: nat): (r: seq<Hash>)
    requires level != [] && k <= Depth(|level|)
    ensures r != [] && Depth(|r|) == Depth(|level|) - k
    decreases k
  {
    if k == 0 then level else Lift(hash, Above(hash, level), k - 1)
  }

  lemma {:induction false} LiftKeepsRoot(hash: PairHash, level: seq<Hash>, k: nat)
    requires level != [] && k <= Depth(|level|)
    ensures Root(hash, Lift(hash, level, k)) == Root(hash, level)
    decreases k
  {
    if k > 0 {
      LiftKeepsRoot(hash, Above(hash, level), k - 1);
    }
  }

  /** The deeper of two lists, seen from the level where the other has its leaves, is that list filled up. */
  ghost predicate SameFromTheTop(hash: PairHash, a: seq<Hash>, b: seq<Hash>)
    requires a != [] && b != []
  {
    var d, e := Depth(|a|), Depth(|b|);
    if d <= e then SameFilledUp(a, Lift(hash, b, e - d)) else SameFilledUp(Lift(hash, a, d - e), b)
  }

  /** Any two lists have the same root exactly when the shallower one and the level of the other at its height,
      both filled up by repeating the tail of each level, are the same list (or the hash collides). In particular
      lists of equal length with the same root are equal, but a list of odd length shares its root with the list
      that repeats its last element, and a list whose leaves are inner nodes of another shares that one's root. */
  lemma SameRootCharacterized(hash: PairHash, a: seq<Hash>, b: seq<Hash>)
    requires a != [] && b != []
    ensures SameFromTheTop(hash, a, b) ==> Root(hash, a) == Root(hash, b)
    ensures Root(hash, a) == Root(hash, b) ==> SameFromTheTop(hash, a, b) || Collides(hash)
  {
    hide Root;
    hide SameFilledUp;
    hide Lift;
    var d, e := Depth(|a|), Depth(|b|);
    if d <= e {
      LiftKeepsRoot(hash, b, e - d);
      SameRootAtOneDepth(hash, a, Lift(hash, b, e - d));
    } else {
      LiftKeepsRoot(hash, a, d - e);
      SameRootAtOneDepth(hash, Lift(hash, a, d - e), b);
    }
  }

  /** Whatever the hash, an inner node taken for a leaf shares the root of its two leaves. */
  lemma InnerNodeSharesRoot(hash: PairHash, x: Hash, y: Hash)
    ensures Root(hash, [hash(x, y)]) == Root(hash, [x, y])
  {
    AboveIs(hash, [x, y], [hash(x, y)]);
  }

  /** Every leaf stands somewhere. */
  lemma {:induction false} LeafStandsAtItself(n: nat, q: nat)
    requires q < n
    ensures LeafAt(n, q) == q && q < Pow2(Depth(n))
    decreases n
  {
    if n > 1 {
      LeafStandsAtItself(Half(n), q / 2);
    }
  }

  lemma EqualLengthEqualRoot(hash: PairHash, a: seq<Hash>, b: seq<Hash>)
    requires |a| == |b| && Root(hash, a) == Root(hash, b)
    ensures a == b || Collides(hash)
  {
    if a != [] {
      SameRootAtOneDepth(hash, a, b);
      if SameFilledUp(a, b) {
        forall q | 0 <= q < |a|
          ensures a[q] == b[q]
        {
          LeafStandsAtItself(|a|, q);
        }
      }
    }
  }

  /** Repeating the last of an odd number of leaves does not show in the root. */
  lemma RepeatedLastSharesRoot(hash: PairHash, a: seq<Hash>)
    requires |a| > 1 && |a| % 2 == 1
    ensures Root(hash, a) == Root(hash, a + [a[|a| - 1]])
  {
    var b := a + [a[|a| - 1]];
    assert Half(|a|) == Half(|b|);
    forall k | 0 <= k < Half(|a|)
      ensures Node(hash, a, k) == Node(hash, b, k)
    {
    }
    AboveIs(hash, a, Above(hash, b));
  }

  // ---------------------------------------------------------------- branches read off a flat tree

  /** How many hashes the tree over n leaves has. */
  function TreeSize(n: nat): (r: nat)
    ensures r >= n
  {
    if n <= 1 then n else n + TreeSize(Half(n))
  }

  lemma {:induction false} TreeHasSize(hash: PairHash, level: seq<Hash>)
    ensures |Tree(hash, level)| == TreeSize(|level|)
    decreases |level|
  {
    if |level| > 1 {
      TreeHasSize(hash, Above(hash, level));
    }
  }

  /** Every place where the branch of leaf i is looked for, from a level of n hashes at j on, is in the list. */
  predicate Readable(size: nat, j: nat, n: nat, i: nat)
    decreases n
  {
    n <= 1 || (j + Min(Neighbour(i), n - 1) < size && Readable(size, j + n, Half(n), i / 2))
  }

  lemma {:induction false} TreeIsReadable(size: nat, j: nat, n: nat, i: nat)
    requires j + TreeSize(n) <= size
    ensures Readable(size, j, n, i)
    decreases n
  {
    if n > 1 {
      TreeIsReadable(size, j + n, Half(n), i / 2);
    }
  }

  /** What a flat list holds there. */
  function BranchIn(tree: seq<Hash>, j: nat, n: nat, i: nat): seq<Hash>
    requires Readable(|tree|, j, n, i)
    decreases n
  {
    if n <= 1 then [] else [tree[j + Min(Neighbour(i), n - 1)]] + BranchIn(tree, j + n, Half(n), i / 2)
  }

  lemma BranchInStep(tree: seq<Hash>, j: nat, n: nat, i: nat)
    requires Readable(|tree|, j, n, i)
    ensures n <= 1 ==> BranchIn(tree, j, n, i) == []
    ensures n > 1 ==>
              && Readable(|tree|, j + n, Half(n), i / 2) && 0 <= j + Min(Neighbour(i), n - 1) < |tree|
              && BranchIn(tree, j, n, i) == [tree[j + Min(Neighbour(i), n - 1)]] + BranchIn(tree, j + n, Half(n), i / 2)
  {
  }

  lemma BranchUnfolds(hash: PairHash, level: seq<Hash>, i: nat)
    ensures |level| <= 1 ==> Branch(hash, level, i) == []
    ensures |level| > 1 ==>
              && Tree(hash, level) == level + Tree(hash, Above(hash, level))
              && 0 <= Min(Neighbour(i), |level| - 1) < |level|
              && Branch(hash, level, i) ==
                 [level[Min(Neighbour(i), |level| - 1)]] + Branch(hash, Above(hash, level), i / 2)
  {
  }

  /** In the tree of the leaves that is the branch. */
  lemma {:induction false} BranchInTree(hash: PairHash, level: seq<Hash>, tree: seq<Hash>, j: nat, i: nat)
    requires j <= |tree| && tree[j..] == Tree(hash, level)
    ensures Readable(|tree|, j, |level|, i) && BranchIn(tree, j, |level|, i) == Branch(hash, level, i)
    decreases |level|
  {
    hide Neighbour;
    hide Above;
    hide Half;
    hide Tree;
    hide TreeSize;
    hide Branch;
    hide BranchIn;
    var n := |level|;
    TreeHasSize(hash, level);
    TreeIsReadable(|tree|, j, n, i);
    BranchUnfolds(hash, level, i);
    BranchInStep(tree, j, n, i);
    if n > 1 {
      var above := Tree(hash, Above(hash, level));
      assert tree[j + n..] == (level + above)[n..] == above;
      BranchInTree(hash, Above(hash, level), tree, j + n, i / 2);
      var k := Min(Neighbour(i), n - 1);
      assert tree[j + k] == (level + above)[k] == level[k];
    }
  }

  // ---------------------------------------------------------------- the block

  class Block {
    const hash: PairHash
    var vtx: seq<Hash>
    var vMerkleTree: seq<Hash>

    constructor (hash: PairHash, vtx: seq<Hash>)
      ensures this.hash == hash && this.vtx == vtx && vMerkleTree == []
    {
      this.hash, this.vtx, vMerkleTree := hash, vtx, [];
    }

    method BuildMerkleTree() returns (root: Hash)
      modifies `vMerkleTree
      ensures vMerkleTree == Tree(hash, vtx)
      ensures root == Root(hash, vtx)
    {
      hide Above;
      hide Half;
      hide Tree;
      hide Root;
      vMerkleTree := [];
      for k := 0 to |vtx|
        invariant vMerkleTree == vtx[..k]
      {
        vMerkleTree := vMerkleTree + [vtx[k]];
      }
      var j, nSize := 0, |vtx|;
      ghost var level := vtx;
      while nSize > 1
        invariant |level| == nSize && 0 <= j && vMerkleTree == Done(vMerkleTree, j) + level &&
                  j + nSize == |vMerkleTree|
        invariant Done(vMerkleTree, j) + Tree(hash, level) == Tree(hash, vtx)
        invariant Root(hash, level) == Root(hash, vtx)
        invariant nSize == 0 ==> vMerkleTree == []
        decreases nSize
      {
        ghost var before, above := vMerkleTree, Above(hash, level);
        assert forall k :: 0 <= k < nSize ==> vMerkleTree[j + k] == level[k];
        HashPairs(j, nSize, level);
        OneLevelUp(hash, before, j, level, above);
        j, nSize, level := j + nSize, Half(nSize), above;
      }
      TopLevel(hash, level);
      root := if vMerkleTree == [] then 0 else vMerkleTree[|vMerkleTree| - 1];
    }

    /** The inner loop: one level is hashed in pairs. */
    method HashPairs(j: nat, nSize: nat, ghost level: seq<Hash>)
      requires |level| == nSize && j + nSize == |vMerkleTree|
      requires forall k :: 0 <= k < nSize ==> vMerkleTree[j + k] == level[k]
      modifies `vMerkleTree
      ensures vMerkleTree == old(vMerkleTree) + Above(hash, level)
    {
      hide Above;
      hide Half;
      ghost var above := [];
      var i := 0;
      while i < nSize
        invariant 0 <= i && vMerkleTree == old(vMerkleTree) + above && |above| <= Half(nSize) && i == 2 * |above|
        invariant forall k :: 0 <= k < |above| ==> above[k] == Node(hash, level, k)
      {
        var i2 := Min(i + 1, nSize - 1);
        assert vMerkleTree[j + i] == old(vMerkleTree)[j + i] == level[i];
        assert vMerkleTree[j + i2] == old(vMerkleTree)[j + i2] == level[i2];
        vMerkleTree := vMerkleTree + [hash(vMerkleTree[j + i], vMerkleTree[j + i2])];
        above := above + [Node(hash, level, |above|)];
        i := i + 2;
      }
      AboveIs(hash, level, above);
    }

    static lemma TopLevel(hash: PairHash, level: seq<Hash>)
      requires |level| <= 1
      ensures Tree(hash, level) == level
      ensures Root(hash, level) == if level == [] then 0 else level[0]
    {
    }

    static ghost function Done(tree: seq<Hash>, j: int): seq<Hash>
    {
      if 0 <= j <= |tree| then tree[..j] else []
    }

    static lemma TreeUnfolds(hash: PairHash, level: seq<Hash>)
      requires |level| > 1
      ensures Tree(hash, level) == level + Tree(hash, Above(hash, level))
    {
      hide Above;
    }

    static lemma OneLevelUp(hash: PairHash, before: seq<Hash>, j: nat, level: seq<Hash>, above: seq<Hash>)
      requires |level| > 1 && j + |level| == |before| && before == Done(before, j) + level &&
               above == Above(hash, level)
      ensures Done(before + above, j + |level|) == before
      ensures Done(before, j) + Tree(hash, level) == before + Tree(hash, above)
      ensures Root(hash, level) == Root(hash, above)
    {
      hide Above;
      hide Half;
      hide Tree;
      TreeUnfolds(hash, level);
      assert Done(before, j) + (level + Tree(hash, above)) == (Done(before, j) + level) + Tree(hash, above);
    }

    /** The branch read off the tree there is, whether or not it is that of the current transactions; a tree is
        built only when there is none. The source reads past the end of a tree that is too short. */
    method GetMerkleBranch(nIndex: nat) returns (branch: seq<Hash>)
      requires vMerkleTree == [] || Readable(|vMerkleTree|, 0, |vtx|, nIndex)
      modifies `vMerkleTree
      ensures vMerkleTree == if old(vMerkleTree) == [] then Tree(hash, vtx) else old(vMerkleTree)
      ensures Readable(|vMerkleTree|, 0, |vtx|, nIndex) && branch == BranchIn(vMerkleTree, 0, |vtx|, nIndex)
      ensures vMerkleTree == Tree(hash, vtx) ==> branch == Branch(hash, vtx, nIndex)
    {
      hide Tree;
      hide TreeSize;
      hide Readable;
      hide BranchIn;
      hide Branch;
      hide Neighbour;
      hide Half;
      if vMerkleTree == [] {
        var _ := BuildMerkleTree();
      }
      TreeHasSize(hash, vtx);
      if vMerkleTree == Tree(hash, vtx) {
        TreeIsReadable(|vMerkleTree|, 0, |vtx|, nIndex);
      }
      branch := [];
      var index, j, nSize := nIndex, 0, |vtx|;
      while nSize > 1
        invariant vMerkleTree == if old(vMerkleTree) == [] then Tree(hash, vtx) else old(vMerkleTree)
        invariant index >= 0 && 0 <= j && 0 <= nSize && Readable(|vMerkleTree|, j, nSize, index)
        invariant branch + BranchIn(vMerkleTree, j, nSize, index) == BranchIn(vMerkleTree, 0, |vtx|, nIndex)
        decreases nSize
      {
        BranchInStep(vMerkleTree, j, nSize, index);
        var i := Min(Neighbour(index), nSize - 1);
        branch := branch + [vMerkleTree[j + i]];
        index, j, nSize := index / 2, j + nSize, Half(nSize);
      }
      BranchInStep(vMerkleTree, j, nSize, index);
      if vMerkleTree == Tree(hash, vtx) {
        assert vMerkleTree[0..] == vMerkleTree;
        BranchInTree(hash, vtx, vMerkleTree, 0, nIndex);
      }
    }

    /** The block's root whenever the branch is that of the leaf. */
    static method CheckMerkleBranch(hash: PairHash, h: Hash, vMerkleBranch: seq<Hash>, nIndex: int) returns (r: Hash)
      ensures r == if nIndex == -1 then 0 else Climb(hash, h, vMerkleBranch, nIndex)
    {
      if nIndex == -1 {
        return 0;
      }
      var index := nIndex;
      r := h;
      for k := 0 to |vMerkleBranch|
        invariant Climb(hash, r, vMerkleBranch[k..], index) == Climb(hash, h, vMerkleBranch, nIndex)
      {
        var otherside := vMerkleBranch[k];
        assert vMerkleBranch[k..][1..] == vMerkleBranch[k + 1..];
        r := if index % 2 == 1 then hash(otherside, r) else hash(r, otherside);
        index := index / 2;
      }
    }
  }
}
