/**
  The fixed-depth Merkle accumulator: packages/crypto/src/merkle.ts, with
  zeroHashes of packages/crypto/src/poseidon.ts.
 */
module Merkle {
  import opened Prelude
  import opened Hashing

  // ----- levels

  function NextLevel(h: Hashes, level: seq<int>): (next: seq<int>)
    ensures |next| == |level| / 2
  {
    seq(|level| / 2, i requires 0 <= i < |level| / 2 => Parent(h, level[2 * i], level[2 * i + 1]))
  }

  lemma NextLevelAt(h: Hashes, level: seq<int>, i: nat)
    requires 2 * i + 1 < |level|
    ensures NextLevel(h, level)[i] == Parent(h, level[2 * i], level[2 * i + 1])
  {}

  /** The level d steps above the leaves. */
  function LevelAt(h: Hashes, leaves: seq<int>, d: nat): seq<int> {
    if d == 0 then leaves else NextLevel(h, LevelAt(h, leaves, d - 1))
  }

  lemma {:induction false} LevelSize(h: Hashes, leaves: seq<int>, n: nat, d: nat)
    requires |leaves| == Pow2(n) && d <= n
    ensures |LevelAt(h, leaves, d)| == Pow2(n - d)
  {
    hide NextLevel;
    if d > 0 {
      LevelSize(h, leaves, n, d - 1);
    }
  }

  // ----- the tree a vector of leaves spans

  /** The root by halves: the tree itself rather than its evaluation order. */
  function TreeRoot(h: Hashes, leaves: seq<int>, n: nat): int
    requires |leaves| == Pow2(n)
  {
    if n == 0 then leaves[0]
    else
      var half := Pow2(n - 1);
      Parent(h, TreeRoot(h, leaves[..half], n - 1), TreeRoot(h, leaves[half..], n - 1))
  }

  lemma NextLevelSplits(h: Hashes, level: seq<int>, half: nat)
    requires |level| == 4 * half
    ensures NextLevel(h, level)[..half] == NextLevel(h, level[..2 * half])
    ensures NextLevel(h, level)[half..] == NextLevel(h, level[2 * half..])
  {
    forall i | 0 <= i < half
      ensures NextLevel(h, level)[half..][i] == NextLevel(h, level[2 * half..])[i]
    {
      assert level[2 * half..][2 * i] == level[2 * (half + i)];
      assert level[2 * half..][2 * i + 1] == level[2 * (half + i) + 1];
    }
  }

  /** Pairing neighbours first does not change the root. */
  lemma {:induction false} TreeRootOfNextLevel(h: Hashes, level: seq<int>, n: nat)
    requires n > 0 && |level| == Pow2(n)
    ensures TreeRoot(h, NextLevel(h, level), n - 1) == TreeRoot(h, level, n)
  {
    hide NextLevel;
    if n == 1 {
      NextLevelAt(h, level, 0);
      assert level[..1][0] == level[0] && level[1..][0] == level[1];
    } else {
      var half := Pow2(n - 1);
      NextLevelSplits(h, level, Pow2(n - 2));
      TreeRootOfNextLevel(h, level[..half], n - 1);
      TreeRootOfNextLevel(h, level[half..], n - 1);
    }
  }

  /** The level-by-level computation reaches the root of the tree. */
  lemma {:induction false} LevelsReachRoot(h: Hashes, leaves: seq<int>, n: nat, d: nat)
    requires |leaves| == Pow2(n) && d <= n
    ensures |LevelAt(h, leaves, d)| == Pow2(n - d)
    ensures TreeRoot(h, LevelAt(h, leaves, d), n - d) == TreeRoot(h, leaves, n)
  {
    hide NextLevel, TreeRoot;
    LevelSize(h, leaves, n, d);
    if d > 0 {
      LevelsReachRoot(h, leaves, n, d - 1);
      TreeRootOfNextLevel(h, LevelAt(h, leaves, d - 1), n - d + 1);
    }
  }

  // ----- padding and empty subtrees

  function Pad(h: Hashes, leaves: seq<int>, size: nat): (padded: seq<int>)
    requires |leaves| <= size
    ensures |padded| == size
    ensures forall i :: 0 <= i < size ==> padded[i] == if i < |leaves| then leaves[i] else Padding(h)
  {
    leaves + seq(size - |leaves|, _ => Padding(h))
  }

  /** The root of an all-padding subtree of height d. */
  function ZeroHash(h: Hashes, d: nat): int {
    if d == 0 then Padding(h) else Parent(h, ZeroHash(h, d - 1), ZeroHash(h, d - 1))
  }

  /** zeroHashes. */
  method ZeroHashes(h: Hashes, depth: nat) returns (zeros: seq<int>)
    ensures |zeros| == depth + 1
    ensures forall d :: 0 <= d <= depth ==> zeros[d] == ZeroHash(h, d)
  {
    zeros := [Padding(h)];
    for i := 1 to depth + 1
      invariant |zeros| == i
      invariant forall d :: 0 <= d < i ==> zeros[d] == ZeroHash(h, d)
    {
      zeros := zeros + [Parent(h, zeros[i - 1], zeros[i - 1])];
    }
  }

  /** The root an incremental accumulator keeps: empty subtrees are never built. */
  function SparseRoot(h: Hashes, leaves: seq<int>, n: nat): int
    requires |leaves| <= Pow2(n)
  {
    if leaves == [] then ZeroHash(h, n)
    else if n == 0 then leaves[0]
    else
      var half := Pow2(n - 1);
      if |leaves| <= half then Parent(h, SparseRoot(h, leaves, n - 1), ZeroHash(h, n - 1))
      else Parent(h, SparseRoot(h, leaves[..half], n - 1), SparseRoot(h, leaves[half..], n - 1))
  }

  lemma {:induction false} PaddedRootIsSparse(h: Hashes, leaves: seq<int>, n: nat)
    requires |leaves| <= Pow2(n)
    ensures TreeRoot(h, Pad(h, leaves, Pow2(n)), n) == SparseRoot(h, leaves, n)
    decreases n
  {
    if n > 0 {
      var half := Pow2(n - 1);
      var padded := Pad(h, leaves, Pow2(n));
      if |leaves| <= half {
        assert padded[..half] == Pad(h, leaves, half);
        assert padded[half..] == Pad(h, [], half);
        PaddedRootIsSparse(h, leaves, n - 1);
        PaddedRootIsSparse(h, [], n - 1);
      } else {
        assert padded[..half] == leaves[..half] == Pad(h, leaves[..half], half);
        assert padded[half..] == Pad(h, leaves[half..], half);
        PaddedRootIsSparse(h, leaves[..half], n - 1);
        PaddedRootIsSparse(h, leaves[half..], n - 1);
      }
    }
  }

  // ----- binding

  /** The two nodes hashed into the root. */
  function HalfRoots(h: Hashes, a: seq<int>, n: nat): seq<int>
    requires n > 0 && |a| == Pow2(n)
  {
    var half := Pow2(n - 1);
    [TreeRoot(h, a[..half], n - 1), TreeRoot(h, a[half..], n - 1)]
  }

  /** Walks two trees from the root and returns the first pair of unequal node pairs met. */
  function FindCollision(h: Hashes, a: seq<int>, b: seq<int>, n: nat): Option<Collision>
    requires |a| == Pow2(n) == |b|
  {
    if n == 0 then None
    else
      var x, y := HalfRoots(h, a, n), HalfRoots(h, b, n);
      if Residues(x) != Residues(y) then Some(Collision(x, y))
      else
        var half := Pow2(n - 1);
        var left := FindCollision(h, a[..half], b[..half], n - 1);
        if left.Some? then left else FindCollision(h, a[half..], b[half..], n - 1)
  }

  lemma TreeRootHalves(h: Hashes, a: seq<int>, n: nat)
    requires n > 0 && |a| == Pow2(n)
    ensures TreeRoot(h, a, n) == Poseidon(h, HalfRoots(h, a, n)) == Residue(TreeRoot(h, a, n))
  {
    hide Residue, Residues;
    SmallResidue(Poseidon(h, HalfRoots(h, a, n)));
  }

  lemma ResiduesAppend(a: seq<int>, b: seq<int>)
    ensures Residues(a + b) == Residues(a) + Residues(b)
  {}

  lemma HalvesDetermine(a: seq<int>, b: seq<int>, half: nat)
    requires |a| == 2 * half == |b|
    ensures Residues(a) == Residues(b)
            <==> Residues(a[..half]) == Residues(b[..half]) && Residues(a[half..]) == Residues(b[half..])
  {
    hide Residues;
    ResiduesAppend(a[..half], a[half..]);
    ResiduesAppend(b[..half], b[half..]);
    assert a == a[..half] + a[half..] && b == b[..half] + b[half..];
    SplitEqual(Residues(a[..half]), Residues(a[half..]), Residues(b[..half]), Residues(b[half..]));
  }

  /**
    Equal roots: the leaves are the same field elements, or the walk returns an
    explicit collision.
   */
  lemma {:induction false} RootBinding(h: Hashes, a: seq<int>, b: seq<int>, n: nat)
    requires |a| == Pow2(n) == |b| && Residue(TreeRoot(h, a, n)) == Residue(TreeRoot(h, b, n))
    ensures FindCollision(h, a, b, n).None? <==> Residues(a) == Residues(b)
    ensures FindCollision(h, a, b, n).Some? ==> IsCollision(h, FindCollision(h, a, b, n).value)
  {
    hide IsCollision, Residue, Residues;
    if n == 0 {
      OneLeaf(a, b);
    } else {
      RootBindingStep(h, a, b, n);
      if Residues(HalfRoots(h, a, n)) == Residues(HalfRoots(h, b, n)) {
        var half := Pow2(n - 1);
        HalfRootsAgree(h, a, b, n);
        RootBinding(h, a[..half], b[..half], n - 1);
        RootBinding(h, a[half..], b[half..], n - 1);
      }
    }
  }

  lemma OneLeaf(a: seq<int>, b: seq<int>)
    requires |a| == 1 == |b| && Residue(a[0]) == Residue(b[0])
    ensures Residues(a) == Residues(b)
  {}

  lemma HalfRootsAgree(h: Hashes, a: seq<int>, b: seq<int>, n: nat)
    requires n > 0 && |a| == Pow2(n) == |b| && Residues(HalfRoots(h, a, n)) == Residues(HalfRoots(h, b, n))
    ensures var half := Pow2(n - 1);
            && Residue(TreeRoot(h, a[..half], n - 1)) == Residue(TreeRoot(h, b[..half], n - 1))
            && Residue(TreeRoot(h, a[half..], n - 1)) == Residue(TreeRoot(h, b[half..], n - 1))
  {
    hide TreeRoot;
    var x, y := HalfRoots(h, a, n), HalfRoots(h, b, n);
    assert Residues(x)[0] == Residues(y)[0] && Residues(x)[1] == Residues(y)[1];
  }

  /** One node of the walk; equal leaves below it would make its children equal. */
  lemma RootBindingStep(h: Hashes, a: seq<int>, b: seq<int>, n: nat)
    requires n > 0 && |a| == Pow2(n) == |b| && Residue(TreeRoot(h, a, n)) == Residue(TreeRoot(h, b, n))
    ensures Residues(HalfRoots(h, a, n)) != Residues(HalfRoots(h, b, n)) ==>
              Residues(a) != Residues(b) && IsCollision(h, Collision(HalfRoots(h, a, n), HalfRoots(h, b, n)))
    ensures var half := Pow2(n - 1);
            Residues(a) == Residues(b)
            <==> Residues(a[..half]) == Residues(b[..half]) && Residues(a[half..]) == Residues(b[half..])
  {
    hide TreeRoot, Residue, Residues;
    TreeRootHalves(h, a, n);
    TreeRootHalves(h, b, n);
    HalvesDetermine(a, b, Pow2(n - 1));
    if Residues(a) == Residues(b) {
      SameHalfRoots(h, a, b, n);
    }
  }

  lemma SameHalfRoots(h: Hashes, a: seq<int>, b: seq<int>, n: nat)
    requires n > 0 && |a| == Pow2(n) == |b| && Residues(a) == Residues(b)
    ensures Residues(HalfRoots(h, a, n)) == Residues(HalfRoots(h, b, n))
    decreases n, 0
  {
    hide TreeRoot, Residue;
    var half := Pow2(n - 1);
    HalvesDetermine(a, b, half);
    SameLeavesSameRoot(h, a[..half], b[..half], n - 1);
    SameLeavesSameRoot(h, a[half..], b[half..], n - 1);
  }

  lemma {:induction false} SameLeavesSameRoot(h: Hashes, a: seq<int>, b: seq<int>, n: nat)
    requires |a| == Pow2(n) == |b| && Residues(a) == Residues(b)
    ensures Residue(TreeRoot(h, a, n)) == Residue(TreeRoot(h, b, n))
    decreases n, 1
  {
    hide Residue;
    if n == 0 {
      assert Residues(a)[0] == Residues(b)[0];
    } else {
      SameHalfRoots(h, a, b, n);
      TreeRootHalves(h, a, n);
      TreeRootHalves(h, b, n);
    }
  }

  // ----- inclusion proofs

  datatype MerkleProof = MerkleProof(
    leaf: int, index: nat, siblings: seq<int>, pathIndices: seq<int>, root: int)

  /** The two inputs hashed at level d on the way up. */
  function StepInput(node: int, sibling: int, right: bool): seq<int> {
    if right then [sibling, node] else [node, sibling]
  }

  predicate GoesRight(path: seq<int>, d: nat) {
    d < |path| && path[d] == 1
  }

  /** The node k levels up that a leaf and its siblings claim. */
  function Folded(h: Hashes, leaf: int, siblings: seq<int>, path: seq<int>, k: nat): int
    requires k <= |siblings|
  {
    if k == 0 then leaf
    else Poseidon(h, StepInput(Folded(h, leaf, siblings, path, k - 1), siblings[k - 1], GoesRight(path, k - 1)))
  }

  predicate Accepts(h: Hashes, proof: MerkleProof) {
    Folded(h, proof.leaf, proof.siblings, proof.pathIndices, |proof.siblings|) == proof.root
  }

  function IndexAt(index: nat, d: nat): nat {
    if d == 0 then index else IndexAt(index, d - 1) / 2
  }

  function SiblingIndex(i: nat): nat {
    if i % 2 == 1 then i - 1 else i + 1
  }

  lemma {:induction false} IndexInLevel(index: nat, n: nat, d: nat)
    requires index < Pow2(n) && d <= n
    ensures IndexAt(index, d) < Pow2(n - d)
  {
    if d > 0 {
      IndexInLevel(index, n, d - 1);
    }
  }

  /** Below the root a path's node has a neighbour in its level. */
  lemma NodeInLevel(h: Hashes, leaves: seq<int>, n: nat, index: nat, d: nat)
    requires |leaves| == Pow2(n) && index < Pow2(n) && d < n
    ensures |LevelAt(h, leaves, d)| == 2 * Pow2(n - d - 1) && IndexAt(index, d) < |LevelAt(h, leaves, d)|
  {
    hide LevelAt, IndexAt;
    LevelSize(h, leaves, n, d);
    IndexInLevel(index, n, d);
  }

  function Neighbour(level: seq<int>, i: nat): int
    requires |level| % 2 == 0 && i < |level|
  {
    level[SiblingIndex(i)]
  }

  function SiblingsOf(h: Hashes, leaves: seq<int>, n: nat, index: nat, d: nat): (s: seq<int>)
    requires |leaves| == Pow2(n) && index < Pow2(n) && d <= n
    ensures |s| == d
  {
    if d == 0 then []
    else
      NodeInLevel(h, leaves, n, index, d - 1);
      SiblingsOf(h, leaves, n, index, d - 1) + [Neighbour(LevelAt(h, leaves, d - 1), IndexAt(index, d - 1))]
  }

  /** The binary digits of an index, least significant first. */
  function Bits(index: nat, d: nat): (path: seq<int>)
    ensures |path| == d
  {
    if d == 0 then [] else Bits(index, d - 1) + [IndexAt(index, d - 1) % 2]
  }

  function BitsValue(path: seq<int>): int {
    if path == [] then 0 else BitsValue(path[..|path| - 1]) + path[|path| - 1] * Pow2(|path| - 1)
  }

  lemma {:induction false} BitsAreDigits(index: nat, d: nat)
    ensures BitsValue(Bits(index, d)) + IndexAt(index, d) * Pow2(d) == index
    ensures forall i :: 0 <= i < d ==> Bits(index, d)[i] == 0 || Bits(index, d)[i] == 1
  {
    if d > 0 {
      BitsAreDigits(index, d - 1);
      assert Bits(index, d)[..d - 1] == Bits(index, d - 1);
      DigitStep(IndexAt(index, d - 1), Pow2(d - 1));
    }
  }

  lemma DigitStep(i: nat, p: nat)
    ensures i % 2 * p + i / 2 * (2 * p) == i * p
  {
    assert i == i % 2 + 2 * (i / 2);
    assert i / 2 * (2 * p) == 2 * (i / 2) * p;
    assert (i % 2 + 2 * (i / 2)) * p == i % 2 * p + 2 * (i / 2) * p;
  }

  /** Below the capacity the digits are the whole index. */
  lemma BitsValueIs(index: nat, n: nat)
    requires index < Pow2(n)
    ensures BitsValue(Bits(index, n)) == index
  {
    IndexInLevel(index, n, n);
    BitsAreDigits(index, n);
  }

  /** Folding an honest path visits exactly the nodes of the tree above the leaf. */
  lemma {:induction false} FoldFollowsTree(h: Hashes, leaves: seq<int>, n: nat, index: nat, siblings: seq<int>, path: seq<int>, k: nat)
    requires |leaves| == Pow2(n) && index < Pow2(n) && k <= n
    requires |siblings| == n == |path|
    requires forall d :: 0 <= d < n ==> path[d] == IndexAt(index, d) % 2
    requires forall d :: 0 <= d < n ==> HoldsSibling(h, leaves, n, index, siblings, d)
    ensures |LevelAt(h, leaves, k)| == Pow2(n - k) && IndexAt(index, k) < Pow2(n - k)
    ensures Folded(h, leaves[index], siblings, path, k) == LevelAt(h, leaves, k)[IndexAt(index, k)]
  {
    hide NextLevel, HoldsSibling, LevelAt, Folded, IndexAt;
    LevelSize(h, leaves, n, k);
    IndexInLevel(index, n, k);
    LevelStep(h, leaves, index, k);
    if k == 0 {
      FoldStart(h, leaves[index], siblings, path);
    } else {
      FoldFollowsTree(h, leaves, n, index, siblings, path, k - 1);
      SiblingAt(h, leaves, n, index, siblings, k - 1);
      PathStep(h, leaves[index], siblings, path, k);
      FoldStep(h, LevelAt(h, leaves, k - 1), IndexAt(index, k - 1), path[k - 1]);
    }
  }

  lemma FoldStart(h: Hashes, leaf: int, siblings: seq<int>, path: seq<int>)
    ensures Folded(h, leaf, siblings, path, 0) == leaf
  {}

  lemma LevelStep(h: Hashes, leaves: seq<int>, index: nat, k: nat)
    ensures k == 0 ==> LevelAt(h, leaves, k) == leaves && IndexAt(index, k) == index
    ensures k > 0 ==> LevelAt(h, leaves, k) == NextLevel(h, LevelAt(h, leaves, k - 1))
                      && IndexAt(index, k) == IndexAt(index, k - 1) / 2
  {
    hide NextLevel;
  }

  lemma SiblingAt(h: Hashes, leaves: seq<int>, n: nat, index: nat, siblings: seq<int>, d: nat)
    requires |leaves| == Pow2(n) && index < Pow2(n) && d < n && |siblings| == n
    requires HoldsSibling(h, leaves, n, index, siblings, d)
    ensures |LevelAt(h, leaves, d)| == 2 * Pow2(n - d - 1) && IndexAt(index, d) < |LevelAt(h, leaves, d)|
    ensures siblings[d] == Neighbour(LevelAt(h, leaves, d), IndexAt(index, d))
  {
    hide LevelAt, IndexAt;
    NodeInLevel(h, leaves, n, index, d);
  }

  /** Hashing a node with its neighbour gives the node above. */
  lemma FoldStep(h: Hashes, below: seq<int>, i: nat, bit: int)
    requires |below| % 2 == 0 && i < |below| && bit == i % 2
    ensures Poseidon(h, StepInput(below[i], Neighbour(below, i), bit == 1)) == NextLevel(h, below)[i / 2]
  {
    NextLevelAt(h, below, i / 2);
  }

  /** siblings[d] is the neighbour of the path's node at level d. */
  ghost predicate HoldsSibling(h: Hashes, leaves: seq<int>, n: nat, index: nat, siblings: seq<int>, d: nat)
    requires |leaves| == Pow2(n) && index < Pow2(n) && d < n && |siblings| == n
  {
    NodeInLevel(h, leaves, n, index, d);
    siblings[d] == Neighbour(LevelAt(h, leaves, d), IndexAt(index, d))
  }

  lemma {:induction false} SiblingsHold(h: Hashes, leaves: seq<int>, n: nat, index: nat, d: nat, i: nat)
    requires |leaves| == Pow2(n) && index < Pow2(n) && i < d <= n
    ensures |LevelAt(h, leaves, i)| == 2 * Pow2(n - i - 1) && IndexAt(index, i) < |LevelAt(h, leaves, i)|
    ensures SiblingsOf(h, leaves, n, index, d)[i] == Neighbour(LevelAt(h, leaves, i), IndexAt(index, i))
  {
    hide LevelAt, IndexAt;
    NodeInLevel(h, leaves, n, index, i);
    if i < d - 1 {
      SiblingsHold(h, leaves, n, index, d - 1, i);
    }
  }

  lemma {:induction false} BitAt(index: nat, d: nat, i: nat)
    requires i < d
    ensures Bits(index, d)[i] == IndexAt(index, i) % 2
  {
    if i < d - 1 {
      BitAt(index, d - 1, i);
    }
  }

  lemma ProofStart(h: Hashes, leaves: seq<int>, n: nat, index: nat)
    requires |leaves| == Pow2(n) && index < Pow2(n)
    ensures SiblingsOf(h, leaves, n, index, 0) == [] && Bits(index, 0) == []
    ensures LevelAt(h, leaves, 0) == leaves && IndexAt(index, 0) == index
  {}

  /** What one level adds to a proof. */
  lemma ProofStep(h: Hashes, leaves: seq<int>, n: nat, index: nat, d: nat)
    requires |leaves| == Pow2(n) && index < Pow2(n) && d < n
    ensures |LevelAt(h, leaves, d)| == 2 * Pow2(n - d - 1) && IndexAt(index, d) < |LevelAt(h, leaves, d)|
    ensures SiblingsOf(h, leaves, n, index, d + 1)
            == SiblingsOf(h, leaves, n, index, d) + [Neighbour(LevelAt(h, leaves, d), IndexAt(index, d))]
    ensures Bits(index, d + 1) == Bits(index, d) + [IndexAt(index, d) % 2]
  {
    hide NextLevel, LevelAt, IndexAt;
    NodeInLevel(h, leaves, n, index, d);
  }

  function ProofFor(h: Hashes, leaves: seq<int>, n: nat, index: nat): MerkleProof
    requires |leaves| == Pow2(n) && index < Pow2(n)
  {
    MerkleProof(leaves[index], index, SiblingsOf(h, leaves, n, index, n), Bits(index, n), TreeRoot(h, leaves, n))
  }

  /** Every leaf position has an accepted proof against the root. */
  lemma ProofAccepted(h: Hashes, leaves: seq<int>, n: nat, index: nat)
    requires |leaves| == Pow2(n) && index < Pow2(n)
    ensures Accepts(h, ProofFor(h, leaves, n, index))
    ensures BitsValue(ProofFor(h, leaves, n, index).pathIndices) == index
  {
    hide NextLevel, TreeRoot, SiblingsOf, Bits, Folded;
    var siblings, path := SiblingsOf(h, leaves, n, index, n), Bits(index, n);
    forall d | 0 <= d < n
      ensures path[d] == IndexAt(index, d) % 2 && HoldsSibling(h, leaves, n, index, siblings, d)
    {
      BitAt(index, n, d);
      SiblingsHold(h, leaves, n, index, n, d);
    }
    FoldFollowsTree(h, leaves, n, index, siblings, path, n);
    TopLevel(h, leaves, n);
    IndexInLevel(index, n, n);
    BitsValueIs(index, n);
  }

  /** After n pairings only the root is left. */
  lemma TopLevel(h: Hashes, leaves: seq<int>, n: nat)
    requires |leaves| == Pow2(n)
    ensures LevelAt(h, leaves, n) == [TreeRoot(h, leaves, n)]
  {
    hide LevelAt;
    LevelsReachRoot(h, leaves, n, n);
  }

  /** The topmost level at which two claimed paths hash different inputs. */
  function FindPathCollision(h: Hashes, a: int, s: seq<int>, b: int, t: seq<int>, path: seq<int>, k: nat): Option<Collision>
    requires k <= |s| && k <= |t|
  {
    if k == 0 then None
    else
      var x := StepInput(Folded(h, a, s, path, k - 1), s[k - 1], GoesRight(path, k - 1));
      var y := StepInput(Folded(h, b, t, path, k - 1), t[k - 1], GoesRight(path, k - 1));
      if Residues(x) != Residues(y) then Some(Collision(x, y)) else FindPathCollision(h, a, s, b, t, path, k - 1)
  }

  /** The same field elements at the first k places. */
  ghost predicate SameElements(s: seq<int>, t: seq<int>, k: nat)
    requires k <= |s| && k <= |t|
  {
    forall i :: 0 <= i < k ==> Residue(s[i]) == Residue(t[i])
  }

  /**
    Two accepted proofs along one path to one root: leaf and siblings are the
    same field elements, or an explicit collision is found.
   */
  lemma {:induction false} PathBinding(h: Hashes, a: int, s: seq<int>, b: int, t: seq<int>, path: seq<int>, k: nat)
    requires k <= |s| && k <= |t| && Residue(Folded(h, a, s, path, k)) == Residue(Folded(h, b, t, path, k))
    ensures FindPathCollision(h, a, s, b, t, path, k).None? <==> Residue(a) == Residue(b) && SameElements(s, t, k)
    ensures FindPathCollision(h, a, s, b, t, path, k).Some? ==>
              IsCollision(h, FindPathCollision(h, a, s, b, t, path, k).value)
  {
    hide Residue, Residues;
    if k > 0 {
      PathStep(h, a, s, path, k);
      PathStep(h, b, t, path, k);
      var u, v := Folded(h, a, s, path, k - 1), Folded(h, b, t, path, k - 1);
      StepInputInjective(u, s[k - 1], v, t[k - 1], GoesRight(path, k - 1));
      if Residue(u) == Residue(v) && Residue(s[k - 1]) == Residue(t[k - 1]) {
        PathBinding(h, a, s, b, t, path, k - 1);
      } else if Residue(a) == Residue(b) && SameElements(s, t, k) {
        SameFold(h, a, s, b, t, path, k - 1);
      }
    }
  }

  lemma PathStep(h: Hashes, a: int, s: seq<int>, path: seq<int>, k: nat)
    requires 0 < k <= |s|
    ensures Folded(h, a, s, path, k)
            == Poseidon(h, StepInput(Folded(h, a, s, path, k - 1), s[k - 1], GoesRight(path, k - 1)))
            == Residue(Folded(h, a, s, path, k))
  {
    hide Residue, Residues;
    SmallResidue(Poseidon(h, StepInput(Folded(h, a, s, path, k - 1), s[k - 1], GoesRight(path, k - 1))));
  }

  /** Which side the sibling goes on: left where the path says 1, right everywhere else. */
  lemma FoldDirection(h: Hashes, a: int, s: seq<int>, path: seq<int>, k: nat)
    requires 0 < k <= |s|
    ensures Folded(h, a, s, path, 0) == a
    ensures var below := Folded(h, a, s, path, k - 1);
            Folded(h, a, s, path, k) == if k <= |path| && path[k - 1] == 1 then Parent(h, s[k - 1], below)
                                        else Parent(h, below, s[k - 1])
  {
    hide Poseidon;
  }

  lemma StepInputInjective(u: int, s: int, v: int, t: int, right: bool)
    ensures Residues(StepInput(u, s, right)) == Residues(StepInput(v, t, right))
            <==> Residue(u) == Residue(v) && Residue(s) == Residue(t)
  {
    hide Residue;
    var x, y := Residues(StepInput(u, s, right)), Residues(StepInput(v, t, right));
    if x == y {
      assert x[0] == y[0] && x[1] == y[1];
    }
  }

  lemma {:induction false} SameFold(h: Hashes, a: int, s: seq<int>, b: int, t: seq<int>, path: seq<int>, k: nat)
    requires k <= |s| && k <= |t| && Residue(a) == Residue(b) && SameElements(s, t, k)
    ensures Residue(Folded(h, a, s, path, k)) == Residue(Folded(h, b, t, path, k))
  {
    hide Residue, Residues;
    if k > 0 {
      SameFold(h, a, s, b, t, path, k - 1);
      StepInputInjective(Folded(h, a, s, path, k - 1), s[k - 1], Folded(h, b, t, path, k - 1), t[k - 1],
                         GoesRight(path, k - 1));
      PathStep(h, a, s, path, k);
      PathStep(h, b, t, path, k);
    }
  }

  // ----- the class

  /** The padded leaves of a tree of the given depth. */
  function PaddedLeavesOf(h: Hashes, leaves: seq<int>, depth: nat): (padded: seq<int>)
    requires |leaves| <= Pow2(depth)
    ensures |padded| == Pow2(depth)
  {
    Pad(h, leaves, Pow2(depth))
  }

  lemma PaddedAt(h: Hashes, leaves: seq<int>, depth: nat, i: nat)
    requires |leaves| <= Pow2(depth) && i < Pow2(depth)
    ensures PaddedLeavesOf(h, leaves, depth)[i] == if i < |leaves| then leaves[i] else Padding(h)
  {}

  function RootOf(h: Hashes, leaves: seq<int>, depth: nat): int
    requires |leaves| <= Pow2(depth)
  {
    TreeRoot(h, PaddedLeavesOf(h, leaves, depth), depth)
  }

  /** One pass of pairing, as both root and proof run it. */
  method PairUp(h: Hashes, level: seq<int>) returns (next: seq<int>)
    requires |level| % 2 == 0
    ensures next == NextLevel(h, level)
  {
    next := [];
    var i := 0;
    while i < |level|
      invariant 0 <= i <= |level| && i % 2 == 0 && |next| == i / 2
      invariant forall k :: 0 <= k < |next| ==> next[k] == Parent(h, level[2 * k], level[2 * k + 1])
    {
      next := next + [Parent(h, level[i], level[i + 1])];
      i := i + 2;
    }
  }

  class IncrementalMerkleTree {
    const h: Hashes
    const depth: nat
    const capacity: nat
    const zeros: seq<int>
    var leaves: seq<int>

    ghost predicate Valid()
      reads this
    {
      && capacity == Pow2(depth) && |leaves| <= capacity
      && |zeros| == depth + 1 && forall d :: 0 <= d <= depth ==> zeros[d] == ZeroHash(h, d)
    }

    constructor (h: Hashes, depth: nat)
      ensures Valid() && leaves == [] && this.h == h && this.depth == depth
    {
      var zeros := ZeroHashes(h, depth);
      this.h, this.depth, this.capacity, this.zeros := h, depth, Pow2(depth), zeros;
      leaves := [];
    }

    /** Appends a leaf, or refuses at capacity and changes nothing. */
    method Insert(leaf: int) returns (res: Result<nat>)
      requires Valid()
      modifies this`leaves
      ensures Valid()
      ensures if |old(leaves)| >= Pow2(depth) then res == Err(CapacityExhausted) && leaves == old(leaves)
              else res == Ok(|old(leaves)|) && leaves == old(leaves) + [leaf]
    {
      if |leaves| >= capacity {
        return Err(CapacityExhausted);
      }
      leaves := leaves + [leaf];
      return Ok(|leaves| - 1);
    }

    method PaddedLeaves() returns (padded: seq<int>)
      requires Valid()
      ensures padded == PaddedLeavesOf(h, leaves, depth)
    {
      padded := leaves;
      while |padded| < capacity
        invariant |leaves| <= |padded| <= capacity
        invariant forall i :: 0 <= i < |padded| ==> padded[i] == if i < |leaves| then leaves[i] else Padding(h)
      {
        padded := padded + [Padding(h)];
      }
    }

    /** The level-rebuilding loop computes the root of the tree, and of its sparse form. */
    method Root() returns (root: int)
      requires Valid()
      ensures root == RootOf(h, leaves, depth)
      ensures root == SparseRoot(h, leaves, depth)
    {
      hide NextLevel, TreeRoot, SparseRoot;
      var level := PaddedLeaves();
      ghost var padded := level;
      for d := 0 to depth
        invariant level == LevelAt(h, padded, d) && |level| == Pow2(depth - d)
      {
        LevelSize(h, padded, depth, d + 1);
        level := PairUp(h, level);
      }
      TopLevel(h, padded, depth);
      PaddedRootIsSparse(h, leaves, depth);
      root := level[0];
    }

    /** The inclusion proof for any position below the capacity, padded ones included. */
    method Proof(index: int) returns (res: Result<MerkleProof>)
      requires Valid()
      ensures res == if index < 0 || index >= Pow2(depth) then Err(IndexOutOfRange)
                     else Ok(ProofFor(h, PaddedLeavesOf(h, leaves, depth), depth, index))
      ensures res.Ok? ==> Accepts(h, res.value) && res.value.root == RootOf(h, leaves, depth)
      ensures res.Ok? ==> res.value.index == index && |res.value.siblings| == depth == |res.value.pathIndices|
      ensures res.Ok? ==> res.value.leaf == if index < |leaves| then leaves[index] else Padding(h)
      ensures res.Ok? ==> BitsValue(res.value.pathIndices) == index
    {
      hide NextLevel, TreeRoot, Accepts, SiblingsOf, Bits, BitsValue, LevelAt, IndexAt, PaddedLeavesOf, Pow2;
      if index < 0 || index >= capacity {
        return Err(IndexOutOfRange);
      }
      var siblings, pathIndices: seq<int> := [], [];
      var level := PaddedLeaves();
      ghost var padded := level;
      ProofStart(h, padded, depth, index);
      var idx: nat := index;
      for d := 0 to depth
        invariant level == LevelAt(h, padded, d) && |level| == Pow2(depth - d)
        invariant idx == IndexAt(index, d) < Pow2(depth - d)
        invariant siblings == SiblingsOf(h, padded, depth, index, d)
        invariant pathIndices == Bits(index, d)
      {
        var isRight := idx % 2 == 1;
        LevelSize(h, padded, depth, d + 1);
        IndexInLevel(index, depth, d + 1);
        LevelStep(h, padded, index, d + 1);
        ProofStep(h, padded, depth, index, d);
        siblings := siblings + [level[if isRight then idx - 1 else idx + 1]];
        pathIndices := pathIndices + [if isRight then 1 else 0];
        level := PairUp(h, level);
        idx := idx / 2;
      }
      TopLevel(h, padded, depth);
      ProofAccepted(h, padded, depth, index);
      PaddedAt(h, leaves, depth, index);
      var again := PaddedLeaves();
      return Ok(MerkleProof(again[index], index, siblings, pathIndices, level[0]));
    }
  }

  /** IncrementalMerkleTree.verify. */
  method Verify(h: Hashes, proof: MerkleProof) returns (ok: bool)
    ensures ok == Accepts(h, proof)
  {
    var node := proof.leaf;
    for d := 0 to |proof.siblings|
      invariant node == Folded(h, proof.leaf, proof.siblings, proof.pathIndices, d)
    {
      node := if d < |proof.pathIndices| && proof.pathIndices[d] == 1
      then Parent(h, proof.siblings[d], node)
      else Parent(h, node, proof.siblings[d]);
    }
    return node == proof.root;
  }

  /** IncrementalMerkleTree.emptyRoot: the root of a tree nobody inserted into. */
  method EmptyRoot(h: Hashes, depth: nat) returns (root: int)
    ensures root == RootOf(h, [], depth)
  {
    var zeros := ZeroHashes(h, depth);
    PaddedRootIsSparse(h, [], depth);
    root := zeros[depth];
  }

  /** rootFromLeaves: a fresh tree, filled in order. */
  method RootFromLeaves(h: Hashes, leaves: seq<int>, depth: nat) returns (res: Result<int>)
    ensures res == if |leaves| > Pow2(depth) then Err(TooManyLeaves) else Ok(RootOf(h, leaves, depth))
  {
    if |leaves| > Pow2(depth) {
      return Err(TooManyLeaves);
    }
    var tree := new IncrementalMerkleTree(h, depth);
    for i := 0 to |leaves|
      invariant tree.Valid() && tree.h == h && tree.depth == depth && fresh(tree)
      invariant tree.leaves == leaves[..i]
    {
      var _ := tree.Insert(leaves[i]);
    }
    assert leaves[..|leaves|] == leaves;
    var root := tree.Root();
    return Ok(root);
  }

  /**
    Two accumulators of one depth with one root hold the same padded leaves as
    field elements, or the walk over them returns a collision. When they hold
    equally many leaves they then hold the same leaves.
   */
  lemma AccumulatorBinding(h: Hashes, a: seq<int>, b: seq<int>, depth: nat)
    requires |a| <= Pow2(depth) && |b| <= Pow2(depth) && RootOf(h, a, depth) == RootOf(h, b, depth)
    ensures var x := FindCollision(h, PaddedLeavesOf(h, a, depth), PaddedLeavesOf(h, b, depth), depth);
            match x
            case Some(c) => IsCollision(h, c)
            case None => Residues(PaddedLeavesOf(h, a, depth)) == Residues(PaddedLeavesOf(h, b, depth))
                         && (|a| == |b| ==> Residues(a) == Residues(b))
  {
    hide Residue;
    var p, r := PaddedLeavesOf(h, a, depth), PaddedLeavesOf(h, b, depth);
    RootBinding(h, p, r, depth);
    if Residues(p) == Residues(r) && |a| == |b| {
      assert forall i :: 0 <= i < |a| ==> Residue(a[i]) == Residues(p)[i] == Residues(r)[i] == Residue(b[i]);
    }
  }
}
