/** The sparse revocation tree: packages/crypto/src/witness.ts:74-159. */
module Revocation {
  import opened Prelude
  import opened Hashing
  import opened Merkle

  // ----- what the nodes are

  /** The root of an all-zero subtree: here a zero leaf is the default. */
  function EmptyHash(h: Hashes, d: nat): int {
    if d == 0 then 0 else Parent(h, EmptyHash(h, d - 1), EmptyHash(h, d - 1))
  }

  /** The two children of a node, in order, given which one lies on the path. */
  function Join(h: Hashes, onPath: int, other: int, right: bool): int {
    if right then Parent(h, other, onPath) else Parent(h, onPath, other)
  }

  /** The node above the revoked leaf at the given level. */
  function PathNode(h: Hashes, revoked: nat, marker: int, level: nat): int {
    if level == 0 then marker
    else Join(h, PathNode(h, revoked, marker, level - 1), EmptyHash(h, level - 1), IndexAt(revoked, level - 1) % 2 == 1)
  }

  /** Flipping the lowest bit of a block number names its sibling block. */
  function SiblingFor(h: Hashes, revoked: nat, marker: int, id: nat, level: nat): int {
    if IndexAt(revoked, level) == SiblingIndex(IndexAt(id, level)) then PathNode(h, revoked, marker, level)
    else EmptyHash(h, level)
  }

  function SiblingList(h: Hashes, revoked: nat, marker: int, id: nat, depth: nat): (s: seq<int>)
    ensures |s| == depth
    ensures forall i :: 0 <= i < depth ==> s[i] == SiblingFor(h, revoked, marker, id, i)
  {
    seq(depth, i requires 0 <= i < depth => SiblingFor(h, revoked, marker, id, i))
  }

  // ----- the code

  /** emptyRevocationTree. */
  method EmptyRevocationTree(h: Hashes, depth: nat) returns (root: int, siblings: seq<int>)
    ensures root == EmptyHash(h, depth)
    ensures |siblings| == depth && forall i :: 0 <= i < depth ==> siblings[i] == EmptyHash(h, i)
  {
    siblings := [];
    root := 0;
    for i := 0 to depth
      invariant |siblings| == i && root == EmptyHash(h, i)
      invariant forall k :: 0 <= k < i ==> siblings[k] == EmptyHash(h, k)
    {
      siblings := siblings + [root];
      root := Parent(h, root, root);
    }
  }

  /** The path bits of an id, least significant first. */
  method PathBits(id: nat, depth: nat) returns (bits: seq<int>)
    ensures bits == Bits(id, depth)
  {
    bits := [];
    var rest := id;
    for i := 0 to depth
      invariant bits == Bits(id, i) && rest == IndexAt(id, i)
    {
      bits := bits + [rest % 2];
      rest := rest / 2;
    }
  }

  /** The nodes along the revoked path, from the leaf upward. */
  method PathNodes(h: Hashes, revoked: nat, marker: int, bits: seq<int>, zeros: seq<int>) returns (pathNodes: seq<int>)
    requires |bits| == |zeros| && bits == Bits(revoked, |bits|)
    requires forall i :: 0 <= i < |zeros| ==> zeros[i] == EmptyHash(h, i)
    ensures |pathNodes| == |bits| + 1
    ensures forall i :: 0 <= i <= |bits| ==> pathNodes[i] == PathNode(h, revoked, marker, i)
  {
    hide Parent, EmptyHash, Bits, IndexAt;
    pathNodes := [marker];
    for level := 0 to |bits|
      invariant |pathNodes| == level + 1
      invariant forall i :: 0 <= i <= level ==> pathNodes[i] == PathNode(h, revoked, marker, i)
    {
      var node, sibling := pathNodes[level], zeros[level];
      BitAt(revoked, |bits|, level);
      pathNodes := pathNodes + [if bits[level] == 1 then Parent(h, sibling, node) else Parent(h, node, sibling)];
    }
  }

  /** What revocationTreeWith returns: the root, and the nodes siblingsFor consults. */
  class RevocationTree {
    const revoked: nat
    const depth: nat
    const zeros: seq<int>
    const pathNodes: seq<int>
    const root: int

    ghost predicate Valid(h: Hashes, marker: int) {
      && |zeros| == depth && |pathNodes| == depth + 1
      && (forall i :: 0 <= i < depth ==> zeros[i] == EmptyHash(h, i))
      && (forall i :: 0 <= i <= depth ==> pathNodes[i] == PathNode(h, revoked, marker, i))
      && root == PathNode(h, revoked, marker, depth)
    }

    /** revocationTreeWith. */
    constructor (h: Hashes, revoked: nat, marker: int, depth: nat)
      ensures Valid(h, marker) && this.revoked == revoked && this.depth == depth
    {
      var bits := PathBits(revoked, depth);
      var z, zeros := EmptyRevocationTree(h, depth);
      var pathNodes := PathNodes(h, revoked, marker, bits, zeros);
      this.revoked, this.depth, this.zeros, this.pathNodes := revoked, depth, zeros, pathNodes;
      this.root := pathNodes[depth];
    }

    /** siblingsFor. */
    method SiblingsFor(id: nat, ghost h: Hashes, ghost marker: int) returns (siblings: seq<int>)
      requires Valid(h, marker)
      ensures siblings == SiblingList(h, revoked, marker, id, depth)
    {
      siblings := [];
      var queryBlock, revokedBlock := id, revoked;
      for level := 0 to depth
        invariant |siblings| == level
        invariant queryBlock == IndexAt(id, level) && revokedBlock == IndexAt(revoked, level)
        invariant forall i :: 0 <= i < level ==> siblings[i] == SiblingFor(h, revoked, marker, id, i)
      {
        var siblingBlock := SiblingIndex(queryBlock);
        siblings := siblings + [if revokedBlock == siblingBlock then pathNodes[level] else zeros[level]];
        queryBlock, revokedBlock := queryBlock / 2, revokedBlock / 2;
      }
    }
  }

  // ----- the sibling rule

  function LeafOf(revoked: nat, marker: int, id: nat): int {
    if id == revoked then marker else 0
  }

  /** The node above id at a level: on the revoked path, or an empty subtree. */
  function NodeOf(h: Hashes, revoked: nat, marker: int, id: nat, level: nat): int {
    if IndexAt(id, level) == IndexAt(revoked, level) then PathNode(h, revoked, marker, level)
    else EmptyHash(h, level)
  }

  /** One level of the rule, for block numbers i (queried) and r (revoked). */
  lemma SiblingRule(h: Hashes, i: nat, r: nat, pathNode: int, empty: int)
    ensures var node := if i == r then pathNode else empty;
            var sibling := if r == SiblingIndex(i) then pathNode else empty;
            Join(h, node, sibling, i % 2 == 1)
            == if i / 2 == r / 2 then Join(h, pathNode, empty, r % 2 == 1) else Parent(h, empty, empty)
  {}

  /** For every pair of ids, folding the supplied siblings gives the node the tree has there. */
  lemma {:induction false} FoldIsNode(h: Hashes, revoked: nat, marker: int, id: nat, depth: nat, k: nat)
    requires k <= depth
    ensures Folded(h, LeafOf(revoked, marker, id), SiblingList(h, revoked, marker, id, depth), Bits(id, depth), k)
            == NodeOf(h, revoked, marker, id, k)
  {
    if k > 0 {
      FoldIsNode(h, revoked, marker, id, depth, k - 1);
      BitAt(id, depth, k - 1);
      SiblingRule(h, IndexAt(id, k - 1), IndexAt(revoked, k - 1), PathNode(h, revoked, marker, k - 1), EmptyHash(h, k - 1));
    }
  }

  /** The fold a verifier computes for an id. */
  function FoldFor(h: Hashes, revoked: nat, marker: int, id: nat, depth: nat): int {
    Folded(h, LeafOf(revoked, marker, id), SiblingList(h, revoked, marker, id, depth), Bits(id, depth), depth)
  }

  function RootFor(h: Hashes, revoked: nat, marker: int, depth: nat): int {
    PathNode(h, revoked, marker, depth)
  }

  /** Ids of the tree's range: the supplied siblings always lead to the root. */
  lemma SiblingsLeadToRoot(h: Hashes, revoked: nat, marker: int, id: nat, depth: nat)
    requires IndexAt(id, depth) == IndexAt(revoked, depth)
    ensures FoldFor(h, revoked, marker, id, depth) == RootFor(h, revoked, marker, depth)
  {
    FoldIsNode(h, revoked, marker, id, depth, depth);
  }

  lemma InRangeHasNoHighPart(id: nat, depth: nat)
    requires id < Pow2(depth)
    ensures IndexAt(id, depth) == 0
  {
    IndexInLevel(id, depth, depth);
  }

  lemma InRangeLeadsToRoot(h: Hashes, revoked: nat, marker: int, id: nat, depth: nat)
    requires revoked < Pow2(depth) && id < Pow2(depth)
    ensures FoldFor(h, revoked, marker, id, depth) == RootFor(h, revoked, marker, depth)
  {
    InRangeHasNoHighPart(id, depth);
    InRangeHasNoHighPart(revoked, depth);
    SiblingsLeadToRoot(h, revoked, marker, id, depth);
  }

  // ----- the tree behind it

  /** A vector holding v at one position and z elsewhere. */
  function OneHot(n: nat, at: nat, v: int, z: int): (s: seq<int>)
    ensures |s| == n && forall i :: 0 <= i < n ==> s[i] == if i == at then v else z
  {
    seq(n, i => if i == at then v else z)
  }

  /** The last d bits of an id: the position its path leads to. */
  function Low(id: nat, d: nat): (p: nat)
    ensures p < Pow2(d)
  {
    if d == 0 then 0 else id % 2 + 2 * Low(id / 2, d - 1)
  }

  lemma {:induction false} LowOfInRange(id: nat, d: nat)
    requires id < Pow2(d)
    ensures Low(id, d) == id
  {
    if d > 0 {
      LowOfInRange(id / 2, d - 1);
    }
  }

  lemma OneHotPairs(h: Hashes, m: nat, at: nat, v: int, z: int)
    requires at < 2 * m
    ensures NextLevel(h, OneHot(2 * m, at, v, z)) == OneHot(m, at / 2, Join(h, v, z, at % 2 == 1), Parent(h, z, z))
  {
    var level := OneHot(2 * m, at, v, z);
    var next := OneHot(m, at / 2, Join(h, v, z, at % 2 == 1), Parent(h, z, z));
    forall i | 0 <= i < m
      ensures NextLevel(h, level)[i] == next[i]
    {
      NextLevelAt(h, level, i);
    }
  }

  /** The full tree with one marked leaf. */
  function MarkedLeaves(revoked: nat, marker: int, depth: nat): (s: seq<int>)
    ensures |s| == Pow2(depth)
  {
    OneHot(Pow2(depth), Low(revoked, depth), marker, 0)
  }

  lemma {:induction false} MarkedLevel(h: Hashes, revoked: nat, marker: int, depth: nat, l: nat)
    requires l <= depth
    ensures LevelAt(h, MarkedLeaves(revoked, marker, depth), l)
            == OneHot(Pow2(depth - l), Low(IndexAt(revoked, l), depth - l),
                      PathNode(h, revoked, marker, l), EmptyHash(h, l))
  {
    hide NextLevel, OneHot;
    if l > 0 {
      MarkedLevel(h, revoked, marker, depth, l - 1);
      OneHotPairs(h, Pow2(depth - l), Low(IndexAt(revoked, l - 1), depth - l + 1),
                  PathNode(h, revoked, marker, l - 1), EmptyHash(h, l - 1));
    }
  }

  /** The returned root is the root of the full tree with the marker at one leaf. */
  lemma RootIsMarkedTree(h: Hashes, revoked: nat, marker: int, depth: nat)
    ensures RootFor(h, revoked, marker, depth) == TreeRoot(h, MarkedLeaves(revoked, marker, depth), depth)
    ensures revoked < Pow2(depth) ==> MarkedLeaves(revoked, marker, depth)[revoked] == marker
  {
    hide NextLevel, TreeRoot;
    var leaves := MarkedLeaves(revoked, marker, depth);
    MarkedLevel(h, revoked, marker, depth, depth);
    TopLevel(h, leaves, depth);
    assert [TreeRoot(h, leaves, depth)][0] == LevelAt(h, leaves, depth)[0] == PathNode(h, revoked, marker, depth);
    if revoked < Pow2(depth) {
      LowOfInRange(revoked, depth);
    }
  }

  /** In range, siblingsFor returns the very siblings of the full tree's inclusion proof. */
  lemma SiblingsAreTreeSiblings(h: Hashes, revoked: nat, marker: int, id: nat, depth: nat)
    requires revoked < Pow2(depth) && id < Pow2(depth)
    ensures SiblingList(h, revoked, marker, id, depth)
            == SiblingsOf(h, MarkedLeaves(revoked, marker, depth), depth, id, depth)
  {
    hide LevelAt, NextLevel, PathNode, EmptyHash;
    var leaves := MarkedLeaves(revoked, marker, depth);
    forall l | 0 <= l < depth
      ensures SiblingFor(h, revoked, marker, id, l) == SiblingsOf(h, leaves, depth, id, depth)[l]
    {
      SiblingsHold(h, leaves, depth, id, depth, l);
      MarkedLevel(h, revoked, marker, depth, l);
      IndexInLevel(revoked, depth, l);
      LowOfInRange(IndexAt(revoked, l), depth - l);
    }
  }

  // ----- ids beyond the range

  lemma {:induction false} EmptyHashIsTree(h: Hashes, depth: nat)
    ensures EmptyHash(h, depth) == TreeRoot(h, OneHot(Pow2(depth), 0, 0, 0), depth)
  {
    if depth > 0 {
      var half := Pow2(depth - 1);
      var all := OneHot(Pow2(depth), 0, 0, 0);
      assert all[..half] == OneHot(half, 0, 0, 0) && all[half..] == OneHot(half, 0, 0, 0);
      EmptyHashIsTree(h, depth - 1);
    }
  }

  /** The collision to report when an empty tree and a marked one share their root. */
  function EmptyRootCollision(h: Hashes, revoked: nat, marker: int, depth: nat): Option<Collision> {
    FindCollision(h, MarkedLeaves(revoked, marker, depth), OneHot(Pow2(depth), 0, 0, 0), depth)
  }

  /**
    Path bits are cut at the depth but block numbers are not, so ids beyond the
    range behave differently: the supplied siblings lead to the root exactly when
    the two ids agree above the depth, or a collision is at hand.
   */
  lemma LeadsToRootIff(h: Hashes, revoked: nat, marker: int, id: nat, depth: nat)
    requires Residue(marker) != 0
    ensures IndexAt(id, depth) == IndexAt(revoked, depth) ==>
              FoldFor(h, revoked, marker, id, depth) == RootFor(h, revoked, marker, depth)
    ensures IndexAt(id, depth) != IndexAt(revoked, depth) ==>
              || FoldFor(h, revoked, marker, id, depth) != RootFor(h, revoked, marker, depth)
              || (EmptyRootCollision(h, revoked, marker, depth).Some?
                  && IsCollision(h, EmptyRootCollision(h, revoked, marker, depth).value))
  {
    hide Folded, PathNode, EmptyHash, TreeRoot, IndexAt, IsCollision, Bits, SiblingList, Residue;
    FoldIsNode(h, revoked, marker, id, depth, depth);
    RootIsMarkedTree(h, revoked, marker, depth);
    EmptyHashIsTree(h, depth);
    var marked, empty := MarkedLeaves(revoked, marker, depth), OneHot(Pow2(depth), 0, 0, 0);
    MarkedDiffers(revoked, marker, depth);
    if TreeRoot(h, marked, depth) == TreeRoot(h, empty, depth) {
      RootBinding(h, marked, empty, depth);
    }
  }

  lemma MarkedDiffers(revoked: nat, marker: int, depth: nat)
    requires Residue(marker) != 0
    ensures Residues(MarkedLeaves(revoked, marker, depth)) != Residues(OneHot(Pow2(depth), 0, 0, 0))
  {
    hide Residue;
    var at := Low(revoked, depth);
    SmallResidue(0);
    assert Residues(MarkedLeaves(revoked, marker, depth))[at] == Residue(marker);
    assert Residues(OneHot(Pow2(depth), 0, 0, 0))[at] == 0;
  }

  // ----- revocation binds

  /**
    A revoked credential cannot be shown unrevoked: any siblings that fold a zero
    leaf at its position to the root contain, with the honest ones, a collision.
   */
  lemma RevocationBinds(h: Hashes, revoked: nat, marker: int, depth: nat, siblings: seq<int>)
    requires Residue(marker) != 0 && |siblings| == depth
    requires Folded(h, 0, siblings, Bits(revoked, depth), depth) == RootFor(h, revoked, marker, depth)
    ensures var honest := SiblingList(h, revoked, marker, revoked, depth);
            var x := FindPathCollision(h, 0, siblings, marker, honest, Bits(revoked, depth), depth);
            x.Some? && IsCollision(h, x.value)
  {
    hide Residue, Residues, PathNode, EmptyHash, IsCollision;
    SmallResidue(0);
    FoldIsNode(h, revoked, marker, revoked, depth, depth);
    PathBinding(h, 0, siblings, marker, SiblingList(h, revoked, marker, revoked, depth), Bits(revoked, depth), depth);
  }

  /** The marker must differ from zero in the field: one that does not revokes nothing. */
  lemma ZeroMarkerRevokesNothing(h: Hashes, revoked: nat, marker: int, depth: nat)
    requires Residue(marker) == 0 && depth > 0
    ensures Folded(h, 0, SiblingList(h, revoked, marker, revoked, depth), Bits(revoked, depth), depth)
            == RootFor(h, revoked, marker, depth)
  {
    hide Residue, Residues, PathNode, EmptyHash;
    SmallResidue(0);
    var siblings, path := SiblingList(h, revoked, marker, revoked, depth), Bits(revoked, depth);
    FoldIsNode(h, revoked, marker, revoked, depth, depth);
    SameFold(h, 0, siblings, marker, siblings, path, depth);
    PathStep(h, 0, siblings, path, depth);
    PathStep(h, marker, siblings, path, depth);
  }

  /** With nothing revoked, one sibling list serves every id. */
  lemma {:induction false} EmptyTreeServesAll(h: Hashes, id: nat, siblings: seq<int>, depth: nat, k: nat)
    requires k <= depth == |siblings| && forall i :: 0 <= i < depth ==> siblings[i] == EmptyHash(h, i)
    ensures Folded(h, 0, siblings, Bits(id, depth), k) == EmptyHash(h, k)
  {
    if k > 0 {
      EmptyTreeServesAll(h, id, siblings, depth, k - 1);
    }
  }
}
