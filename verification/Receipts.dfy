/**
  Storage receipts (packages/crypto/src/encoding.ts:83-106 and
  packages/crypto/src/sealedbid.ts:283-318) and the issuer registry
  (packages/crypto/src/witness.ts:47-72): the other users of the accumulator.
 */
module Receipts {
  import opened Prelude
  import opened Bytes
  import opened Hashing
  import opened Merkle
  import opened Sorting

  const STORAGE_REPLICAS := 3
  const STORAGE_QUORUM := 2
  const RECEIPT_TREE_DEPTH := 2
  const ISSUER_TREE_DEPTH := 4

  datatype StorageReceipt = StorageReceipt(
    replicaId: int, contentHash: seq<byte>, byteLength: int, signature: seq<byte>)

  function ReplicaId(r: StorageReceipt): int { r.replicaId }

  function ReceiptPreimage(h: Hashes, r: StorageReceipt): Result<seq<byte>> {
    if |r.signature| != 65 then Err(WrongLength)
    else
      var id :- Encoded(r.replicaId, 1);
      var length :- Encoded(r.byteLength, 8);
      Ok(Raw(h, "FairProof:receipt:v1") + id + r.contentHash + length + r.signature)
  }

  /** receiptLeaf. */
  function ReceiptLeaf(h: Hashes, r: StorageReceipt): Result<int> {
    var bytes :- ReceiptPreimage(h, r);
    Ok(ToField(h.keccak(bytes)))
  }

  /** The preimage binds every field: different receipts never share one. */
  lemma ReceiptPreimageInjective(h: Hashes, r: StorageReceipt, s: StorageReceipt)
    requires ReceiptPreimage(h, r).Ok? && ReceiptPreimage(h, r) == ReceiptPreimage(h, s)
    ensures r == s
  {
    hide BeBytes, Pow256;
    var d := Raw(h, "FairProof:receipt:v1");
    var i, j := Encoded(r.replicaId, 1).value, Encoded(s.replicaId, 1).value;
    var m, n := Encoded(r.byteLength, 8).value, Encoded(s.byteLength, 8).value;
    var x, y := d + i + r.contentHash + m + r.signature, d + j + s.contentHash + n + s.signature;
    assert x == y;
    var t := |x|;
    assert x[..t - 65] == d + i + r.contentHash + m && y[..t - 65] == d + j + s.contentHash + n;
    assert x[t - 65..] == r.signature && y[t - 65..] == s.signature;
    assert x[..t - 65][..t - 73] == d + i + r.contentHash && y[..t - 65][..t - 73] == d + j + s.contentHash;
    assert x[..t - 65][t - 73..] == m && y[..t - 65][t - 73..] == n;
    assert x[..t - 65][..t - 73][33..] == r.contentHash && y[..t - 65][..t - 73][33..] == s.contentHash;
    assert x[..t - 65][..t - 73][32..33] == i && y[..t - 65][..t - 73][32..33] == j;
    EncodedInjective(r.replicaId, s.replicaId, 1);
    EncodedInjective(r.byteLength, s.byteLength, 8);
  }

  /** sorted.map(receiptLeaf): the leaves, or the first refusal. */
  function Leaves(h: Hashes, receipts: seq<StorageReceipt>): Result<seq<int>> {
    if receipts == [] then Ok([])
    else
      var before :- Leaves(h, receipts[..|receipts| - 1]);
      var leaf :- ReceiptLeaf(h, receipts[|receipts| - 1]);
      Ok(before + [leaf])
  }

  lemma {:induction false} LeavesSize(h: Hashes, receipts: seq<StorageReceipt>)
    ensures Leaves(h, receipts).Ok? ==> |Leaves(h, receipts).value| == |receipts|
  {
    if receipts != [] {
      LeavesSize(h, receipts[..|receipts| - 1]);
    }
  }

  predicate DistinctReplicas(receipts: seq<StorageReceipt>) {
    forall i, j :: 0 <= i < j < |receipts| ==> receipts[i].replicaId != receipts[j].replicaId
  }

  /** The storage-receipt root: the padded tree over the receipts in replica order. */
  function ReceiptRoot(h: Hashes, receipts: seq<StorageReceipt>): Result<int> {
    if |receipts| > STORAGE_REPLICAS then Err(TooManyReceipts)
    else if !DistinctReplicas(receipts) then Err(DuplicateReplica)
    else
      var sorted := Sort(ReplicaId, receipts);
      var leaves :- Leaves(h, sorted);
      LeavesSize(h, sorted);
      assert Pow2(RECEIPT_TREE_DEPTH) == 4;
      Ok(RootOf(h, leaves, RECEIPT_TREE_DEPTH))
  }

  lemma PadOnce(h: Hashes, leaves: seq<int>, padded: seq<int>, depth: nat)
    requires |leaves| <= Pow2(depth) && padded == PaddedLeavesOf(h, leaves, depth)
    ensures RootOf(h, padded, depth) == RootOf(h, leaves, depth)
  {
    assert PaddedLeavesOf(h, padded, depth) == padded;
  }

  /** storageReceiptRoot: pads by hand, then builds the tree. */
  method StorageReceiptRoot(h: Hashes, receipts: seq<StorageReceipt>) returns (res: Result<int>)
    ensures res == ReceiptRoot(h, receipts)
  {
    hide RootOf, PaddedLeavesOf, ReceiptLeaf, Padding;
    if |receipts| > STORAGE_REPLICAS {
      return Err(TooManyReceipts);
    }
    if !DistinctReplicas(receipts) {
      return Err(DuplicateReplica);
    }
    var sorted := Sort(ReplicaId, receipts);
    var mapped := Leaves(h, sorted);
    if mapped.Err? {
      return Err(mapped.error);
    }
    LeavesSize(h, sorted);
    assert Pow2(RECEIPT_TREE_DEPTH) == 4;
    var leaves := mapped.value;
    while |leaves| < Pow2(RECEIPT_TREE_DEPTH)
      invariant |mapped.value| <= |leaves| <= Pow2(RECEIPT_TREE_DEPTH)
      invariant forall i :: 0 <= i < |leaves| ==>
                  leaves[i] == if i < |mapped.value| then mapped.value[i] else Padding(h)
    {
      leaves := leaves + [Padding(h)];
    }
    PaddedBy(h, mapped.value, leaves, RECEIPT_TREE_DEPTH);
    PadOnce(h, mapped.value, leaves, RECEIPT_TREE_DEPTH);
    res := RootFromLeaves(h, leaves, RECEIPT_TREE_DEPTH);
  }

  lemma PaddedBy(h: Hashes, leaves: seq<int>, padded: seq<int>, depth: nat)
    requires |leaves| <= Pow2(depth) == |padded|
    requires forall i :: 0 <= i < |padded| ==> padded[i] == if i < |leaves| then leaves[i] else Padding(h)
    ensures padded == PaddedLeavesOf(h, leaves, depth)
  {}

  lemma DistinctReplicasIsDistinctBy(receipts: seq<StorageReceipt>)
    ensures DistinctReplicas(receipts) <==> DistinctBy(ReplicaId, receipts)
  {}

  /** Whichever replica answered first, the root (or the refusal) is the same. */
  lemma ReceiptOrderIrrelevant(h: Hashes, receipts: seq<StorageReceipt>, again: seq<StorageReceipt>)
    requires multiset(receipts) == multiset(again)
    ensures ReceiptRoot(h, receipts) == ReceiptRoot(h, again)
  {
    hide Sort, Leaves, RootOf, DistinctBy;
    assert |receipts| == |multiset(receipts)| && |again| == |multiset(again)|;
    DistinctReplicasIsDistinctBy(receipts);
    DistinctReplicasIsDistinctBy(again);
    if DistinctReplicas(receipts) {
      DistinctKeysSort(ReplicaId, receipts);
      SortForgetsOrder(ReplicaId, receipts, again);
      DistinctSurvives(receipts, again);
    } else if DistinctReplicas(again) {
      DistinctSurvives(again, receipts);
    }
  }

  /** A permutation of receipts from distinct replicas is still from distinct replicas. */
  lemma DistinctSurvives(receipts: seq<StorageReceipt>, again: seq<StorageReceipt>)
    requires multiset(receipts) == multiset(again) && DistinctReplicas(receipts)
    ensures DistinctReplicas(again)
  {
    hide DistinctBy;
    DistinctReplicasIsDistinctBy(receipts);
    DistinctReplicasIsDistinctBy(again);
    DistinctByMultiset(ReplicaId, receipts, again);
  }

  /** hasStorageQuorum. */
  predicate HasQuorum(receipts: seq<StorageReceipt>) {
    |set r | r in receipts :: r.replicaId| >= STORAGE_QUORUM
  }

  /** Two receipts from different replicas are needed, and suffice. */
  lemma QuorumIff(receipts: seq<StorageReceipt>)
    ensures HasQuorum(receipts) <==>
              exists i, j :: 0 <= i < j < |receipts| && receipts[i].replicaId != receipts[j].replicaId
  {
    var ids := set r | r in receipts :: r.replicaId;
    if i, j :| 0 <= i < j < |receipts| && receipts[i].replicaId != receipts[j].replicaId {
      var pair := {receipts[i].replicaId, receipts[j].replicaId};
      assert receipts[i] in receipts && receipts[j] in receipts;
      assert pair <= ids && |pair| == 2;
      SubsetSize(pair, ids);
    } else if receipts != [] {
      forall r | r in receipts
        ensures r.replicaId == receipts[0].replicaId
      {
        var k :| 0 <= k < |receipts| && receipts[k] == r;
      }
      assert ids <= {receipts[0].replicaId};
      SubsetSize(ids, {receipts[0].replicaId});
    } else {
      assert ids == {};
    }
  }

  lemma SubsetSize(a: set<int>, b: set<int>)
    requires a <= b
    ensures |a| <= |b|
  {
    assert b == a + (b - a);
    assert |a + (b - a)| == |a| + |b - a|;
  }

  // ----- the root in terms of the receipts

  /** The hashed bytes: the label's digest, replica, content hash, length in 8 bytes, 65 bytes of signature. */
  lemma ReceiptLayout(h: Hashes, r: StorageReceipt)
    requires ReceiptPreimage(h, r).Ok?
    ensures var b, n := ReceiptPreimage(h, r).value, |r.contentHash|;
            && |b| == 106 + n && b[..32] == Raw(h, "FairProof:receipt:v1") && b[32] == r.replicaId
            && b[33..33 + n] == r.contentHash && BeValue(b[33 + n..41 + n]) == r.byteLength && b[41 + n..] == r.signature
    ensures ReceiptLeaf(h, r) == Ok(h.keccak(ReceiptPreimage(h, r).value) / 256)
  {
    hide BeBytes, BeValue, Pow256;
    var tag, id, m := Raw(h, "FairProof:receipt:v1"), Encoded(r.replicaId, 1).value, Encoded(r.byteLength, 8).value;
    var b, n := ReceiptPreimage(h, r).value, |r.contentHash|;
    assert b == tag + id + r.contentHash + m + r.signature;
    assert b[32..33] == id && b[33..33 + n] == r.contentHash && b[33 + n..41 + n] == m && b[41 + n..] == r.signature;
    OneByte(r.replicaId);
    ValueOfBytes(r.byteLength, 8);
  }

  lemma OneByte(v: nat)
    requires v < Pow256(1)
    ensures BeBytes(v, 1) == [v]
  {
    assert Pow256(1) == 256 * Pow256(0);
    assert BeBytes(v / 256, 0) == [];
  }

  /** Which receipts have a leaf at all. */
  lemma ReceiptRefusals(h: Hashes, r: StorageReceipt)
    ensures ReceiptLeaf(h, r) == Err(WrongLength) <==> |r.signature| != 65
    ensures ReceiptLeaf(h, r).Ok? <==> |r.signature| == 65 && 0 <= r.replicaId < 256 && 0 <= r.byteLength < UINT64
  {
    hide BeBytes, ToField;
    assert Pow256(1) == 256 * Pow256(0);
    EightBytes();
  }

  lemma EightBytes()
    ensures Pow256(8) == UINT64
  {
    assert Pow256(4) == 0x1_0000_0000;
  }

  /** Three leaves and a padding slot, hashed pairwise. */
  function FourLeafRoot(h: Hashes, a: int, b: int, c: int, d: int): int {
    Parent(h, Parent(h, a, b), Parent(h, c, d))
  }

  function SlotOr(h: Hashes, leaves: seq<int>, i: nat): int {
    if i < |leaves| then leaves[i] else Padding(h)
  }

  /**
    Receipts in ascending replica order, the padding after them: with the
    independence of order this fixes the root of every set of receipts.
   */
  lemma ReceiptRootIs(h: Hashes, receipts: seq<StorageReceipt>)
    requires forall i, j :: 0 <= i < j < |receipts| ==> receipts[i].replicaId < receipts[j].replicaId
    ensures ReceiptRoot(h, receipts) == Err(TooManyReceipts) <==> |receipts| > 3
    ensures |receipts| <= 3 && (forall i :: 0 <= i < |receipts| ==> ReceiptLeaf(h, receipts[i]).Ok?) ==>
              && Leaves(h, receipts).Ok? && |Leaves(h, receipts).value| == |receipts|
              && (forall i :: 0 <= i < |receipts| ==> Ok(Leaves(h, receipts).value[i]) == ReceiptLeaf(h, receipts[i]))
              && var l := Leaves(h, receipts).value;
              ReceiptRoot(h, receipts) == Ok(FourLeafRoot(h, SlotOr(h, l, 0), SlotOr(h, l, 1), SlotOr(h, l, 2), Padding(h)))
  {
    hide ReceiptLeaf, RootOf, Padding, Sort, Leaves, FourLeafRoot, SlotOr;
    AlreadySorted(receipts);
    LeavesSize(h, receipts);
    if |receipts| <= 3 && forall i :: 0 <= i < |receipts| ==> ReceiptLeaf(h, receipts[i]).Ok? {
      AllLeaves(h, receipts);
      FourLeaves(h, Leaves(h, receipts).value);
      assert Pow2(RECEIPT_TREE_DEPTH) == 4;
    } else if |receipts| <= 3 {
      LeavesErrors(h, receipts);
    }
  }

  lemma AlreadySorted(receipts: seq<StorageReceipt>)
    requires forall i, j :: 0 <= i < j < |receipts| ==> receipts[i].replicaId < receipts[j].replicaId
    ensures Sort(ReplicaId, receipts) == receipts && DistinctReplicas(receipts)
  {
    hide Sort;
    SortContents(ReplicaId, receipts);
    DistinctKeysSort(ReplicaId, receipts);
    SortedUnique(ReplicaId, Sort(ReplicaId, receipts), receipts);
  }

  lemma {:induction false} AllLeaves(h: Hashes, receipts: seq<StorageReceipt>)
    requires forall i :: 0 <= i < |receipts| ==> ReceiptLeaf(h, receipts[i]).Ok?
    ensures Leaves(h, receipts).Ok? && |Leaves(h, receipts).value| == |receipts|
    ensures forall i :: 0 <= i < |receipts| ==> Ok(Leaves(h, receipts).value[i]) == ReceiptLeaf(h, receipts[i])
  {
    hide ReceiptLeaf;
    if receipts != [] {
      var n := |receipts| - 1;
      AllLeaves(h, receipts[..n]);
      assert receipts == receipts[..n] + [receipts[n]];
    }
  }

  lemma {:induction false} LeavesErrors(h: Hashes, receipts: seq<StorageReceipt>)
    ensures Leaves(h, receipts).Err? ==> Leaves(h, receipts).error in [WrongLength, NegativeValue, ValueTooWide]
  {
    hide BeBytes, ToField, Pow256;
    if receipts != [] {
      LeavesErrors(h, receipts[..|receipts| - 1]);
    }
  }

  lemma FourLeaves(h: Hashes, leaves: seq<int>)
    requires |leaves| <= 3
    ensures Pow2(2) == 4
    ensures RootOf(h, leaves, 2) == FourLeafRoot(h, SlotOr(h, leaves, 0), SlotOr(h, leaves, 1), SlotOr(h, leaves, 2), Padding(h))
  {
    hide Parent, Padding, TreeRoot;
    var p := PaddedLeavesOf(h, leaves, 2);
    assert Pow2(2) == 4 && Pow2(1) == 2;
    PairRoot(h, p[..2]);
    PairRoot(h, p[2..]);
    TreeRootUnroll(h, p, 2);
  }

  lemma PairRoot(h: Hashes, pair: seq<int>)
    requires |pair| == 2
    ensures Pow2(1) == 2 && TreeRoot(h, pair, 1) == Parent(h, pair[0], pair[1])
  {
    hide Parent;
    assert Pow2(1) == 2 && Pow2(0) == 1;
    assert pair[..1][0] == pair[0] && pair[1..][0] == pair[1];
  }

  lemma TreeRootUnroll(h: Hashes, leaves: seq<int>, n: nat)
    requires n > 0 && |leaves| == Pow2(n)
    ensures TreeRoot(h, leaves, n)
            == Parent(h, TreeRoot(h, leaves[..Pow2(n - 1)], n - 1), TreeRoot(h, leaves[Pow2(n - 1)..], n - 1))
  {
    hide Parent;
  }

  /** The set's own refusals come before any receipt is encoded. */
  lemma ReceiptSetRefusals(h: Hashes, receipts: seq<StorageReceipt>)
    ensures ReceiptRoot(h, receipts) == Err(TooManyReceipts) <==> |receipts| > 3
    ensures ReceiptRoot(h, receipts) == Err(DuplicateReplica) <==>
              |receipts| <= 3 && exists i, j :: 0 <= i < j < |receipts| && receipts[i].replicaId == receipts[j].replicaId
  {
    hide RootOf, Sort, Leaves;
    LeavesErrors(h, Sort(ReplicaId, receipts));
  }

  // ----- what the receipt root fixes

  /** Two different byte strings with one digest, cut to 248 bits as toField cuts it. */
  datatype ByteCollision = ByteCollision(first: seq<byte>, second: seq<byte>)

  ghost predicate IsByteCollision(h: Hashes, x: ByteCollision) {
    x.first != x.second && ToField(h.keccak(x.first)) == ToField(h.keccak(x.second))
  }

  /** The receipts in replica order. */
  function InReplicaOrder(receipts: seq<StorageReceipt>): seq<StorageReceipt> {
    Sort(ReplicaId, receipts)
  }

  predicate AllEncode(h: Hashes, receipts: seq<StorageReceipt>) {
    forall i :: 0 <= i < |receipts| ==> ReceiptPreimage(h, receipts[i]).Ok?
  }

  /** The bytes behind slot i: the receipt's preimage, or the padding label. */
  function SlotBytes(h: Hashes, receipts: seq<StorageReceipt>, i: nat): seq<byte>
    requires AllEncode(h, receipts)
  {
    if i < |receipts| then ReceiptPreimage(h, receipts[i]).value else Ascii("FairProof:padding:v1")
  }

  /** The first slot of n whose bytes differ. */
  function SlotBytesCollision(h: Hashes, a: seq<StorageReceipt>, b: seq<StorageReceipt>, n: nat): Option<ByteCollision>
    requires AllEncode(h, a) && AllEncode(h, b)
  {
    if n == 0 then None
    else
      var earlier := SlotBytesCollision(h, a, b, n - 1);
      if earlier.Some? then earlier
      else
        var x, y := SlotBytes(h, a, n - 1), SlotBytes(h, b, n - 1);
        if x != y then Some(ByteCollision(x, y)) else None
  }

  lemma {:induction false} LeavesAre(h: Hashes, receipts: seq<StorageReceipt>)
    requires Leaves(h, receipts).Ok?
    ensures AllEncode(h, receipts) && |Leaves(h, receipts).value| == |receipts|
    ensures forall i :: 0 <= i < |receipts| ==>
              Leaves(h, receipts).value[i] == ToField(h.keccak(SlotBytes(h, receipts, i)))
  {
    hide ReceiptPreimage, ToField;
    if receipts != [] {
      var n := |receipts| - 1;
      LeavesAre(h, receipts[..n]);
      assert receipts == receipts[..n] + [receipts[n]];
    }
  }

  lemma {:induction false} SlotBytesBind(h: Hashes, a: seq<StorageReceipt>, b: seq<StorageReceipt>, n: nat)
    requires AllEncode(h, a) && AllEncode(h, b)
    requires forall i :: 0 <= i < n ==>
               ToField(h.keccak(SlotBytes(h, a, i))) == ToField(h.keccak(SlotBytes(h, b, i)))
    ensures SlotBytesCollision(h, a, b, n).None? ==> forall i :: 0 <= i < n ==> SlotBytes(h, a, i) == SlotBytes(h, b, i)
    ensures SlotBytesCollision(h, a, b, n).Some? ==> IsByteCollision(h, SlotBytesCollision(h, a, b, n).value)
  {
    hide SlotBytes, AllEncode, ToField;
    if n > 0 {
      SlotBytesBind(h, a, b, n - 1);
    }
  }

  /** Equal bytes in a slot: the same receipt in both, or padding in both. */
  lemma SlotBytesInjective(h: Hashes, a: seq<StorageReceipt>, b: seq<StorageReceipt>, i: nat)
    requires AllEncode(h, a) && AllEncode(h, b) && SlotBytes(h, a, i) == SlotBytes(h, b, i)
    ensures i < |a| <==> i < |b|
    ensures i < |a| && i < |b| ==> a[i] == b[i]
  {
    hide ReceiptPreimage;
    if i < |a| {
      PreimageLength(h, a[i]);
    }
    if i < |b| {
      PreimageLength(h, b[i]);
    }
    if i < |a| && i < |b| {
      ReceiptPreimageInjective(h, a[i], b[i]);
    }
  }

  lemma PreimageLength(h: Hashes, r: StorageReceipt)
    requires ReceiptPreimage(h, r).Ok?
    ensures |ReceiptPreimage(h, r).value| >= 32
  {
    hide BeBytes, Pow256;
  }

  /** The leaf vectors of two sets of receipts. */
  function LeafCollision(h: Hashes, a: seq<StorageReceipt>, b: seq<StorageReceipt>): Option<Collision>
    requires Leaves(h, a).Ok? && Leaves(h, b).Ok? && |a| <= STORAGE_REPLICAS && |b| <= STORAGE_REPLICAS
  {
    LeavesSize(h, a);
    LeavesSize(h, b);
    assert Pow2(RECEIPT_TREE_DEPTH) == 4;
    FindCollision(h, PaddedLeavesOf(h, Leaves(h, a).value, RECEIPT_TREE_DEPTH),
                  PaddedLeavesOf(h, Leaves(h, b).value, RECEIPT_TREE_DEPTH), RECEIPT_TREE_DEPTH)
  }

  /**
    The receipt root, no count given, fixes the receipts: equal roots come from
    the same receipts, or two Poseidon inputs or two byte strings collide.
   */
  lemma ReceiptRootBinds(h: Hashes, a: seq<StorageReceipt>, b: seq<StorageReceipt>)
    requires ReceiptRoot(h, a).Ok? && ReceiptRoot(h, a) == ReceiptRoot(h, b)
    ensures var s, t := InReplicaOrder(a), InReplicaOrder(b);
            && Leaves(h, s).Ok? && Leaves(h, t).Ok? && AllEncode(h, s) && AllEncode(h, t)
            && |s| <= STORAGE_REPLICAS && |t| <= STORAGE_REPLICAS
            && var x, y := LeafCollision(h, s, t), SlotBytesCollision(h, s, t, STORAGE_REPLICAS);
            || (x.Some? && IsCollision(h, x.value))
            || (y.Some? && IsByteCollision(h, y.value))
            || (s == t && multiset(a) == multiset(b))
  {
    hide Sort, Leaves, RootOf, FindCollision, PaddedLeavesOf, SlotBytes, AllEncode, IsCollision, IsByteCollision,
         SlotBytesCollision, ReceiptPreimage, ToField, Residues, DistinctReplicas;
    var s, t := InReplicaOrder(a), InReplicaOrder(b);
    SortContents(ReplicaId, a);
    SortContents(ReplicaId, b);
    SameSize(s, a);
    SameSize(t, b);
    LeavesAre(h, s);
    LeavesAre(h, t);
    assert Pow2(RECEIPT_TREE_DEPTH) == 4;
    AccumulatorBinding(h, Leaves(h, s).value, Leaves(h, t).value, RECEIPT_TREE_DEPTH);
    if LeafCollision(h, s, t).None? {
      forall i | 0 <= i < STORAGE_REPLICAS
        ensures ToField(h.keccak(SlotBytes(h, s, i))) == ToField(h.keccak(SlotBytes(h, t, i)))
      {
        SlotLeaf(h, s, i);
        SlotLeaf(h, t, i);
      }
      SlotBytesBind(h, s, t, STORAGE_REPLICAS);
      if SlotBytesCollision(h, s, t, STORAGE_REPLICAS).None? {
        SameReceipts(h, s, t);
      }
    }
  }

  lemma SameSize<T>(a: seq<T>, b: seq<T>)
    requires multiset(a) == multiset(b)
    ensures |a| == |b|
  {
    assert |multiset(a)| == |a| && |multiset(b)| == |b|;
  }

  /** A padded leaf, reduced, is the truncated digest of its slot's bytes. */
  lemma SlotLeaf(h: Hashes, receipts: seq<StorageReceipt>, i: nat)
    requires Leaves(h, receipts).Ok? && |receipts| <= STORAGE_REPLICAS && i < STORAGE_REPLICAS
    ensures AllEncode(h, receipts) && |Leaves(h, receipts).value| <= Pow2(RECEIPT_TREE_DEPTH) == 4
    ensures Residues(PaddedLeavesOf(h, Leaves(h, receipts).value, RECEIPT_TREE_DEPTH))[i]
            == ToField(h.keccak(SlotBytes(h, receipts, i)))
  {
    hide Leaves, ReceiptPreimage, AllEncode, Residue;
    LeavesAre(h, receipts);
    assert Pow2(RECEIPT_TREE_DEPTH) == 4;
    SmallResidue(ToField(h.keccak(SlotBytes(h, receipts, i))));
  }

  lemma SameReceipts(h: Hashes, s: seq<StorageReceipt>, t: seq<StorageReceipt>)
    requires AllEncode(h, s) && AllEncode(h, t) && |s| <= STORAGE_REPLICAS && |t| <= STORAGE_REPLICAS
    requires forall i :: 0 <= i < STORAGE_REPLICAS ==> SlotBytes(h, s, i) == SlotBytes(h, t, i)
    ensures s == t
  {
    hide SlotBytes, AllEncode;
    forall i | 0 <= i < STORAGE_REPLICAS
      ensures i < |s| <==> i < |t|
      ensures i < |s| && i < |t| ==> s[i] == t[i]
    {
      SlotBytesInjective(h, s, t, i);
    }
    if |s| < |t| {
      SlotBytesInjective(h, s, t, |s|);
    }
    if |t| < |s| {
      SlotBytesInjective(h, s, t, |t|);
    }
  }

  // ----- the issuer registry

  datatype IssuerKey = IssuerKey(x: int, y: int)

  /** issuerRegistryLeaf: both coordinates are committed to. */
  function IssuerLeaf(h: Hashes, key: IssuerKey): element {
    Poseidon(h, [key.x, key.y])
  }

  /** The leaf hashes x and then y. */
  lemma IssuerLeafIs(h: Hashes, key: IssuerKey)
    ensures IssuerLeaf(h, key) == h.permutation([Residue(key.x), Residue(key.y)])
  {
    assert Residues([key.x, key.y]) == [Residue(key.x), Residue(key.y)];
  }

  function IssuerLeaves(h: Hashes, keys: seq<IssuerKey>): (s: seq<int>)
    ensures |s| == |keys| && forall i :: 0 <= i < |s| ==> s[i] == IssuerLeaf(h, keys[i])
  {
    seq(|keys|, i requires 0 <= i < |keys| => IssuerLeaf(h, keys[i]))
  }

  /** issuerRegistryRoot. */
  method IssuerRegistryRoot(h: Hashes, keys: seq<IssuerKey>) returns (res: Result<int>)
    ensures Pow2(ISSUER_TREE_DEPTH) == 16
    ensures res == if |keys| > 16 then Err(TooManyLeaves) else Ok(RootOf(h, IssuerLeaves(h, keys), ISSUER_TREE_DEPTH))
  {
    assert Pow2(ISSUER_TREE_DEPTH) == 16;
    res := RootFromLeaves(h, IssuerLeaves(h, keys), ISSUER_TREE_DEPTH);
  }

  /** issuerRegistryPath: every registered key folds along its path to the registry root. */
  method IssuerRegistryPath(h: Hashes, keys: seq<IssuerKey>, index: int)
    returns (res: Result<(seq<int>, seq<int>)>)
    ensures Pow2(ISSUER_TREE_DEPTH) == 16
    ensures |keys| > 16 ==> res == Err(CapacityExhausted)
    ensures |keys| <= 16 ==> (res.Ok? <==> 0 <= index < 16) && (res.Err? ==> res == Err(IndexOutOfRange))
    ensures res.Ok? ==> |res.value.0| == 4 == |res.value.1| && |keys| <= 16
    ensures res.Ok? ==> BitsValue(res.value.1) == index
    ensures res.Ok? && index < |keys| ==>
              Folded(h, IssuerLeaf(h, keys[index]), res.value.0, res.value.1, ISSUER_TREE_DEPTH)
              == RootOf(h, IssuerLeaves(h, keys), ISSUER_TREE_DEPTH)
  {
    hide TreeRoot, Folded, IssuerLeaf, Padding;
    assert Pow2(ISSUER_TREE_DEPTH) == 16;
    var tree := new IncrementalMerkleTree(h, ISSUER_TREE_DEPTH);
    var leaves := IssuerLeaves(h, keys);
    for i := 0 to |keys|
      invariant tree.Valid() && tree.h == h && tree.depth == ISSUER_TREE_DEPTH && fresh(tree)
      invariant tree.leaves == leaves[..i]
    {
      var inserted := tree.Insert(leaves[i]);
      if inserted.Err? {
        return Err(inserted.error);
      }
    }
    assert leaves[..|keys|] == leaves;
    var proof := tree.Proof(index);
    if proof.Err? {
      return Err(proof.error);
    }
    ProofAccepted(h, PaddedLeavesOf(h, leaves, ISSUER_TREE_DEPTH), ISSUER_TREE_DEPTH, index);
    return Ok((proof.value.siblings, proof.value.pathIndices));
  }

  // ----- what the registry root fixes

  /** The same key, as field elements. */
  predicate SameKey(a: IssuerKey, b: IssuerKey) {
    Residue(a.x) == Residue(b.x) && Residue(a.y) == Residue(b.y)
  }

  predicate SameIssuerKeys(a: seq<IssuerKey>, b: seq<IssuerKey>, n: nat)
    requires n <= |a| && n <= |b|
  {
    forall i :: 0 <= i < n ==> SameKey(a[i], b[i])
  }

  /** The first of n keys that differ. */
  function KeyCollision(a: seq<IssuerKey>, b: seq<IssuerKey>, n: nat): Option<Collision>
    requires n <= |a| && n <= |b|
  {
    if n == 0 then None
    else
      var earlier := KeyCollision(a, b, n - 1);
      var u, v := a[n - 1], b[n - 1];
      if earlier.Some? then earlier
      else if !SameKey(u, v) then Some(Collision([u.x, u.y], [v.x, v.y]))
      else None
  }

  lemma KeyBinds(h: Hashes, u: IssuerKey, v: IssuerKey)
    requires IssuerLeaf(h, u) == IssuerLeaf(h, v)
    ensures SameKey(u, v) || IsCollision(h, Collision([u.x, u.y], [v.x, v.y]))
  {
    hide Residue;
    if Residues([u.x, u.y]) == Residues([v.x, v.y]) {
      assert Residues([u.x, u.y])[0] == Residues([v.x, v.y])[0] && Residues([u.x, u.y])[1] == Residues([v.x, v.y])[1];
    }
  }

  lemma {:induction false} KeysBind(h: Hashes, a: seq<IssuerKey>, b: seq<IssuerKey>, n: nat)
    requires n <= |a| && n <= |b| && forall i :: 0 <= i < n ==> IssuerLeaf(h, a[i]) == IssuerLeaf(h, b[i])
    ensures KeyCollision(a, b, n).None? <==> SameIssuerKeys(a, b, n)
    ensures KeyCollision(a, b, n).Some? ==> IsCollision(h, KeyCollision(a, b, n).value)
  {
    hide IssuerLeaf, SameKey, IsCollision;
    if n > 0 {
      KeysBind(h, a, b, n - 1);
      KeyBinds(h, a[n - 1], b[n - 1]);
    }
  }

  lemma PaddedKeyLeaf(h: Hashes, keys: seq<IssuerKey>, depth: nat, i: nat)
    requires |keys| <= Pow2(depth) && i < Pow2(depth)
    ensures Residues(PaddedLeavesOf(h, IssuerLeaves(h, keys), depth))[i]
            == if i < |keys| then IssuerLeaf(h, keys[i]) else Padding(h)
  {
    hide Residue, IssuerLeaf, Padding;
    if i < |keys| {
      SmallResidue(IssuerLeaf(h, keys[i]));
    } else {
      PaddingReduced(h);
    }
  }

  /** Walks the two registries, then the keys, to the first place where they differ. */
  function RegistryCollision(h: Hashes, a: seq<IssuerKey>, b: seq<IssuerKey>, depth: nat): Option<Collision>
    requires |a| <= |b| <= Pow2(depth)
  {
    var x := FindCollision(h, PaddedLeavesOf(h, IssuerLeaves(h, a), depth), PaddedLeavesOf(h, IssuerLeaves(h, b), depth), depth);
    if x.Some? then x else KeyCollision(a, b, |a|)
  }

  /**
    Equal registry roots, at the registry's depth or any other: the same keys as
    field elements, a computed collision, or a key whose leaf is the padding value.
   */
  lemma RegistryRootBinds(h: Hashes, a: seq<IssuerKey>, b: seq<IssuerKey>, depth: nat)
    requires |a| <= |b| <= Pow2(depth) && RootOf(h, IssuerLeaves(h, a), depth) == RootOf(h, IssuerLeaves(h, b), depth)
    ensures var x := RegistryCollision(h, a, b, depth);
            || (x.Some? && IsCollision(h, x.value))
            || (SameIssuerKeys(a, b, |a|) && (|a| < |b| ==> IssuerLeaf(h, b[|a|]) == Padding(h)))
  {
    hide IssuerLeaf, RootOf, FindCollision, PaddedLeavesOf, Padding, IsCollision, SameIssuerKeys, KeyCollision, Residues;
    var la, lb := IssuerLeaves(h, a), IssuerLeaves(h, b);
    AccumulatorBinding(h, la, lb, depth);
    if FindCollision(h, PaddedLeavesOf(h, la, depth), PaddedLeavesOf(h, lb, depth), depth).None? {
      forall i | 0 <= i < |a|
        ensures IssuerLeaf(h, a[i]) == IssuerLeaf(h, b[i])
      {
        PaddedKeyLeaf(h, a, depth, i);
        PaddedKeyLeaf(h, b, depth, i);
      }
      KeysBind(h, a, b, |a|);
      if |a| < |b| {
        PaddedKeyLeaf(h, a, depth, |a|);
        PaddedKeyLeaf(h, b, depth, |a|);
      }
    }
  }
}
