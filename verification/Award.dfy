/** Winner selection and the award witness: packages/crypto/src/award.ts. */
module Award {
  import opened Prelude
  import opened Bytes
  import opened Hashing
  import opened Merkle
  import opened Sorting

  const MAX_BIDS := 32
  const BID_TREE_DEPTH := 5
  const DISCLOSE_WINNING_PRICE := 1
  const CONCEAL_WINNING_PRICE := 2

  /** What is known of a bid once it is opened; ciphertextHashField ties it to what was submitted. */
  datatype OpenedBid = OpenedBid(
    submissionIndex: int, nullifier: int, bidAmount: int, bidNonce: int, ciphertextHashField: int)

  datatype AwardWitness = AwardWitness(
    tenderIdField: int, rulesHashHi: int, rulesHashLo: int, bidSetRoot: int, submissionCount: int,
    winnerCommitment: int, winningPrice: int, disclosurePolicy: int,
    nullifier: seq<int>, bidAmount: seq<int>, bidNonce: seq<int>, ciphertextHashField: seq<int>,
    winnerIndex: int)

  // ----- selectWinner

  /** Cheaper, or as cheap and earlier. */
  predicate Beats(a: OpenedBid, b: OpenedBid) {
    a.bidAmount < b.bidAmount || (a.bidAmount == b.bidAmount && a.submissionIndex < b.submissionIndex)
  }

  /** The reduction over the bids, first to last. */
  function Best(bids: seq<OpenedBid>): OpenedBid
    requires bids != []
  {
    var n := |bids| - 1;
    if n == 0 then bids[0]
    else
      var best := Best(bids[..n]);
      if Beats(bids[n], best) then bids[n] else best
  }

  function SelectWinner(bids: seq<OpenedBid>): Result<OpenedBid> {
    if bids == [] then Err(NoBids) else Ok(Best(bids))
  }

  /** The winner is one of the bids and no bid beats it. */
  lemma {:induction false} BestIsLeast(bids: seq<OpenedBid>)
    requires bids != []
    ensures Best(bids) in bids && forall b :: b in bids ==> !Beats(b, Best(bids))
  {
    var n := |bids| - 1;
    if n > 0 {
      BestIsLeast(bids[..n]);
      assert bids == bids[..n] + [bids[n]];
    }
  }

  /** With distinct indices nothing else can be said of any other bid. */
  lemma WinnerUnique(bids: seq<OpenedBid>, w: OpenedBid)
    requires bids != [] && DistinctBy(SubmissionIndex, bids)
    ensures w == Best(bids) <==> w in bids && forall b :: b in bids ==> !Beats(b, w)
  {
    BestIsLeast(bids);
    if w in bids && forall b :: b in bids ==> !Beats(b, w) {
      KeyDetermines(SubmissionIndex, bids, w, Best(bids));
    }
  }

  // ----- slots

  function SubmissionIndex(b: OpenedBid): int { b.submissionIndex }
  function Nullifier(b: OpenedBid): int { b.nullifier }
  function Amount(b: OpenedBid): int { b.bidAmount }
  function Nonce(b: OpenedBid): int { b.bidNonce }
  function CiphertextHash(b: OpenedBid): int { b.ciphertextHashField }

  predicate InOrder(ordered: seq<OpenedBid>) {
    forall i :: 0 <= i < |ordered| ==> ordered[i].submissionIndex == i
  }

  /** One witness column: the bids' values, then zeros. */
  function Column(ordered: seq<OpenedBid>, field: OpenedBid -> int): (s: seq<int>)
    ensures |s| == MAX_BIDS
    ensures forall i :: 0 <= i < MAX_BIDS ==> s[i] == if i < |ordered| then field(ordered[i]) else 0
  {
    seq(MAX_BIDS, i requires 0 <= i => if i < |ordered| then field(ordered[i]) else 0)
  }

  function SlotCommitmentInput(h: Hashes, b: OpenedBid, tender: int): seq<int> {
    CommitmentInput(h, b.bidAmount, b.bidNonce, tender, b.nullifier)
  }

  function SlotLeafInput(h: Hashes, b: OpenedBid, tender: int, i: int): seq<int> {
    LeafInput(h, b.nullifier, Poseidon(h, SlotCommitmentInput(h, b, tender)), b.ciphertextHashField, i)
  }

  /** The leaf vector of all slots, padding in the inactive ones. */
  function SlotLeaves(h: Hashes, ordered: seq<OpenedBid>, tender: int): (s: seq<int>)
    ensures |s| == MAX_BIDS
    ensures forall i :: 0 <= i < MAX_BIDS ==>
              s[i] == if i < |ordered| then Poseidon(h, SlotLeafInput(h, ordered[i], tender, i)) else Padding(h)
  {
    seq(MAX_BIDS, i requires 0 <= i =>
      if i < |ordered| then Poseidon(h, SlotLeafInput(h, ordered[i], tender, i)) else Padding(h))
  }

  /** The first amount that is not a 64-bit unsigned value, as bidCommitment reports it. */
  function AmountError(ordered: seq<OpenedBid>): Option<Error> {
    if ordered == [] then None
    else
      var earlier := AmountError(ordered[..|ordered| - 1]);
      if earlier.Some? then earlier
      else
        var r := AssertUint(ordered[|ordered| - 1].bidAmount, UINT64);
        if r.Err? then Some(r.error) else None
  }

  // ----- buildAwardWitness

  function WinnerSlot(ordered: seq<OpenedBid>, override: Option<int>): Result<int> {
    match override
    case Some(k) => Ok(k)
    case None =>
      var w :- SelectWinner(ordered);
      Ok(w.submissionIndex)
  }

  const TWO_128: int := 0x1_0000_0000_0000_0000_0000_0000_0000_0000

  /** The witness of a set of bids, or why none is built. */
  function Witness(h: Hashes, bids: seq<OpenedBid>, tender: int, rulesHash: nat, policy: int,
                   override: Option<int>): Result<AwardWitness>
  {
    if |bids| > MAX_BIDS then Err(TooManyBids)
    else if policy != DISCLOSE_WINNING_PRICE && policy != CONCEAL_WINNING_PRICE then Err(BadPolicy)
    else
      var ordered := Sort(SubmissionIndex, bids);
      if !InOrder(ordered) then Err(IndexGap)
      else if AmountError(ordered).Some? then Err(AmountError(ordered).value)
      else
        var k :- WinnerSlot(ordered, override);
        if k < 0 || k >= |ordered| then Err(InactiveWinner)
        else if rulesHash >= TWO_256 then Err(ValueTooWide)
        else Ok(WitnessOf(h, ordered, tender, rulesHash, policy, k))
  }

  function WitnessOf(h: Hashes, ordered: seq<OpenedBid>, tender: int, rulesHash: nat, policy: int, k: int): AwardWitness
    requires 0 <= k < |ordered| <= MAX_BIDS
  {
    assert Pow2(BID_TREE_DEPTH) == MAX_BIDS;
    AwardWitness(
      tender, rulesHash / TWO_128, rulesHash % TWO_128,
      RootOf(h, SlotLeaves(h, ordered, tender), BID_TREE_DEPTH), |ordered|,
      Poseidon(h, SlotCommitmentInput(h, ordered[k], tender)),
      if policy == DISCLOSE_WINNING_PRICE then ordered[k].bidAmount else 0, policy,
      Column(ordered, Nullifier), Column(ordered, Amount), Column(ordered, Nonce), Column(ordered, CiphertextHash), k)
  }

  lemma {:induction false} AmountErrorStops(ordered: seq<OpenedBid>, k: nat)
    requires k <= |ordered| && AmountError(ordered[..k]).Some?
    ensures AmountError(ordered) == AmountError(ordered[..k])
  {
    if k < |ordered| {
      assert ordered[..|ordered| - 1][..k] == ordered[..k];
      AmountErrorStops(ordered[..|ordered| - 1], k);
    } else {
      assert ordered[..k] == ordered;
    }
  }

  lemma PrefixGrows(s: seq<int>, i: nat)
    requires i < |s|
    ensures s[..i + 1] == s[..i] + [s[i]]
  {}

  /** The slot loop: four columns and the leaves, one slot at a time. */
  method FillSlots(h: Hashes, ordered: seq<OpenedBid>, tender: int)
    returns (error: Option<Error>, nullifier: seq<int>, bidAmount: seq<int>, bidNonce: seq<int>,
             ciphertextHashField: seq<int>, leaves: seq<int>)
    requires |ordered| <= MAX_BIDS && InOrder(ordered)
    ensures error == AmountError(ordered)
    ensures error.None? ==>
              && nullifier == Column(ordered, Nullifier) && bidAmount == Column(ordered, Amount)
              && bidNonce == Column(ordered, Nonce) && ciphertextHashField == Column(ordered, CiphertextHash)
              && leaves == SlotLeaves(h, ordered, tender)
  {
    hide AssertUint, Filled, Padding, SlotLeafInput;
    error := None;
    nullifier, bidAmount, bidNonce, ciphertextHashField, leaves := [], [], [], [], [];
    FilledStart(h, ordered, tender);
    for i := 0 to MAX_BIDS
      invariant Filled(h, ordered, tender, nullifier, bidAmount, bidNonce, ciphertextHashField, leaves, i)
      invariant AmountError(ordered[..if i < |ordered| then i else |ordered|]).None?
    {
      if i < |ordered| {
        var b := ordered[i];
        assert ordered[..i + 1][..i] == ordered[..i];
        var commitment := BidCommitment(h, b.bidAmount, b.bidNonce, tender, b.nullifier);
        if commitment.Err? {
          AmountErrorStops(ordered, i + 1);
          error := Some(commitment.error);
          return;
        }
        var leaf := BidLeaf(h, b.nullifier, commitment.value, b.ciphertextHashField, i);
        SmallIndex(i);
        ActiveLeaf(h, b, tender, i);
        FilledStep(h, ordered, tender, nullifier, bidAmount, bidNonce, ciphertextHashField, leaves, i,
                   b.nullifier, b.bidAmount, b.bidNonce, b.ciphertextHashField, leaf.value);
        nullifier := nullifier + [b.nullifier];
        bidAmount := bidAmount + [b.bidAmount];
        bidNonce := bidNonce + [b.bidNonce];
        ciphertextHashField := ciphertextHashField + [b.ciphertextHashField];
        leaves := leaves + [leaf.value];
      } else {
        FilledStep(h, ordered, tender, nullifier, bidAmount, bidNonce, ciphertextHashField, leaves, i,
                   0, 0, 0, 0, Padding(h));
        nullifier := nullifier + [0];
        bidAmount := bidAmount + [0];
        bidNonce := bidNonce + [0];
        ciphertextHashField := ciphertextHashField + [0];
        leaves := leaves + [Padding(h)];
      }
    }
    FilledEnd(h, ordered, tender, nullifier, bidAmount, bidNonce, ciphertextHashField, leaves);
    assert ordered[..|ordered|] == ordered;
  }

  /** The first i slots of every column and of the leaves. */
  ghost predicate Filled(h: Hashes, ordered: seq<OpenedBid>, tender: int, n: seq<int>, a: seq<int>, m: seq<int>,
                         c: seq<int>, l: seq<int>, i: nat)
  {
    && i <= MAX_BIDS
    && n == Column(ordered, Nullifier)[..i] && a == Column(ordered, Amount)[..i]
    && m == Column(ordered, Nonce)[..i] && c == Column(ordered, CiphertextHash)[..i]
    && l == SlotLeaves(h, ordered, tender)[..i]
  }

  lemma FilledStart(h: Hashes, ordered: seq<OpenedBid>, tender: int)
    ensures Filled(h, ordered, tender, [], [], [], [], [], 0)
  {}

  lemma FilledStep(h: Hashes, ordered: seq<OpenedBid>, tender: int, n: seq<int>, a: seq<int>, m: seq<int>,
                   c: seq<int>, l: seq<int>, i: nat, n': int, a': int, m': int, c': int, l': int)
    requires Filled(h, ordered, tender, n, a, m, c, l, i) && i < MAX_BIDS
    requires n' == Column(ordered, Nullifier)[i] && a' == Column(ordered, Amount)[i]
    requires m' == Column(ordered, Nonce)[i] && c' == Column(ordered, CiphertextHash)[i]
    requires l' == SlotLeaves(h, ordered, tender)[i]
    ensures Filled(h, ordered, tender, n + [n'], a + [a'], m + [m'], c + [c'], l + [l'], i + 1)
  {
    hide Column, SlotLeaves;
    PrefixGrows(Column(ordered, Nullifier), i);
    PrefixGrows(Column(ordered, Amount), i);
    PrefixGrows(Column(ordered, Nonce), i);
    PrefixGrows(Column(ordered, CiphertextHash), i);
    PrefixGrows(SlotLeaves(h, ordered, tender), i);
  }

  lemma FilledEnd(h: Hashes, ordered: seq<OpenedBid>, tender: int, n: seq<int>, a: seq<int>, m: seq<int>,
                  c: seq<int>, l: seq<int>)
    requires Filled(h, ordered, tender, n, a, m, c, l, MAX_BIDS)
    ensures n == Column(ordered, Nullifier) && a == Column(ordered, Amount) && m == Column(ordered, Nonce)
    ensures c == Column(ordered, CiphertextHash) && l == SlotLeaves(h, ordered, tender)
  {
    hide Column, SlotLeaves;
  }

  /** The two nested digests of an active slot. */
  lemma ActiveLeaf(h: Hashes, b: OpenedBid, tender: int, i: int)
    requires 0 <= i < 256 && AssertUint(b.bidAmount, UINT64).Ok?
    ensures var commitment := BidCommitment(h, b.bidAmount, b.bidNonce, tender, b.nullifier);
            commitment.Ok? && BidLeaf(h, b.nullifier, commitment.value, b.ciphertextHashField, i)
                              == Ok(Poseidon(h, SlotLeafInput(h, b, tender, i)))
  {}

  lemma SmallIndex(i: int)
    requires 0 <= i < 256
    ensures AssertUint(i, 256).Ok?
  {}

  /** buildAwardWitness. */
  method BuildAwardWitness(h: Hashes, bids: seq<OpenedBid>, tender: int, rulesHash: nat, policy: int,
                           override: Option<int>) returns (res: Result<AwardWitness>)
    ensures res == Witness(h, bids, tender, rulesHash, policy, override)
  {
    if |bids| > MAX_BIDS {
      return Err(TooManyBids);
    }
    if policy != DISCLOSE_WINNING_PRICE && policy != CONCEAL_WINNING_PRICE {
      return Err(BadPolicy);
    }
    var ordered := Sort(SubmissionIndex, bids);
    if !InOrder(ordered) {
      return Err(IndexGap);
    }
    var error, nullifier, bidAmount, bidNonce, ciphertextHashField, leaves := FillSlots(h, ordered, tender);
    if error.Some? {
      return Err(error.value);
    }
    assert Pow2(BID_TREE_DEPTH) == MAX_BIDS;
    var root := RootFromLeaves(h, leaves, BID_TREE_DEPTH);
    var winnerIndex :- WinnerSlot(ordered, override);
    if winnerIndex < 0 || winnerIndex >= |ordered| {
      return Err(InactiveWinner);
    }
    var winner := ordered[winnerIndex];
    if rulesHash >= TWO_256 {
      return Err(ValueTooWide);
    }
    return Ok(AwardWitness(
      tender, rulesHash / TWO_128, rulesHash % TWO_128, root.value, |ordered|,
      Poseidon(h, SlotCommitmentInput(h, winner, tender)),
      if policy == DISCLOSE_WINNING_PRICE then winner.bidAmount else 0, policy,
      nullifier, bidAmount, bidNonce, ciphertextHashField, winnerIndex));
  }

  // ----- what the witness says

  /** The slots a witness was built from. */
  function Ordered(bids: seq<OpenedBid>): seq<OpenedBid> {
    Sort(SubmissionIndex, bids)
  }

  lemma InOrderIsDistinct(ordered: seq<OpenedBid>)
    requires InOrder(ordered)
    ensures DistinctBy(SubmissionIndex, ordered)
  {}

  /** The published winner is the cheapest bid of the whole set, the earliest among equals. */
  lemma AwardsLowest(h: Hashes, bids: seq<OpenedBid>, tender: int, rulesHash: nat, policy: int)
    requires Witness(h, bids, tender, rulesHash, policy, None).Ok?
    ensures var w := Witness(h, bids, tender, rulesHash, policy, None).value;
            exists winner :: winner in bids && winner.submissionIndex == w.winnerIndex
              && w.winningPrice == (if policy == DISCLOSE_WINNING_PRICE then winner.bidAmount else 0)
              && w.winnerCommitment == Poseidon(h, SlotCommitmentInput(h, winner, tender))
              && forall b :: b in bids ==>
                   winner.bidAmount < b.bidAmount
                   || (winner.bidAmount == b.bidAmount && winner.submissionIndex <= b.submissionIndex)
  {
    hide Sort, AmountError, RootOf, Column, SlotLeaves;
    var ordered := Ordered(bids);
    SortContents(SubmissionIndex, bids);
    BestIsLeast(ordered);
    var winner := Best(ordered);
    var i :| 0 <= i < |ordered| && ordered[i] == winner;
    assert ordered[winner.submissionIndex] == winner;
    SameContents(ordered, bids, winner);
    forall b | b in bids
      ensures winner.bidAmount < b.bidAmount
              || (winner.bidAmount == b.bidAmount && winner.submissionIndex <= b.submissionIndex)
    {
      SameContents(ordered, bids, b);
      assert !Beats(b, winner);
    }
  }

  /** Permuting the bids changes nothing: neither the witness nor the refusal. */
  lemma ArrivalOrderIrrelevant(h: Hashes, bids: seq<OpenedBid>, again: seq<OpenedBid>, tender: int,
                               rulesHash: nat, policy: int, override: Option<int>)
    requires multiset(bids) == multiset(again)
    ensures Witness(h, bids, tender, rulesHash, policy, override)
            == Witness(h, again, tender, rulesHash, policy, override)
  {
    hide Sort, AmountError, WitnessOf, WinnerSlot;
    assert |bids| == |multiset(bids)| && |again| == |multiset(again)|;
    if InOrder(Ordered(bids)) {
      InOrderIsDistinct(Ordered(bids));
      SortForgetsOrder(SubmissionIndex, bids, again);
    } else if InOrder(Ordered(again)) {
      InOrderIsDistinct(Ordered(again));
      SortForgetsOrder(SubmissionIndex, again, bids);
    }
  }

  // ----- the witness in terms of the bids

  /** The bids carry the indices 0 to n - 1, each once. */
  predicate NoGaps(bids: seq<OpenedBid>) {
    && (forall i, j :: 0 <= i < j < |bids| ==> bids[i].submissionIndex != bids[j].submissionIndex)
    && (forall i :: 0 <= i < |bids| ==> 0 <= bids[i].submissionIndex < |bids|)
  }

  lemma {:induction false} AtLeastPosition(s: seq<OpenedBid>, i: nat)
    requires SortedBy(SubmissionIndex, s) && DistinctBy(SubmissionIndex, s) && i < |s|
    requires forall k :: 0 <= k < |s| ==> s[k].submissionIndex >= 0
    ensures s[i].submissionIndex >= i
  {
    if i > 0 {
      AtLeastPosition(s, i - 1);
      assert SubmissionIndex(s[i - 1]) <= SubmissionIndex(s[i]) && SubmissionIndex(s[i - 1]) != SubmissionIndex(s[i]);
    }
  }

  lemma {:induction false} AtMostPosition(s: seq<OpenedBid>, i: nat)
    requires SortedBy(SubmissionIndex, s) && DistinctBy(SubmissionIndex, s) && i < |s|
    requires forall k :: 0 <= k < |s| ==> s[k].submissionIndex < |s|
    ensures s[i].submissionIndex <= i
    decreases |s| - i
  {
    if i < |s| - 1 {
      AtMostPosition(s, i + 1);
      assert SubmissionIndex(s[i]) <= SubmissionIndex(s[i + 1]) && SubmissionIndex(s[i]) != SubmissionIndex(s[i + 1]);
    }
  }

  /** Sorting finds the indices in order exactly when they are 0 to n - 1, each once. */
  lemma InOrderIff(bids: seq<OpenedBid>)
    ensures InOrder(Ordered(bids)) <==> NoGaps(bids)
    ensures |Ordered(bids)| == |bids|
  {
    hide Sort;
    var s := Ordered(bids);
    SortContents(SubmissionIndex, bids);
    SizeOfSorted(s, bids);
    if NoGaps(bids) {
      DistinctKeys(bids);
      DistinctKeysSort(SubmissionIndex, bids);
      forall i | 0 <= i < |s|
        ensures 0 <= s[i].submissionIndex < |s|
      {
        SameContents(s, bids, s[i]);
        var j :| 0 <= j < |bids| && bids[j] == s[i];
      }
      forall i | 0 <= i < |s|
        ensures s[i].submissionIndex == i
      {
        AtLeastPosition(s, i);
        AtMostPosition(s, i);
      }
    }
    if InOrder(s) {
      InOrderIsDistinct(s);
      forall i | 0 <= i < |bids|
        ensures 0 <= bids[i].submissionIndex < |bids|
      {
        SameContents(s, bids, bids[i]);
        var j :| 0 <= j < |s| && s[j] == bids[i];
      }
      DistinctBack(s, bids);
    }
  }

  lemma SizeOfSorted(s: seq<OpenedBid>, bids: seq<OpenedBid>)
    requires multiset(s) == multiset(bids)
    ensures |s| == |bids|
  {
    assert |multiset(s)| == |s| && |multiset(bids)| == |bids|;
  }

  lemma DistinctKeys(bids: seq<OpenedBid>)
    requires NoGaps(bids)
    ensures DistinctBy(SubmissionIndex, bids)
  {}

  /** Indices distinct in one order are distinct in every order. */
  lemma DistinctBack(s: seq<OpenedBid>, bids: seq<OpenedBid>)
    requires multiset(s) == multiset(bids) && DistinctBy(SubmissionIndex, s)
    ensures DistinctBy(SubmissionIndex, bids)
  {
    hide DistinctBy;
    DistinctByMultiset(SubmissionIndex, s, bids);
  }

  /** Which checks refuse, first to last, in terms of the arguments. */
  lemma WitnessRefusals(h: Hashes, bids: seq<OpenedBid>, tender: int, rules: nat, policy: int, override: Option<int>)
    ensures var w := Witness(h, bids, tender, rules, policy, override);
            var inRange := forall i :: 0 <= i < |bids| ==> 0 <= bids[i].bidAmount < 0x1_0000_0000_0000_0000;
            var winner := if override.None? then bids != [] else 0 <= override.value < |bids|;
            && (w == Err(TooManyBids) <==> |bids| > 32)
            && (w == Err(BadPolicy) <==> |bids| <= 32 && policy !in [1, 2])
            && (w == Err(IndexGap) <==> |bids| <= 32 && policy in [1, 2] && !NoGaps(bids))
            && (w.Ok? <==> |bids| <= 32 && policy in [1, 2] && NoGaps(bids) && inRange && winner && rules < TWO_256)
            && (|bids| <= 32 && policy in [1, 2] && NoGaps(bids) && inRange ==>
                  && (w == Err(NoBids) <==> bids == [] && override.None?)
                  && (w == Err(InactiveWinner) <==> override.Some? && !(0 <= override.value < |bids|))
                  && (w == Err(ValueTooWide) <==> winner && rules >= TWO_256))
            && (|bids| <= 32 && policy in [1, 2] && NoGaps(bids) && !inRange ==>
                  w.Err? && exists i :: FirstBadAmount(Ordered(bids), i, w.error))
  {
    hide Sort, WitnessOf, FirstBadAmount, NoGaps, InOrder, AmountError;
    InOrderIff(bids);
    if NoGaps(bids) {
      AmountsOk(bids);
      if bids != [] {
        WinnerInRange(bids);
      }
    }
  }

  /** The first slot whose amount is out of range, and what is said of it. */
  ghost predicate FirstBadAmount(ordered: seq<OpenedBid>, i: int, e: Error) {
    && 0 <= i < |ordered| && !AmountInRange(ordered[i]) && (forall k :: 0 <= k < i ==> AmountInRange(ordered[k]))
    && e == if ordered[i].bidAmount < 0 then NegativeValue else ValueTooWide
  }

  lemma {:induction false} AmountErrorIff(ordered: seq<OpenedBid>)
    ensures AmountError(ordered).None? <==> forall i :: 0 <= i < |ordered| ==> AmountInRange(ordered[i])
    ensures AmountError(ordered).Some? ==>
              AmountError(ordered).value in [NegativeValue, ValueTooWide]
              && exists i :: FirstBadAmount(ordered, i, AmountError(ordered).value)
  {
    if ordered != [] {
      var n := |ordered| - 1;
      AmountErrorIff(ordered[..n]);
      assert ordered == ordered[..n] + [ordered[n]];
      if AmountError(ordered[..n]).Some? {
        var i :| FirstBadAmount(ordered[..n], i, AmountError(ordered[..n]).value);
        assert FirstBadAmount(ordered, i, AmountError(ordered).value);
      } else if AmountError(ordered).Some? {
        assert FirstBadAmount(ordered, n, AmountError(ordered).value);
      }
    }
  }

  lemma AmountsOk(bids: seq<OpenedBid>)
    ensures AmountError(Ordered(bids)).None? <==>
              forall i :: 0 <= i < |bids| ==> 0 <= bids[i].bidAmount < 0x1_0000_0000_0000_0000
    ensures AmountError(Ordered(bids)).Some? ==>
              AmountError(Ordered(bids)).value in [NegativeValue, ValueTooWide]
              && exists i :: FirstBadAmount(Ordered(bids), i, AmountError(Ordered(bids)).value)
  {
    hide Sort, AmountError;
    var s := Ordered(bids);
    SortContents(SubmissionIndex, bids);
    AmountErrorIff(s);
    if AmountError(s).None? {
      forall i | 0 <= i < |bids|
        ensures 0 <= bids[i].bidAmount < 0x1_0000_0000_0000_0000
      {
        SameContents(s, bids, bids[i]);
        var j :| 0 <= j < |s| && s[j] == bids[i];
        assert AmountInRange(s[j]);
      }
    } else {
      var j :| 0 <= j < |s| && !AmountInRange(s[j]);
      SameContents(s, bids, s[j]);
      var i :| 0 <= i < |bids| && bids[i] == s[j];
    }
  }

  lemma WinnerInRange(bids: seq<OpenedBid>)
    requires bids != [] && InOrder(Ordered(bids))
    ensures Ordered(bids) != [] && 0 <= Best(Ordered(bids)).submissionIndex < |Ordered(bids)|
  {
    hide Sort;
    InOrderIff(bids);
    BestIsLeast(Ordered(bids));
  }

  /**
    Every published number: the rules hash in two limbs, the count, the tender and
    the policy as given, the winner's commitment, and the price only if disclosed.
   */
  lemma WitnessFields(h: Hashes, bids: seq<OpenedBid>, tender: int, rules: nat, policy: int, override: Option<int>)
    requires Witness(h, bids, tender, rules, policy, override).Ok?
    ensures var w := Witness(h, bids, tender, rules, policy, override).value;
            && w.rulesHashHi * 0x1_0000_0000_0000_0000_0000_0000_0000_0000 + w.rulesHashLo == rules
            && 0 <= w.rulesHashLo < 0x1_0000_0000_0000_0000_0000_0000_0000_0000
            && w.submissionCount == |bids| && w.tenderIdField == tender && w.disclosurePolicy == policy
            && (override.Some? ==> w.winnerIndex == override.value)
            && (policy == 2 ==> w.winningPrice == 0)
            && |w.nullifier| == |w.bidAmount| == |w.bidNonce| == |w.ciphertextHashField| == 32
            && (forall b :: b in bids ==> StandsInSlot(w, b))
            && (forall b :: b in bids && b.submissionIndex == w.winnerIndex ==>
                  && w.winnerCommitment == Poseidon(h, SlotCommitmentInput(h, b, tender))
                  && (policy == 1 ==> w.winningPrice == b.bidAmount))
            && (forall i :: |bids| <= i < 32 ==> EmptySlot(w, i))
  {
    hide Sort, AmountError, RootOf, SlotLeaves, SlotCommitmentInput, Poseidon, StandsInSlot, EmptySlot, SelectWinner;
    var s := Ordered(bids);
    var k := WinnerSlot(s, override).value;
    var w := Witness(h, bids, tender, rules, policy, override).value;
    assert w == WitnessOf(h, s, tender, rules, policy, k);
    InOrderIff(bids);
    SortContents(SubmissionIndex, bids);
    forall b | b in bids
      ensures s[b.submissionIndex] == b && StandsInSlot(w, b)
    {
      SameContents(s, bids, b);
      var i :| 0 <= i < |s| && s[i] == b;
      SlotsHold(h, s, tender, rules, policy, k, i);
    }
    forall i | |bids| <= i < 32
      ensures EmptySlot(w, i)
    {
      SlotsEmpty(h, s, tender, rules, policy, k, i);
    }
  }

  /** The bid's own four fields stand in the four columns at its submission index. */
  predicate StandsInSlot(w: AwardWitness, b: OpenedBid) {
    && 0 <= b.submissionIndex < |w.nullifier| == |w.bidAmount| == |w.bidNonce| == |w.ciphertextHashField|
    && w.nullifier[b.submissionIndex] == b.nullifier && w.bidAmount[b.submissionIndex] == b.bidAmount
    && w.bidNonce[b.submissionIndex] == b.bidNonce
    && w.ciphertextHashField[b.submissionIndex] == b.ciphertextHashField
  }

  predicate EmptySlot(w: AwardWitness, i: int) {
    && 0 <= i < |w.nullifier| == |w.bidAmount| == |w.bidNonce| == |w.ciphertextHashField|
    && w.nullifier[i] == 0 && w.bidAmount[i] == 0 && w.bidNonce[i] == 0 && w.ciphertextHashField[i] == 0
  }

  lemma SlotsHold(h: Hashes, s: seq<OpenedBid>, tender: int, rules: nat, policy: int, k: int, i: nat)
    requires 0 <= k < |s| <= MAX_BIDS && InOrder(s) && i < |s|
    ensures StandsInSlot(WitnessOf(h, s, tender, rules, policy, k), s[i])
  {
    hide RootOf, SlotLeaves, Poseidon, SlotCommitmentInput;
  }

  lemma SlotsEmpty(h: Hashes, s: seq<OpenedBid>, tender: int, rules: nat, policy: int, k: int, i: nat)
    requires 0 <= k < |s| <= MAX_BIDS && |s| <= i < MAX_BIDS
    ensures EmptySlot(WitnessOf(h, s, tender, rules, policy, k), i)
  {
    hide RootOf, SlotLeaves, Poseidon, SlotCommitmentInput;
  }

  /** The proof that a slot's leaf is under the root, for any leaf vector of the tree's size. */
  function SlotProof(h: Hashes, leaves: seq<int>, depth: nat, i: nat): MerkleProof
    requires |leaves| == Pow2(depth) && i < Pow2(depth)
  {
    ProofFor(h, leaves, depth, i)
  }

  /**
    Every bid of the set is under the published root: at its submission index there
    is an accepted inclusion proof for the leaf of its own nullifier, commitment,
    ciphertext hash and index; the slots beyond the bids hold the padding.
   */
  lemma BidsIncluded(h: Hashes, bids: seq<OpenedBid>, tender: int, rules: nat, policy: int, override: Option<int>, b: OpenedBid)
    requires Witness(h, bids, tender, rules, policy, override).Ok? && b in bids
    ensures MAX_BIDS == Pow2(BID_TREE_DEPTH) == 32 && 0 <= b.submissionIndex < 32
    ensures var proof := SlotProof(h, SlotLeaves(h, Ordered(bids), tender), BID_TREE_DEPTH, b.submissionIndex);
            && Accepts(h, proof) && proof.index == b.submissionIndex && BitsValue(proof.pathIndices) == b.submissionIndex
            && proof.root == Witness(h, bids, tender, rules, policy, override).value.bidSetRoot
            && BidLeaf(h, b.nullifier, Poseidon(h, CommitmentInput(h, b.bidAmount, b.bidNonce, tender, b.nullifier)),
                       b.ciphertextHashField, b.submissionIndex) == Ok(proof.leaf)
  {
    hide Sort, AmountError, SlotLeaves, Column, Poseidon, TreeRoot, SiblingsOf, Bits, BitsValue, Accepts, RootOf,
         CommitmentInput, LeafInput, Pow2, PaddedLeavesOf;
    var s := Ordered(bids);
    SortContents(SubmissionIndex, bids);
    SameContents(s, bids, b);
    var i :| 0 <= i < |s| && s[i] == b;
    InOrderIff(bids);
    SlotLeavesPadded(h, s, tender);
    ProofAccepted(h, SlotLeaves(h, s, tender), BID_TREE_DEPTH, b.submissionIndex);
    RootOfFull(h, SlotLeaves(h, s, tender), BID_TREE_DEPTH);
  }

  lemma RootOfFull(h: Hashes, leaves: seq<int>, depth: nat)
    requires |leaves| == Pow2(depth) && PaddedLeavesOf(h, leaves, depth) == leaves
    ensures RootOf(h, leaves, depth) == TreeRoot(h, leaves, depth)
  {
    hide TreeRoot;
  }

  // ----- completeness of the published root

  /**
    The same bid, as far as hashing sees it: index and amount are range-checked
    and equal, the other fields are the same field elements.
   */
  predicate SameBid(a: OpenedBid, b: OpenedBid) {
    && a.submissionIndex == b.submissionIndex && a.bidAmount == b.bidAmount
    && Residue(a.nullifier) == Residue(b.nullifier) && Residue(a.bidNonce) == Residue(b.bidNonce)
    && Residue(a.ciphertextHashField) == Residue(b.ciphertextHashField)
  }

  predicate SameBids(a: seq<OpenedBid>, b: seq<OpenedBid>, n: nat)
    requires n <= |a| && n <= |b|
  {
    forall i :: 0 <= i < n ==> SameBid(a[i], b[i])
  }

  /** The fields that are not range-checked are field elements already. */
  predicate IsReduced(b: OpenedBid) {
    && 0 <= b.nullifier < FIELD_PRIME && 0 <= b.bidNonce < FIELD_PRIME
    && 0 <= b.ciphertextHashField < FIELD_PRIME
  }

  lemma SameReducedBid(a: OpenedBid, b: OpenedBid)
    requires SameBid(a, b) && IsReduced(a) && IsReduced(b)
    ensures a == b
  {
    hide Residue;
    SmallResidue(a.nullifier);
    SmallResidue(b.nullifier);
    SmallResidue(a.bidNonce);
    SmallResidue(b.bidNonce);
    SmallResidue(a.ciphertextHashField);
    SmallResidue(b.ciphertextHashField);
  }

  /** The first pair of different inputs hashed for one slot, leaf before commitment. */
  function SlotCollision(h: Hashes, a: OpenedBid, b: OpenedBid, tender: int, i: int): Option<Collision> {
    var x, y := SlotLeafInput(h, a, tender, i), SlotLeafInput(h, b, tender, i);
    var u, v := SlotCommitmentInput(h, a, tender), SlotCommitmentInput(h, b, tender);
    if Residues(x) != Residues(y) then Some(Collision(x, y))
    else if Residues(u) != Residues(v) then Some(Collision(u, v))
    else None
  }

  function SlotsCollision(h: Hashes, a: seq<OpenedBid>, b: seq<OpenedBid>, tender: int, n: nat): Option<Collision>
    requires n <= |a| && n <= |b|
  {
    if n == 0 then None
    else
      var earlier := SlotsCollision(h, a, b, tender, n - 1);
      if earlier.Some? then earlier else SlotCollision(h, a[n - 1], b[n - 1], tender, n - 1)
  }

  predicate AmountInRange(b: OpenedBid) {
    0 <= b.bidAmount < UINT64
  }

  lemma {:induction false} AmountsInRange(ordered: seq<OpenedBid>)
    requires AmountError(ordered).None?
    ensures forall i :: 0 <= i < |ordered| ==> AmountInRange(ordered[i])
  {
    if ordered != [] {
      var n := |ordered| - 1;
      AmountsInRange(ordered[..n]);
      assert ordered == ordered[..n] + [ordered[n]];
    }
  }

  lemma LeafFields(h: Hashes, a: OpenedBid, b: OpenedBid, tender: int, i: int)
    ensures Residues(SlotLeafInput(h, a, tender, i)) == Residues(SlotLeafInput(h, b, tender, i))
            <==> && Residue(a.nullifier) == Residue(b.nullifier)
                 && Residue(a.ciphertextHashField) == Residue(b.ciphertextHashField)
                 && Poseidon(h, SlotCommitmentInput(h, a, tender)) == Poseidon(h, SlotCommitmentInput(h, b, tender))
  {
    hide Residue, Poseidon, SlotCommitmentInput;
    var c, d := Poseidon(h, SlotCommitmentInput(h, a, tender)), Poseidon(h, SlotCommitmentInput(h, b, tender));
    SmallResidue(c);
    SmallResidue(d);
    var x, y := Residues(SlotLeafInput(h, a, tender, i)), Residues(SlotLeafInput(h, b, tender, i));
    if x == y {
      assert x[1] == y[1] && x[2] == y[2] && x[3] == y[3];
    }
  }

  lemma CommitmentFields(h: Hashes, a: OpenedBid, b: OpenedBid, tender: int)
    requires AmountInRange(a) && AmountInRange(b)
    ensures Residues(SlotCommitmentInput(h, a, tender)) == Residues(SlotCommitmentInput(h, b, tender))
            <==> && a.bidAmount == b.bidAmount && Residue(a.bidNonce) == Residue(b.bidNonce)
                 && Residue(a.nullifier) == Residue(b.nullifier)
  {
    hide Residue;
    SmallResidue(a.bidAmount);
    SmallResidue(b.bidAmount);
    var u, v := Residues(SlotCommitmentInput(h, a, tender)), Residues(SlotCommitmentInput(h, b, tender));
    if u == v {
      assert u[1] == v[1] && u[2] == v[2] && u[4] == v[4];
    }
  }

  lemma SlotBinds(h: Hashes, a: OpenedBid, b: OpenedBid, tender: int, i: int)
    requires a.submissionIndex == i == b.submissionIndex && AmountInRange(a) && AmountInRange(b)
    requires Poseidon(h, SlotLeafInput(h, a, tender, i)) == Poseidon(h, SlotLeafInput(h, b, tender, i))
    ensures SlotCollision(h, a, b, tender, i).None? <==> SameBid(a, b)
    ensures SlotCollision(h, a, b, tender, i).Some? ==> IsCollision(h, SlotCollision(h, a, b, tender, i).value)
  {
    hide Residue, Residues, Poseidon, SlotLeafInput, SlotCommitmentInput, AmountInRange;
    LeafFields(h, a, b, tender, i);
    CommitmentFields(h, a, b, tender);
    EqualInputs(h, SlotCommitmentInput(h, a, tender), SlotCommitmentInput(h, b, tender));
  }

  lemma EqualInputs(h: Hashes, x: seq<int>, y: seq<int>)
    ensures Residues(x) == Residues(y) ==> Poseidon(h, x) == Poseidon(h, y)
  {}

  lemma {:induction false} SlotsBind(h: Hashes, a: seq<OpenedBid>, b: seq<OpenedBid>, tender: int, n: nat)
    requires n <= |a| && n <= |b| && InOrder(a) && InOrder(b)
    requires forall i :: 0 <= i < n ==> AmountInRange(a[i]) && AmountInRange(b[i])
    requires forall i :: 0 <= i < n ==>
               Poseidon(h, SlotLeafInput(h, a[i], tender, i)) == Poseidon(h, SlotLeafInput(h, b[i], tender, i))
    ensures SlotsCollision(h, a, b, tender, n).None? <==> SameBids(a, b, n)
    ensures SlotsCollision(h, a, b, tender, n).Some? ==> IsCollision(h, SlotsCollision(h, a, b, tender, n).value)
  {
    hide SlotLeafInput, SlotCollision, SameBid, AmountInRange, Poseidon, IsCollision;
    if n > 0 {
      SlotsBind(h, a, b, tender, n - 1);
      SlotBinds(h, a[n - 1], b[n - 1], tender, n - 1);
    }
  }

  /** Walks the two bid trees, then the slots, to the first place where they differ. */
  function AwardCollision(h: Hashes, a: seq<OpenedBid>, b: seq<OpenedBid>, tender: int): Option<Collision>
  {
    assert Pow2(BID_TREE_DEPTH) == MAX_BIDS;
    var x := FindCollision(h, SlotLeaves(h, a, tender), SlotLeaves(h, b, tender), BID_TREE_DEPTH);
    if x.Some? then x else SlotsCollision(h, a, b, tender, if |a| < |b| then |a| else |b|)
  }

  lemma SlotLeavesPadded(h: Hashes, a: seq<OpenedBid>, tender: int)
    ensures MAX_BIDS == Pow2(BID_TREE_DEPTH)
    ensures PaddedLeavesOf(h, SlotLeaves(h, a, tender), BID_TREE_DEPTH) == SlotLeaves(h, a, tender)
  {
    assert Pow2(BID_TREE_DEPTH) == MAX_BIDS;
  }

  /** Slot leaves are digests, so equal residues are equal leaves. */
  lemma SlotLeavesReduced(h: Hashes, a: seq<OpenedBid>, tender: int, i: nat)
    requires i < MAX_BIDS
    ensures Residues(SlotLeaves(h, a, tender))[i] == SlotLeaves(h, a, tender)[i]
  {
    hide Residue, Poseidon, SlotLeafInput, Padding;
    if i < |a| {
      SmallResidue(Poseidon(h, SlotLeafInput(h, a[i], tender, i)));
    } else {
      PaddingReduced(h);
    }
  }

  /** The root alone, no count given: the same bids, a collision, or a bid whose leaf is the padding. */
  lemma RootDeterminesBids(h: Hashes, a: seq<OpenedBid>, b: seq<OpenedBid>, tender: int)
    requires |a| <= |b| <= MAX_BIDS == Pow2(BID_TREE_DEPTH) && InOrder(a) && InOrder(b)
    requires AmountError(a).None? && AmountError(b).None?
    requires RootOf(h, SlotLeaves(h, a, tender), BID_TREE_DEPTH) == RootOf(h, SlotLeaves(h, b, tender), BID_TREE_DEPTH)
    ensures var x := AwardCollision(h, a, b, tender);
            || (x.Some? && IsCollision(h, x.value))
            || (SameBids(a, b, |a|)
                && (|a| < |b| ==> Poseidon(h, SlotLeafInput(h, b[|a|], tender, |a|)) == Padding(h)))
  {
    hide SlotLeafInput, RootOf, FindCollision, SlotsCollision, PaddedLeavesOf, Padding, Residues, Poseidon,
         AmountError, AmountInRange, SameBid, IsCollision;
    var la, lb := SlotLeaves(h, a, tender), SlotLeaves(h, b, tender);
    SlotLeavesPadded(h, a, tender);
    SlotLeavesPadded(h, b, tender);
    AccumulatorBinding(h, la, lb, BID_TREE_DEPTH);
    if FindCollision(h, la, lb, BID_TREE_DEPTH).None? {
      forall i | 0 <= i < MAX_BIDS
        ensures la[i] == lb[i]
      {
        SlotLeavesReduced(h, a, tender, i);
        SlotLeavesReduced(h, b, tender, i);
      }
      AmountsInRange(a);
      AmountsInRange(b);
      SlotsBind(h, a, b, tender, |a|);
      if |a| < |b| {
        assert la[|a|] == lb[|a|];
      }
    }
  }

  /** The winner depends on indices and amounts only. */
  lemma {:induction false} SameBest(a: seq<OpenedBid>, b: seq<OpenedBid>)
    requires |a| == |b| > 0 && SameBids(a, b, |a|)
    ensures SameBid(Best(a), Best(b))
  {
    hide Residue;
    var n := |a| - 1;
    if n > 0 {
      SameBest(a[..n], b[..n]);
    }
  }

  lemma SameCommitment(h: Hashes, a: OpenedBid, b: OpenedBid, tender: int)
    requires SameBid(a, b) && AmountInRange(a) && AmountInRange(b)
    ensures Poseidon(h, SlotCommitmentInput(h, a, tender)) == Poseidon(h, SlotCommitmentInput(h, b, tender))
  {
    hide Residue, Residues, Poseidon, SlotCommitmentInput, AmountInRange;
    CommitmentFields(h, a, b, tender);
    EqualInputs(h, SlotCommitmentInput(h, a, tender), SlotCommitmentInput(h, b, tender));
  }

  /** What one set of bids fixes about a witness, and another with the same bids has in common. */
  predicate SameAward(u: AwardWitness, v: AwardWitness) {
    && u.winnerIndex == v.winnerIndex && u.winningPrice == v.winningPrice
    && u.winnerCommitment == v.winnerCommitment
    && u.submissionCount == v.submissionCount && u.bidAmount == v.bidAmount
    && Residues(u.nullifier) == Residues(v.nullifier) && Residues(u.bidNonce) == Residues(v.bidNonce)
    && Residues(u.ciphertextHashField) == Residues(v.ciphertextHashField)
  }

  /** The slots and the winner of a witness, named. */
  lemma WitnessParts(h: Hashes, bids: seq<OpenedBid>, tender: int, rules: nat, policy: int)
    requires Witness(h, bids, tender, rules, policy, None).Ok?
    ensures var s := Ordered(bids);
            var k := Best(s).submissionIndex;
            && InOrder(s) && AmountError(s).None? && 0 <= k < |s| <= MAX_BIDS && s[k] == Best(s)
            && Witness(h, bids, tender, rules, policy, None).value == WitnessOf(h, s, tender, rules, policy, k)
            && multiset(s) == multiset(bids)
  {
    hide Sort, AmountError, WitnessOf;
    SortContents(SubmissionIndex, bids);
    BestIsLeast(Ordered(bids));
    assert |multiset(Ordered(bids))| == |multiset(bids)|;
  }

  lemma SameBidsSameAward(h: Hashes, a: seq<OpenedBid>, b: seq<OpenedBid>, tender: int, rules: nat, rules': nat,
                          policy: int, k: int)
    requires |a| == |b| <= MAX_BIDS && 0 <= k < |a| && SameBids(a, b, |a|)
    requires AmountInRange(a[k]) && AmountInRange(b[k])
    ensures SameAward(WitnessOf(h, a, tender, rules, policy, k), WitnessOf(h, b, tender, rules', policy, k))
  {
    hide Residue, Poseidon, SlotCommitmentInput, RootOf, SlotLeaves, AmountInRange;
    SameCommitment(h, a[k], b[k], tender);
    SameColumn(a, b, Nullifier);
    SameColumn(a, b, Nonce);
    SameColumn(a, b, CiphertextHash);
    assert Column(a, Amount) == Column(b, Amount);
  }

  lemma SameColumn(a: seq<OpenedBid>, b: seq<OpenedBid>, field: OpenedBid -> int)
    requires |a| == |b| && forall i :: 0 <= i < |a| ==> Residue(field(a[i])) == Residue(field(b[i]))
    ensures Residues(Column(a, field)) == Residues(Column(b, field))
  {
    hide Residue;
  }

  lemma SameReducedBids(a: seq<OpenedBid>, b: seq<OpenedBid>)
    requires |a| == |b| && SameBids(a, b, |a|)
    requires forall i :: 0 <= i < |a| ==> IsReduced(a[i]) && IsReduced(b[i])
    ensures a == b
  {
    hide SameBid, IsReduced;
    forall i | 0 <= i < |a|
      ensures a[i] == b[i]
    {
      SameReducedBid(a[i], b[i]);
    }
  }

  predicate AllReduced(bids: seq<OpenedBid>) {
    forall b :: b in bids ==> IsReduced(b)
  }

  /** The witness published for a set of bids, when no winner is imposed. */
  predicate IsPublished(h: Hashes, bids: seq<OpenedBid>, tender: int, rules: nat, policy: int, w: AwardWitness) {
    Witness(h, bids, tender, rules, policy, None) == Ok(w)
  }

  /** The same bids slot by slot; as reduced field elements, simply the same bids. */
  predicate SameBidSet(a: seq<OpenedBid>, b: seq<OpenedBid>) {
    && |Ordered(a)| == |Ordered(b)| && SameBids(Ordered(a), Ordered(b), |Ordered(a)|)
    && (AllReduced(a) && AllReduced(b) ==> multiset(a) == multiset(b))
  }

  /**
    Completeness of the award: for one tender and one policy, the published root
    and count determine every slot and with them the winner, its price and its
    commitment; otherwise two colliding Poseidon inputs are computed.
   */
  lemma AwardCompleteness(h: Hashes, a: seq<OpenedBid>, b: seq<OpenedBid>, tender: int,
                          rules: nat, rules': nat, policy: int, u: AwardWitness, v: AwardWitness)
    requires IsPublished(h, a, tender, rules, policy, u) && IsPublished(h, b, tender, rules', policy, v)
    requires u.bidSetRoot == v.bidSetRoot && u.submissionCount == v.submissionCount
    ensures var x := AwardCollision(h, Ordered(a), Ordered(b), tender);
            || (x.Some? && IsCollision(h, x.value))
            || (SameBidSet(a, b) && SameAward(u, v)
                && (AllReduced(a) && AllReduced(b) ==>
                      u == v.(rulesHashHi := u.rulesHashHi, rulesHashLo := u.rulesHashLo)))
  {
    hide Witness, Ordered, AmountError, RootOf, SlotLeaves, Column, AwardCollision, SameBid, SameAward, IsCollision,
         Best, IsReduced, AmountInRange, Poseidon;
    var s, t := Ordered(a), Ordered(b);
    WitnessParts(h, a, tender, rules, policy);
    WitnessParts(h, b, tender, rules', policy);
    SlotLeavesPadded(h, s, tender);
    RootDeterminesBids(h, s, t, tender);
    if SameBids(s, t, |s|) {
      AmountsInRange(s);
      AmountsInRange(t);
      SameBest(s, t);
      SameIndex(Best(s), Best(t));
      SameBidsSameAward(h, s, t, tender, rules, rules', policy, Best(s).submissionIndex);
      if AllReduced(a) && AllReduced(b) {
        OrderedReduced(a);
        OrderedReduced(b);
        SameReducedBids(s, t);
      }
    }
  }

  lemma SameIndex(a: OpenedBid, b: OpenedBid)
    requires SameBid(a, b)
    ensures a.submissionIndex == b.submissionIndex
  {}

  lemma OrderedReduced(bids: seq<OpenedBid>)
    requires AllReduced(bids)
    ensures forall i :: 0 <= i < |Ordered(bids)| ==> IsReduced(Ordered(bids)[i])
  {
    hide IsReduced, Sort;
    SortContents(SubmissionIndex, bids);
    forall i | 0 <= i < |Ordered(bids)|
      ensures IsReduced(Ordered(bids)[i])
    {
      SameContents(Ordered(bids), bids, Ordered(bids)[i]);
    }
  }
}
