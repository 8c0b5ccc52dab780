/** Dealing a committee key and checking a dealing: packages/crypto/src/vss.ts. */
module Dealing {
  import opened Prelude
  import opened Modular
  import opened Polynomials
  import opened Interpolation
  import opened CurveGroup
  import opened Sharing

  // ----- dealCommitteeKey

  function DealtShare(c: Curve, coefficients: Poly, index: int): CommitteeShare
    requires c.q > 0 && Nonnegative(coefficients) && index >= 1
  {
    EvalModResidue(c.q, coefficients, index);
    var v := EvalMod(c.q, coefficients, index);
    CommitteeShare(index, v, Mul(c, v, c.base))
  }

  /** Shares for members 1 to n. */
  function DealtShares(c: Curve, coefficients: Poly, n: nat): (shares: seq<CommitteeShare>)
    requires c.q > 0 && Nonnegative(coefficients)
    ensures |shares| == n
    ensures forall i :: 0 <= i < n ==> shares[i] == DealtShare(c, coefficients, i + 1)
  {
    seq(n, i requires 0 <= i < n => DealtShare(c, coefficients, i + 1))
  }

  function Dealt(c: Curve, size: nat, coefficients: Poly): DealtCommitteeKey
    requires c.q > 0 && Nonnegative(coefficients) && coefficients != []
  {
    DealtCommitteeKey(|coefficients|, size, coefficients[0], Mul(c, coefficients[0], c.base),
                      Commitments(c, coefficients), DealtShares(c, coefficients, size))
  }

  /** What dealCommitteeKey refuses, in the order it checks. */
  function DealRefusal(q: int, threshold: int, size: int, secret: int, extra: seq<int>): Option<Error> {
    if threshold < 2 then Some(ThresholdTooSmall)
    else if threshold > size then Some(ThresholdExceedsSize)
    else if secret <= 0 || secret >= q then Some(SecretOutOfRange)
    else if 1 + |extra| != threshold then Some(WrongCoefficientCount)
    else if exists i :: 0 <= i < |extra| && extra[i] < 0 then Some(NegativeScalar)
    else None
  }

  /** The dealings refused, in terms of the arguments: each error, and none. */
  lemma DealRefusals(q: int, threshold: int, size: int, secret: int, extra: seq<int>)
    ensures DealRefusal(q, threshold, size, secret, extra) == None <==>
              && 2 <= threshold <= size && 0 < secret < q && 1 + |extra| == threshold
              && forall i :: 0 <= i < |extra| ==> extra[i] >= 0
    ensures DealRefusal(q, threshold, size, secret, extra) == Some(ThresholdTooSmall) <==> threshold < 2
    ensures DealRefusal(q, threshold, size, secret, extra) == Some(ThresholdExceedsSize) <==> 2 <= threshold && size < threshold
    ensures DealRefusal(q, threshold, size, secret, extra) == Some(SecretOutOfRange) <==>
              2 <= threshold <= size && !(0 < secret < q)
    ensures DealRefusal(q, threshold, size, secret, extra) == Some(WrongCoefficientCount) <==>
              2 <= threshold <= size && 0 < secret < q && 1 + |extra| != threshold
    ensures DealRefusal(q, threshold, size, secret, extra) == Some(NegativeScalar) <==>
              && 2 <= threshold <= size && 0 < secret < q && 1 + |extra| == threshold
              && exists i :: 0 <= i < |extra| && extra[i] < 0
  {}

  /** What is dealt, from the coefficients alone: shares are sums of powers at 1, 2, 3, and so on. */
  lemma DealtParts(c: Curve, size: nat, a: Poly)
    requires c.q > 0 && Nonnegative(a) && a != []
    ensures var d := Dealt(c, size, a);
            && d.threshold == |a| && d.size == size && d.secret == a[0] && d.publicKey == Mul(c, a[0], c.base)
            && |d.commitments| == |a| && (forall j :: 0 <= j < |a| ==> d.commitments[j] == Mul(c, a[j], c.base))
            && |d.shares| == size
            && (forall i :: 0 <= i < size ==>
                  var s := d.shares[i];
                  && s.index == i + 1 && s.share == PowerSum(a, i + 1) % c.q >= 0
                  && s.publicShare == Mul(c, s.share, c.base))
  {
    hide Mul, EvalMod, Eval, PowerSum;
    var shares := Dealt(c, size, a).shares;
    forall i | 0 <= i < size
      ensures shares[i].share == PowerSum(a, i + 1) % c.q
    {
      EvalModResidue(c.q, a, i + 1);
      EvalIsPowerSum(a, i + 1);
    }
  }

  /** coefficients.map(mulBase): the commitments, unless a scalar is negative. */
  method CommitTo(c: Curve, coefficients: Poly) returns (res: Result<seq<Point>>)
    ensures res == if Nonnegative(coefficients) then Ok(Commitments(c, coefficients)) else Err(NegativeScalar)
  {
    hide Mul;
    var commitments := [];
    for j := 0 to |coefficients|
      invariant |commitments| == j
      invariant forall i :: 0 <= i < j ==>
                  coefficients[i] >= 0 && commitments[i] == Mul(c, coefficients[i], c.base)
    {
      if coefficients[j] < 0 {
        return Err(NegativeScalar);
      }
      commitments := commitments + [Mul(c, coefficients[j], c.base)];
    }
    assert commitments == Commitments(c, coefficients);
    return Ok(commitments);
  }

  /** The share loop of dealCommitteeKey. */
  method DealShares(c: Curve, coefficients: Poly, size: nat) returns (shares: seq<CommitteeShare>)
    requires c.q >= 2 && Nonnegative(coefficients)
    ensures shares == DealtShares(c, coefficients, size)
  {
    hide EvalMod, Mul;
    shares := [];
    for i := 0 to size
      invariant |shares| == i
      invariant forall k :: 0 <= k < i ==> shares[k] == DealtShare(c, coefficients, k + 1)
    {
      var share := EvaluatePolynomial(c.q, coefficients, i + 1);
      EvalModResidue(c.q, coefficients, i + 1);
      shares := shares + [CommitteeShare(i + 1, share, Mul(c, share, c.base))];
    }
  }

  /**
    dealCommitteeKey. The secret and the other coefficients are parameters:
    where the source draws them at random, they are what it drew.
   */
  method DealCommitteeKey(c: Curve, threshold: int, size: int, secret: int, extra: seq<int>)
    returns (res: Result<DealtCommitteeKey>)
    requires c.q >= 2
    ensures match DealRefusal(c.q, threshold, size, secret, extra)
            case Some(e) => res == Err(e)
            case None => Nonnegative([secret] + extra) && res == Ok(Dealt(c, size, [secret] + extra))
  {
    hide EvalMod, Mul;
    if threshold < 2 {
      return Err(ThresholdTooSmall);
    }
    if threshold > size {
      return Err(ThresholdExceedsSize);
    }
    if secret <= 0 || secret >= c.q {
      return Err(SecretOutOfRange);
    }
    var coefficients := [secret] + extra;
    if |coefficients| != threshold {
      return Err(WrongCoefficientCount);
    }
    assert forall i :: 0 <= i < |extra| ==> extra[i] == coefficients[i + 1];
    var committed := CommitTo(c, coefficients);
    if committed.Err? {
      return Err(committed.error);
    }
    var publicKey := committed.value[0];
    var shares := DealShares(c, coefficients, size);
    return Ok(DealtCommitteeKey(threshold, size, secret, publicKey, committed.value, shares));
  }

  // ----- verifyDealing

  datatype Problem =
    | CommitmentCount
    | NotOnCurve(j: nat)
    | KeyIsNotFirstCommitment
    | KeyOutsideSubgroup
    | ShareCount
    | DuplicateIndex(index: int)
    | BadShare(index: int)
    | WrongSecret

  /** JavaScript's slice(0, n). */
  function FirstOf<T>(s: seq<T>, n: int): (r: seq<T>)
    ensures |r| <= |s| && r == s[..|r|]
    ensures n >= 0 ==> |r| == if n < |s| then n else |s|
    ensures n < 0 ==> |r| == if -n < |s| then |s| + n else 0
  {
    if n < 0 then (if |s| + n < 0 then [] else s[..|s| + n])
    else if n > |s| then s
    else s[..n]
  }

  predicate IndicesUsable(d: DealtCommitteeKey) {
    |d.shares| >= d.threshold && Distinct(Indices(d.shares))
  }

  ghost function FirstReconstruction(c: Curve, d: DealtCommitteeKey): Result<int>
    requires c.q > 0
  {
    Reconstruct(c.q, FirstOf(d.shares, d.threshold))
  }

  /** What each reported problem says about the dealing. */
  ghost predicate Holds(c: Curve, d: DealtCommitteeKey, p: Problem)
    requires c.q > 0 && d.commitments != []
  {
    match p
    case CommitmentCount => |d.commitments| != d.threshold
    case NotOnCurve(j) => j < |d.commitments| && !InCurve(c, d.commitments[j])
    case KeyIsNotFirstCommitment => d.publicKey != d.commitments[0]
    case KeyOutsideSubgroup => !IsInPrimeSubgroup(c, d.publicKey)
    case ShareCount => |d.shares| != d.size
    case DuplicateIndex(x) =>
      exists i, j :: 0 <= i < j < |d.shares| && d.shares[i].index == x == d.shares[j].index
    case BadShare(x) =>
      exists i :: 0 <= i < |d.shares| && d.shares[i].index == x && VerifyShare(c, d.shares[i], d.commitments) == Ok(false)
    case WrongSecret =>
      IndicesUsable(d) && FirstReconstruction(c, d).Ok?
      && FirstReconstruction(c, d).value != TruncMod(d.secret, c.q)
  }

  /** The dealings on which the check throws instead of reporting. */
  ghost predicate CheckThrows(c: Curve, d: DealtCommitteeKey)
    requires c.q > 0
  {
    || d.commitments == []
    || (exists i :: 0 <= i < |d.shares| && VerifyShare(c, d.shares[i], d.commitments).Err?)
    || (IndicesUsable(d) && FirstReconstruction(c, d).Err?)
  }

  /** ok: nothing thrown and nothing to report. */
  ghost predicate DealingOk(c: Curve, d: DealtCommitteeKey)
    requires c.q > 0
  {
    !CheckThrows(c, d) && forall p :: !Holds(c, d, p)
  }

  /** The problems found before the shares are read. */
  ghost predicate StaticProblem(c: Curve, d: DealtCommitteeKey, p: Problem)
    requires c.q > 0 && d.commitments != []
  {
    !p.DuplicateIndex? && !p.BadShare? && !p.WrongSecret? && Holds(c, d, p)
  }

  ghost predicate DuplicateUpTo(d: DealtCommitteeKey, x: int, n: nat)
    requires n <= |d.shares|
  {
    exists i, j :: 0 <= i < j < n && d.shares[i].index == x == d.shares[j].index
  }

  ghost predicate BadShareUpTo(c: Curve, d: DealtCommitteeKey, x: int, n: nat)
    requires c.q > 0 && n <= |d.shares|
  {
    exists i :: 0 <= i < n && d.shares[i].index == x && VerifyShare(c, d.shares[i], d.commitments) == Ok(false)
  }

  ghost predicate FoundSoFar(c: Curve, d: DealtCommitteeKey, p: Problem, n: nat)
    requires c.q > 0 && d.commitments != [] && n <= |d.shares|
  {
    || StaticProblem(c, d, p)
    || (p.DuplicateIndex? && DuplicateUpTo(d, p.index, n))
    || (p.BadShare? && BadShareUpTo(c, d, p.index, n))
  }

  method CommitmentProblems(c: Curve, d: DealtCommitteeKey) returns (problems: seq<Problem>)
    requires c.q >= 2 && d.commitments != []
    ensures forall p :: p in problems <==> StaticProblem(c, d, p)
  {
    hide InCurve, IsInPrimeSubgroup;
    problems := if |d.commitments| != d.threshold then [CommitmentCount] else [];
    for j := 0 to |d.commitments|
      invariant forall p :: p in problems <==>
                  || (p.CommitmentCount? && |d.commitments| != d.threshold)
                  || (p.NotOnCurve? && p.j < j && !InCurve(c, d.commitments[p.j]))
    {
      if !InCurve(c, d.commitments[j]) {
        problems := problems + [NotOnCurve(j)];
      }
    }
    if d.publicKey != d.commitments[0] {
      problems := problems + [KeyIsNotFirstCommitment];
    }
    if !IsInPrimeSubgroup(c, d.publicKey) {
      problems := problems + [KeyOutsideSubgroup];
    }
    if |d.shares| != d.size {
      problems := problems + [ShareCount];
    }
  }

  /** One share more: what it adds to the problems found. */
  lemma FoundStep(c: Curve, d: DealtCommitteeKey, n: nat, p: Problem)
    requires c.q > 0 && d.commitments != [] && n < |d.shares|
    ensures var s := d.shares[n];
            FoundSoFar(c, d, p, n + 1) <==>
              || FoundSoFar(c, d, p, n)
              || (p == DuplicateIndex(s.index) && IndexUpTo(d, s.index, n))
              || (p == BadShare(s.index) && VerifyShare(c, s, d.commitments) == Ok(false))
  {
    hide StaticProblem, VerifyShare;
    if p.DuplicateIndex? {
      if k :| 0 <= k < n && d.shares[k].index == d.shares[n].index == p.index {
        assert DuplicateUpTo(d, p.index, n + 1);
      }
      if DuplicateUpTo(d, p.index, n) {
        assert DuplicateUpTo(d, p.index, n + 1);
      }
    } else if p.BadShare? && BadShareUpTo(c, d, p.index, n) {
      assert BadShareUpTo(c, d, p.index, n + 1);
    }
  }

  lemma FoundStart(c: Curve, d: DealtCommitteeKey, p: Problem)
    requires c.q > 0 && d.commitments != []
    ensures FoundSoFar(c, d, p, 0) <==> StaticProblem(c, d, p)
  {}

  lemma FoundAll(c: Curve, d: DealtCommitteeKey, p: Problem)
    requires c.q > 0 && d.commitments != []
    ensures p != WrongSecret ==> (FoundSoFar(c, d, p, |d.shares|) <==> Holds(c, d, p))
    ensures p == WrongSecret ==> !FoundSoFar(c, d, p, |d.shares|)
  {}

  ghost predicate IndexUpTo(d: DealtCommitteeKey, x: int, n: nat)
    requires n <= |d.shares|
  {
    exists k :: 0 <= k < n && d.shares[k].index == x
  }

  ghost predicate DistinctUpTo(d: DealtCommitteeKey, n: nat)
    requires n <= |d.shares|
  {
    forall k, l :: 0 <= k < l < n ==> d.shares[k].index != d.shares[l].index
  }

  /** The indices of the first n shares. */
  ghost predicate Saw(d: DealtCommitteeKey, seen: set<int>, n: nat)
    requires n <= |d.shares|
  {
    forall x :: x in seen <==> IndexUpTo(d, x, n)
  }

  /** The problems of the first n shares, and those found before. */
  ghost predicate Collected(c: Curve, d: DealtCommitteeKey, problems: seq<Problem>, n: nat)
    requires c.q > 0 && d.commitments != [] && n <= |d.shares|
  {
    forall p :: p in problems <==> FoundSoFar(c, d, p, n)
  }

  lemma IndexStep(d: DealtCommitteeKey, x: int, n: nat)
    requires n < |d.shares|
    ensures IndexUpTo(d, x, n + 1) <==> IndexUpTo(d, x, n) || d.shares[n].index == x
    ensures DistinctUpTo(d, n + 1) <==> DistinctUpTo(d, n) && !IndexUpTo(d, d.shares[n].index, n)
  {
    if IndexUpTo(d, x, n) {
      var k :| 0 <= k < n && d.shares[k].index == x;
      assert d.shares[k].index == x;
    }
    if d.shares[n].index == x {
      assert IndexUpTo(d, x, n + 1);
    }
  }

  lemma SawStep(d: DealtCommitteeKey, seen: set<int>, n: nat)
    requires n < |d.shares| && Saw(d, seen, n)
    ensures Saw(d, seen + {d.shares[n].index}, n + 1)
    ensures DistinctUpTo(d, n + 1) <==> DistinctUpTo(d, n) && d.shares[n].index !in seen
  {
    hide IndexUpTo, DistinctUpTo;
    IndexStep(d, d.shares[n].index, n);
    forall x
      ensures x in seen + {d.shares[n].index} <==> IndexUpTo(d, x, n + 1)
    {
      IndexStep(d, x, n);
    }
  }

  /** What the share adds to the list. */
  function Added(s: CommitteeShare, repeated: bool, bad: bool): seq<Problem> {
    (if repeated then [DuplicateIndex(s.index)] else []) + (if bad then [BadShare(s.index)] else [])
  }

  lemma AddedAre(s: CommitteeShare, repeated: bool, bad: bool, p: Problem)
    ensures p in Added(s, repeated, bad) <==>
            (p == DuplicateIndex(s.index) && repeated) || (p == BadShare(s.index) && bad)
  {}

  lemma CollectedStep(c: Curve, d: DealtCommitteeKey, problems: seq<Problem>, seen: set<int>, n: nat)
    requires c.q > 0 && d.commitments != [] && n < |d.shares|
    requires Saw(d, seen, n) && Collected(c, d, problems, n)
    ensures var s := d.shares[n];
            Collected(c, d, problems + Added(s, s.index in seen, VerifyShare(c, s, d.commitments) == Ok(false)), n + 1)
  {
    hide FoundSoFar, VerifyShare, Added;
    var s := d.shares[n];
    var added := Added(s, s.index in seen, VerifyShare(c, s, d.commitments) == Ok(false));
    forall p
      ensures p in problems + added <==> FoundSoFar(c, d, p, n + 1)
    {
      FoundStep(c, d, n, p);
      AddedAre(s, s.index in seen, VerifyShare(c, s, d.commitments) == Ok(false), p);
    }
  }

  lemma CollectedStart(c: Curve, d: DealtCommitteeKey, problems: seq<Problem>)
    requires c.q > 0 && d.commitments != [] && forall p :: p in problems <==> StaticProblem(c, d, p)
    ensures Collected(c, d, problems, 0)
  {
    hide FoundSoFar, StaticProblem;
    forall p
      ensures p in problems <==> FoundSoFar(c, d, p, 0)
    {
      FoundStart(c, d, p);
    }
  }

  /** The share loop of verifyDealing. */
  method ShareProblems(c: Curve, d: DealtCommitteeKey, before: seq<Problem>)
    returns (res: Result<(seq<Problem>, bool)>)
    requires c.q >= 2 && d.commitments != []
    requires forall p :: p in before <==> StaticProblem(c, d, p)
    ensures res.Err? <==> exists i :: 0 <= i < |d.shares| && VerifyShare(c, d.shares[i], d.commitments).Err?
    ensures res.Ok? ==> res.value.1 == IndicesUsable(d)
    ensures res.Ok? ==> forall p :: p in res.value.0 <==> FoundSoFar(c, d, p, |d.shares|)
  {
    hide FoundSoFar, StaticProblem, VerifyShare, Collected, Saw, DistinctUpTo;
    var problems := before;
    var seen: set<int> := {};
    var indicesUsable := |d.shares| >= d.threshold;
    CollectedStart(c, d, before);
    SawNothing(d);
    for i := 0 to |d.shares|
      invariant Saw(d, seen, i)
      invariant indicesUsable <==> |d.shares| >= d.threshold && DistinctUpTo(d, i)
      invariant forall k :: 0 <= k < i ==> VerifyShare(c, d.shares[k], d.commitments).Ok?
      invariant Collected(c, d, problems, i)
    {
      var s := d.shares[i];
      CollectedStep(c, d, problems, seen, i);
      SawStep(d, seen, i);
      ghost var added := Added(s, s.index in seen, VerifyShare(c, s, d.commitments) == Ok(false));
      ghost var after := problems + added;
      if s.index in seen {
        problems := problems + [DuplicateIndex(s.index)];
        indicesUsable := false;
      }
      seen := seen + {s.index};
      var good := VerifyShare(c, s, d.commitments);
      if good.Err? {
        return Err(good.error);
      }
      if !good.value {
        problems := problems + [BadShare(s.index)];
      }
      assert problems == after;
    }
    AllCollected(c, d, problems);
    AllDistinct(d);
    return Ok((problems, indicesUsable));
  }

  lemma SawNothing(d: DealtCommitteeKey)
    ensures Saw(d, {}, 0) && DistinctUpTo(d, 0)
  {}

  lemma AllCollected(c: Curve, d: DealtCommitteeKey, problems: seq<Problem>)
    requires c.q > 0 && d.commitments != [] && Collected(c, d, problems, |d.shares|)
    ensures forall p :: p in problems <==> FoundSoFar(c, d, p, |d.shares|)
  {}

  lemma AllDistinct(d: DealtCommitteeKey)
    ensures IndicesUsable(d) <==> |d.shares| >= d.threshold && DistinctUpTo(d, |d.shares|)
  {}

  /** verifyDealing: the list of problems; ok means the list is empty. */
  method VerifyDealing(c: Curve, d: DealtCommitteeKey) returns (res: Result<seq<Problem>>)
    requires c.q >= 2
    ensures res.Err? <==> CheckThrows(c, d)
    ensures res.Ok? ==> forall p :: p in res.value <==> Holds(c, d, p)
    ensures res == Ok([]) <==> DealingOk(c, d)
  {
    hide StaticProblem, FoundSoFar, VerifyShare, Reconstruct, InCurve, IsInPrimeSubgroup, IndicesUsable;
    if d.commitments == [] {
      return Err(NoCommitments);
    }
    var before := CommitmentProblems(c, d);
    var scanned := ShareProblems(c, d, before);
    if scanned.Err? {
      return Err(scanned.error);
    }
    var (problems, indicesUsable) := scanned.value;
    forall p {
      FoundAll(c, d, p);
    }
    if indicesUsable {
      var rebuilt := ReconstructSecret(c.q, FirstOf(d.shares, d.threshold));
      if rebuilt.Err? {
        return Err(rebuilt.error);
      }
      if rebuilt.value != TruncMod(d.secret, c.q) {
        problems := problems + [WrongSecret];
      }
    }
    assert WrongSecret in problems <==> Holds(c, d, WrongSecret);
    if problems != [] {
      assert problems[0] in problems;
    }
    return Ok(problems);
  }
}
