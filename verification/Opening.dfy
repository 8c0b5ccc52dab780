/**
  What a checked dealing guarantees (packages/crypto/src/vss.ts:172-291):
  every qualifying set of members opens, in the clear and in the exponent.
 */
module Opening {
  import opened Prelude
  import opened Modular
  import opened Polynomials
  import opened Interpolation
  import opened CurveGroup
  import opened Sharing
  import opened Dealing

  // ----- index sets

  /** Distinct members numbered below q are separated modulo q. */
  lemma MembersSeparated(q: int, xs: seq<int>)
    requires Distinct(xs) && forall i :: 0 <= i < |xs| ==> 0 <= xs[i] < q
    ensures DistinctMod(q, xs)
  {
    forall i, j | 0 <= i < j < |xs|
      ensures !Cong(q, xs[i], xs[j])
    {
      NotCongruent(q, xs[i], xs[j]);
    }
  }

  // ----- the committed polynomial, without assuming the commitments lie in the subgroup

  lemma CofactorCancels(c: Curve, v: nat, w: nat)
    requires Lawful(c) && Mul(c, c.cofactor, Mul(c, v, c.base)) == Mul(c, c.cofactor, Mul(c, w, c.base))
    ensures Cong(c.q, v, w)
  {
    hide Cong, Mul;
    MulMul(c, c.cofactor, v, c.base);
    MulMul(c, c.cofactor, w, c.base);
    BaseOrder(c, c.cofactor * v, c.cofactor * w);
    var u := CofactorInvertible(c);
    CancelUnit(c.q, c.cofactor, u, v, w);
  }

  lemma CancelUnit(q: int, f: int, u: int, v: int, w: int)
    requires Cong(q, f * u, 1) && Cong(q, f * v, f * w)
    ensures Cong(q, v, w)
  {
    hide *;
    CongScale(q, u, f * v, f * w);
    CongScale(q, v, f * u, 1);
    CongScale(q, w, f * u, 1);
    assert u * (f * v) == v * (f * u) && u * (f * w) == w * (f * u);
    CongSym(q, v * (f * u), v * 1);
    CongTrans(q, v, v * (f * u), w * (f * u));
    CongTrans(q, v, w * (f * u), w);
  }

  /** The curve point p agrees with a times the generator once the cofactor is cleared. */
  ghost predicate IsLog(c: Curve, p: Point, a: nat) {
    InCurve(c, p) && Mul(c, c.cofactor, p) == Mul(c, c.cofactor, Mul(c, a, c.base))
  }

  lemma LogUpToCofactor(c: Curve, p: Point) returns (a: nat)
    requires Lawful(c) && InCurve(c, p)
    ensures IsLog(c, p, a)
    ensures IsInPrimeSubgroup(c, p) ==> p == Mul(c, a, c.base)
  {
    hide Cong, Mul, IsInPrimeSubgroup;
    ClearCofactor(c, p);
    var e := DiscreteLog(c, Mul(c, c.cofactor, p));
    var u := CofactorInvertible(c);
    a := u * e;
    CongScale(c.q, e, c.cofactor * u, 1);
    assert e * (c.cofactor * u) == c.cofactor * (u * e);
    MulMul(c, c.cofactor, a, c.base);
    BaseOrder(c, c.cofactor * a, e);
    if IsInPrimeSubgroup(c, p) {
      var k := DiscreteLog(c, p);
      CofactorCancels(c, k, a);
      BaseOrder(c, k, a);
    }
  }

  lemma {:induction false} CommitmentLogs(c: Curve, cs: seq<Point>) returns (a: Poly)
    requires Lawful(c) && forall j :: 0 <= j < |cs| ==> InCurve(c, cs[j])
    ensures |a| == |cs| && Nonnegative(a)
    ensures forall j :: 0 <= j < |a| ==> Mul(c, c.cofactor, cs[j]) == Mul(c, c.cofactor, Commitments(c, a)[j])
    ensures cs != [] && IsInPrimeSubgroup(c, cs[0]) ==> cs[0] == Commitments(c, a)[0]
  {
    hide Mul, InCurve, IsInPrimeSubgroup, Lawful;
    if cs == [] {
      a := [];
    } else {
      var n := |cs| - 1;
      var rest := CommitmentLogs(c, cs[..n]);
      var last := LogUpToCofactor(c, cs[n]);
      a := rest + [last];
      forall j | 0 <= j < |a|
        ensures Commitments(c, a)[j] == if j < n then Commitments(c, rest)[j] else Mul(c, last, c.base)
      {
      }
    }
  }

  lemma {:induction false} CommitmentSumInCurve(c: Curve, index: int, cs: seq<Point>, k: nat)
    requires Lawful(c) && k <= |cs| && forall j :: 0 <= j < |cs| ==> InCurve(c, cs[j])
    ensures InCurve(c, CommitmentSum(c, index, cs, k))
  {
    hide Mul;
    if k > 0 {
      CommitmentSumInCurve(c, index, cs, k - 1);
      var e := Pow(index, k - 1) % c.q;
      MulInCurve(c, e, cs[k - 1]);
      AddLaws(c, CommitmentSum(c, index, cs, k - 1), Mul(c, e, cs[k - 1]), IDENTITY);
    }
  }

  /** Multiplying by the cofactor passes through the Feldman sum. */
  lemma {:induction false} CommitmentSumUpToCofactor(c: Curve, index: int, cs: seq<Point>, ds: seq<Point>, k: nat)
    requires Lawful(c) && k <= |cs| == |ds|
    requires forall j :: 0 <= j < |cs| ==> InCurve(c, cs[j]) && InCurve(c, ds[j])
    requires forall j :: 0 <= j < |cs| ==> Mul(c, c.cofactor, cs[j]) == Mul(c, c.cofactor, ds[j])
    ensures Mul(c, c.cofactor, CommitmentSum(c, index, cs, k)) == Mul(c, c.cofactor, CommitmentSum(c, index, ds, k))
  {
    hide Mul;
    if k > 0 {
      CommitmentSumUpToCofactor(c, index, cs, ds, k - 1);
      var e := Pow(index, k - 1) % c.q;
      TermUpToCofactor(c, CommitmentSum(c, index, cs, k - 1), e, cs[k - 1]) by {
        CommitmentSumInCurve(c, index, cs, k - 1);
      }
      TermUpToCofactor(c, CommitmentSum(c, index, ds, k - 1), e, ds[k - 1]) by {
        CommitmentSumInCurve(c, index, ds, k - 1);
      }
    }
  }

  lemma TermUpToCofactor(c: Curve, s: Point, e: nat, p: Point)
    requires Lawful(c) && InCurve(c, s) && InCurve(c, p)
    ensures Mul(c, c.cofactor, c.add(s, Mul(c, e, p)))
            == c.add(Mul(c, c.cofactor, s), Mul(c, e, Mul(c, c.cofactor, p)))
  {
    hide Mul;
    MulInCurve(c, e, p);
    MulDistributes(c, c.cofactor, s, Mul(c, e, p));
    MulMul(c, c.cofactor, e, p);
    MulMul(c, e, c.cofactor, p);
    assert c.cofactor * e == e * c.cofactor;
  }

  /** A share that passes against curve points is a value of the committed polynomial. */
  lemma AcceptedShareIsValue(c: Curve, cs: seq<Point>, a: Poly, s: CommitteeShare)
    requires Lawful(c) && |a| == |cs| && Nonnegative(a)
    requires forall j :: 0 <= j < |cs| ==> InCurve(c, cs[j])
    requires forall j :: 0 <= j < |a| ==> Mul(c, c.cofactor, cs[j]) == Mul(c, c.cofactor, Commitments(c, a)[j])
    requires VerifyShare(c, s, cs) == Ok(true)
    ensures s.index >= 1 && 0 < s.share < c.q && Cong(c.q, s.share, Eval(a, s.index))
  {
    hide Cong, Mul, Lawful, InCurve, IsInPrimeSubgroup;
    var q, ds := c.q, Commitments(c, a);
    BaseInSubgroup(c);
    forall j | 0 <= j < |ds|
      ensures InCurve(c, ds[j])
    {
      MulInCurve(c, a[j], c.base);
    }
    CommitmentSumUpToCofactor(c, s.index, cs, ds, |cs|);
    ExpectedShareIsValue(c, a, s.index);
    CofactorCancels(c, s.share, EvalMod(q, a, s.index));
    EvalModIsEval(q, a, s.index);
    CongTrans(q, s.share, EvalMod(q, a, s.index), Eval(a, s.index));
  }

  // ----- a checked dealing

  /** The polynomial behind a checked dealing. */
  ghost predicate CommittedPolynomial(c: Curve, d: DealtCommitteeKey, a: Poly)
    requires c.q > 0
  {
    && |a| == d.threshold && a != [] && a[0] >= 0
    && d.publicKey == Mul(c, a[0], c.base)
    && (forall i :: 0 <= i < |d.shares| ==>
          && d.shares[i].index >= 1 && 0 < d.shares[i].share < c.q
          && d.shares[i].publicShare == Mul(c, d.shares[i].share, c.base)
          && Cong(c.q, d.shares[i].share, Eval(a, d.shares[i].index)))
  }

  lemma OkAcceptsShare(c: Curve, d: DealtCommitteeKey, i: nat)
    requires c.q > 0 && DealingOk(c, d) && i < |d.shares|
    ensures VerifyShare(c, d.shares[i], d.commitments) == Ok(true)
  {
    hide VerifyShare, Reconstruct;
    var verdict := VerifyShare(c, d.shares[i], d.commitments);
    assert verdict.Ok?;
    assert !Holds(c, d, BadShare(d.shares[i].index));
    assert verdict != Ok(false);
    assert verdict.value;
  }

  /** Whatever the commitments, a dealing that passes comes from one polynomial. */
  lemma OkGivesPolynomial(c: Curve, d: DealtCommitteeKey) returns (a: Poly)
    requires Lawful(c) && DealingOk(c, d)
    ensures CommittedPolynomial(c, d, a)
  {
    hide Cong, Mul, Lawful, InCurve, IsInPrimeSubgroup, VerifyShare, Reconstruct;
    BaseInSubgroup(c);
    assert !Holds(c, d, CommitmentCount) && !Holds(c, d, KeyIsNotFirstCommitment) && !Holds(c, d, KeyOutsideSubgroup);
    forall j | 0 <= j < |d.commitments|
      ensures InCurve(c, d.commitments[j])
    {
      assert !Holds(c, d, NotOnCurve(j));
    }
    a := CommitmentLogs(c, d.commitments);
    forall i | 0 <= i < |d.shares|
      ensures d.shares[i].index >= 1 && 0 < d.shares[i].share < c.q
      ensures d.shares[i].publicShare == Mul(c, d.shares[i].share, c.base)
      ensures Cong(c.q, d.shares[i].share, Eval(a, d.shares[i].index))
    {
      var s := d.shares[i];
      OkAcceptsShare(c, d, i);
      AcceptedShareIsValue(c, d.commitments, a, s);
      AcceptedPublicShare(c, s, d.commitments);
    }
  }

  lemma AcceptedPublicShare(c: Curve, s: CommitteeShare, cs: seq<Point>)
    requires c.q > 0 && VerifyShare(c, s, cs) == Ok(true)
    ensures 0 < s.share < c.q && s.publicShare == Mul(c, s.share, c.base)
  {}

  /** A qualifying set: enough of the dealt shares, no member twice, in any order. */
  ghost predicate Qualifies(d: DealtCommitteeKey, group: seq<CommitteeShare>) {
    && |group| >= d.threshold
    && Distinct(Indices(group))
    && (forall i :: 0 <= i < |group| ==> group[i] in d.shares)
  }

  lemma GroupValues(c: Curve, d: DealtCommitteeKey, a: Poly, group: seq<CommitteeShare>)
    requires c.q > 0 && CommittedPolynomial(c, d, a) && Qualifies(d, group)
    ensures |a| <= |group|
    ensures ValuesOf(c.q, a, Indices(group), ShareValues(group))
    ensures AllNonnegative(Indices(group)) && AllNonnegative(ShareValues(group))
  {
    hide Cong, Mul, Eval;
    forall i | 0 <= i < |group|
      ensures 0 <= group[i].index && group[i].share >= 0
      ensures Cong(c.q, group[i].share, Eval(a, group[i].index))
    {
      var j :| 0 <= j < |d.shares| && d.shares[j] == group[i];
    }
  }

  /** The members' decryption shares for an ephemeral point r. */
  function DecryptionShares(c: Curve, group: seq<CommitteeShare>, r: Point): (ps: seq<Point>)
    requires c.q > 0
    requires forall i :: 0 <= i < |group| ==> 0 <= group[i].share
    ensures |ps| == |group|
    ensures forall i :: 0 <= i < |ps| ==> ps[i] == Mul(c, group[i].share, r)
  {
    seq(|group|, i requires 0 <= i < |group| => Mul(c, group[i].share, r))
  }

  /**
    Every qualifying set with pairwise incongruent indices recovers the committed
    constant term, in the clear and in the exponent.
   */
  lemma GroupRecovers(c: Curve, d: DealtCommitteeKey, a: Poly, group: seq<CommitteeShare>, r: Point)
    requires Lawful(c) && CommittedPolynomial(c, d, a) && Qualifies(d, group)
    requires DistinctMod(c.q, Indices(group)) && IsInPrimeSubgroup(c, r)
    ensures forall i :: 0 <= i < |group| ==> 0 <= group[i].share
    ensures Reconstruct(c.q, group) == Ok(a[0] % c.q)
    ensures Combined(c, Indices(group), DecryptionShares(c, group, r)) == Ok(Mul(c, a[0] % c.q, r))
  {
    hide Cong, Mul, Lawful, IsInPrimeSubgroup, CommittedPolynomial, Qualifies, CombineUpTo, ReconstructUpTo,
         DistinctMod;
    LawfulPrime(c);
    PolynomialShape(c, d, a);
    GroupValues(c, d, a, group);
    EvalAtZero(a);
    forall i | 0 <= i < |group|
      ensures 0 <= group[i].share
    {
      assert ShareValues(group)[i] >= 0;
    }
    RecoversScalar(c.q, a, Indices(group), ShareValues(group));
    RecoversPoint(c, a, Indices(group), ShareValues(group), DecryptionShares(c, group, r), r);
  }

  lemma PolynomialShape(c: Curve, d: DealtCommitteeKey, a: Poly)
    requires c.q > 0 && CommittedPolynomial(c, d, a)
    ensures a != [] && |a| == d.threshold && a[0] >= 0 && d.publicKey == Mul(c, a[0], c.base)
  {}

  /** With enough members the check has compared the secret with the committed one. */
  lemma OkPinsSecret(c: Curve, d: DealtCommitteeKey, a: Poly)
    requires Lawful(c) && DealingOk(c, d) && d.size >= d.threshold
    requires CommittedPolynomial(c, d, a)
    ensures TruncMod(d.secret, c.q) == a[0] % c.q
  {
    hide Cong, Mul, Lawful, InCurve, IsInPrimeSubgroup, VerifyShare, Reconstruct, TruncMod, DistinctMod;
    BaseInSubgroup(c);
    PolynomialShape(c, d, a);
    var first := FirstOf(d.shares, d.threshold);
    assert !Holds(c, d, ShareCount);
    assert first == d.shares[..d.threshold];
    OkIndicesDistinct(c, d);
    assert Distinct(Indices(first)) by {
      assert Indices(first) == Indices(d.shares)[..d.threshold];
    }
    assert IndicesUsable(d);
    LawfulPrime(c);
    ReconstructDefinedIff(c.q, first);
    GroupRecovers(c, d, a, first, c.base);
    assert !Holds(c, d, WrongSecret);
  }

  lemma OkIndicesDistinct(c: Curve, d: DealtCommitteeKey)
    requires c.q > 0 && DealingOk(c, d)
    ensures Distinct(Indices(d.shares))
  {
    hide VerifyShare, Reconstruct;
    forall i, j | 0 <= i < j < |d.shares|
      ensures Indices(d.shares)[i] != Indices(d.shares)[j]
    {
      assert !Holds(c, d, DuplicateIndex(d.shares[i].index));
    }
  }

  /** What a set of members obtains, in the clear and from their decryption shares for r. */
  ghost predicate Opens(c: Curve, group: seq<CommitteeShare>, r: Point, secret: nat)
    requires c.q > 0 && forall i :: 0 <= i < |group| ==> 0 <= group[i].share
  {
    && Reconstruct(c.q, group) == Ok(secret)
    && Combined(c, Indices(group), DecryptionShares(c, group, r)) == Ok(Mul(c, secret, r))
  }

  /** Both computations throw. */
  ghost predicate Throws(c: Curve, group: seq<CommitteeShare>, r: Point)
    requires c.q > 0 && forall i :: 0 <= i < |group| ==> 0 <= group[i].share
  {
    Reconstruct(c.q, group).Err? && Combined(c, Indices(group), DecryptionShares(c, group, r)).Err?
  }

  /**
    A dealing that passes verifyDealing with size >= threshold is opened by every
    qualifying set whose indices are incongruent modulo q, not only by the first
    t members the check tries; any other qualifying set is refused. The
    commitments beyond C_0 are only known to be curve points.
   */
  lemma VerifiedDealingOpens(c: Curve, d: DealtCommitteeKey, group: seq<CommitteeShare>, r: Point)
    requires Lawful(c) && DealingOk(c, d) && d.size >= d.threshold
    requires Qualifies(d, group) && IsInPrimeSubgroup(c, r)
    ensures var secret := TruncMod(d.secret, c.q);
            && 0 <= secret < c.q
            && d.publicKey == Mul(c, secret, c.base)
            && (forall i :: 0 <= i < |group| ==> 0 <= group[i].share)
            && (if DistinctMod(c.q, Indices(group)) then Opens(c, group, r, secret) else Throws(c, group, r))
  {
    hide Cong, Mul, Lawful, IsInPrimeSubgroup, DealingOk, TruncMod, Combined, Reconstruct, DistinctMod,
         CommittedPolynomial, Qualifies;
    BaseInSubgroup(c);
    var a := OkGivesPolynomial(c, d);
    OkPinsSecret(c, d, a);
    PolynomialShape(c, d, a);
    MulResidue(c, a[0], c.base);
    GroupValues(c, d, a, group);
    assert forall i :: 0 <= i < |group| ==> ShareValues(group)[i] >= 0;
    if DistinctMod(c.q, Indices(group)) {
      GroupRecovers(c, d, a, group, r);
    } else {
      LawfulPrime(c);
      ReconstructDefinedIff(c.q, group);
      if Combined(c, Indices(group), DecryptionShares(c, group, r)).Ok? {
        CombinedNeeds(c, Indices(group), DecryptionShares(c, group, r));
      }
    }
  }

  /** A set of members reconstructs the dealt secret. */
  ghost predicate Reconstructs(c: Curve, d: DealtCommitteeKey, group: seq<CommitteeShare>)
    requires c.q > 0
  {
    Reconstruct(c.q, group) == Ok(TruncMod(d.secret, c.q))
  }

  /**
    All qualifying sets of a checked dealing open it if and only if no two of its
    members have congruent indices.
   */
  lemma EverySetOpensIff(c: Curve, d: DealtCommitteeKey)
    requires Lawful(c) && DealingOk(c, d) && d.size >= d.threshold
    ensures (forall group :: Qualifies(d, group) ==> Reconstructs(c, d, group))
            <==> DistinctMod(c.q, Indices(d.shares))
  {
    hide Cong, Mul, Lawful, IsInPrimeSubgroup, DealingOk, TruncMod, Combined, Reconstruct, DistinctMod, Qualifies;
    BaseInSubgroup(c);
    AllQualify(c, d);
    VerifiedDealingOpens(c, d, d.shares, c.base);
    if DistinctMod(c.q, Indices(d.shares)) {
      forall group | Qualifies(d, group)
        ensures Reconstructs(c, d, group)
      {
        SubsetSeparated(c.q, d, group);
        VerifiedDealingOpens(c, d, group, c.base);
      }
    }
  }

  lemma AllQualify(c: Curve, d: DealtCommitteeKey)
    requires c.q > 0 && DealingOk(c, d) && d.size >= d.threshold
    ensures Qualifies(d, d.shares)
  {
    hide VerifyShare, Reconstruct, Holds;
    OkIndicesDistinct(c, d);
    ShareCountRight(c, d);
  }

  lemma ShareCountRight(c: Curve, d: DealtCommitteeKey)
    requires c.q > 0 && DealingOk(c, d)
    ensures |d.shares| == d.size
  {
    hide VerifyShare, Reconstruct;
    assert !Holds(c, d, ShareCount);
  }

  lemma SubsetSeparated(q: int, d: DealtCommitteeKey, group: seq<CommitteeShare>)
    requires DistinctMod(q, Indices(d.shares)) && Qualifies(d, group)
    ensures DistinctMod(q, Indices(group))
  {
    hide Cong;
    forall i, j | 0 <= i < j < |group|
      ensures !Cong(q, Indices(group)[i], Indices(group)[j])
    {
      assert Indices(group)[i] != Indices(group)[j];
      assert group[i] in d.shares && group[j] in d.shares;
      var k :| 0 <= k < |d.shares| && d.shares[k] == group[i];
      var l :| 0 <= l < |d.shares| && d.shares[l] == group[j];
      assert Indices(d.shares)[k] == Indices(group)[i] && Indices(d.shares)[l] == Indices(group)[j];
      if Cong(q, Indices(group)[i], Indices(group)[j]) {
        CongSym(q, Indices(group)[i], Indices(group)[j]);
      }
    }
  }

  /** Members numbered below q, as in every practical committee, are all separated. */
  lemma SmallMembersOpen(c: Curve, d: DealtCommitteeKey, group: seq<CommitteeShare>)
    requires Lawful(c) && DealingOk(c, d) && d.size >= d.threshold && Qualifies(d, group)
    requires forall i :: 0 <= i < |d.shares| ==> d.shares[i].index < c.q
    ensures Reconstructs(c, d, group)
  {
    hide Cong, Mul, Lawful, DealingOk, TruncMod, Reconstruct, DistinctMod, Qualifies;
    BaseInSubgroup(c);
    var a := OkGivesPolynomial(c, d);
    OkIndicesDistinct(c, d);
    MembersSeparated(c.q, Indices(d.shares));
    SubsetSeparated(c.q, d, group);
    VerifiedDealingOpens(c, d, group, c.base);
  }

  // ----- where the check falls short, and exactly when it does not

  ghost predicate SamePublicPart(c: Curve, d: DealtCommitteeKey, secret: int)
    requires c.q > 0
  {
    DealingOk(c, d.(secret := secret))
  }

  /** With fewer members than the threshold the check accepts any secret whatever. */
  lemma UnpinnedSecret(c: Curve, d: DealtCommitteeKey, secret: int)
    requires c.q > 0 && DealingOk(c, d) && d.size < d.threshold
    ensures DealingOk(c, d.(secret := secret))
  {
    hide VerifyShare, Reconstruct, TruncMod, InCurve, IsInPrimeSubgroup;
    var e := d.(secret := secret);
    assert !Holds(c, d, ShareCount);
    assert !IndicesUsable(d) && !IndicesUsable(e);
    forall p
      ensures !Holds(c, e, p)
    {
      assert !Holds(c, d, p);
    }
  }

  /** The check ties the secret to the public key if and only if there are enough members. */
  lemma SecretPinnedIff(c: Curve, d: DealtCommitteeKey)
    requires Lawful(c) && DealingOk(c, d)
    ensures (forall s :: SamePublicPart(c, d, s) ==> Cong(c.q, s, d.secret)) <==> d.size >= d.threshold
  {
    hide Cong, Mul, Lawful, DealingOk, TruncMod, IsInPrimeSubgroup;
    BaseInSubgroup(c);
    if d.size >= d.threshold {
      forall s | SamePublicPart(c, d, s)
        ensures Cong(c.q, s, d.secret)
      {
        SecretsAgree(c, d, s);
      }
    } else {
      UnpinnedSecret(c, d, d.secret + 1);
      assert SamePublicPart(c, d, d.secret + 1);
      NotCongruent(c.q, 1, 0);
      if Cong(c.q, d.secret + 1, d.secret) {
        CongRefl(c.q, d.secret);
        CongSub(c.q, d.secret + 1, d.secret, d.secret, d.secret);
      }
    }
  }

  lemma SecretsAgree(c: Curve, d: DealtCommitteeKey, s: int)
    requires Lawful(c) && DealingOk(c, d) && d.size >= d.threshold
    requires DealingOk(c, d.(secret := s))
    ensures Cong(c.q, s, d.secret)
  {
    hide Cong, Mul, Lawful, DealingOk, TruncMod, IsInPrimeSubgroup;
    BaseInSubgroup(c);
    var e := d.(secret := s);
    var a := OkGivesPolynomial(c, d);
    assert CommittedPolynomial(c, e, a);
    OkPinsSecret(c, d, a);
    OkPinsSecret(c, e, a);
    CongTruncMod(c.q, s);
    CongTruncMod(c.q, d.secret);
    CongSym(c.q, TruncMod(s, c.q), s);
    CongTrans(c.q, s, TruncMod(s, c.q), d.secret);
  }

  /** A dealing without members passes, although nobody can open anything. */
  lemma EmptyCommitteePasses(c: Curve, secret: int)
    requires Lawful(c)
    ensures DealingOk(c, DealtCommitteeKey(2, 0, secret, c.base, [c.base, c.base], []))
  {
    hide Mul;
    BaseInSubgroup(c);
    var d := DealtCommitteeKey(2, 0, secret, c.base, [c.base, c.base], []);
    forall p
      ensures !Holds(c, d, p)
    {
    }
  }

  // ----- honest dealings

  lemma DealtIndices(c: Curve, a: Poly, n: nat)
    requires c.q > n && Nonnegative(a)
    ensures Distinct(Indices(DealtShares(c, a, n)))
    ensures DistinctMod(c.q, Indices(DealtShares(c, a, n)))
  {
    MembersSeparated(c.q, Indices(DealtShares(c, a, n)));
  }

  lemma DealtShareVerdict(c: Curve, a: Poly, i: nat, n: nat)
    requires Lawful(c) && Nonnegative(a) && i < n
    ensures VerifyShare(c, DealtShares(c, a, n)[i], Commitments(c, a)).Ok?
    ensures VerifyShare(c, DealtShares(c, a, n)[i], Commitments(c, a)) == Ok(true)
            <==> EvalMod(c.q, a, i + 1) != 0
  {
    hide Mul, Lawful, EvalMod;
    BaseInSubgroup(c);
    EvalModResidue(c.q, a, i + 1);
    VerifyShareExact(c, a, DealtShares(c, a, n)[i]);
  }

  lemma DealtValues(c: Curve, a: Poly, n: nat, s: CommitteeShare)
    requires Lawful(c) && Nonnegative(a) && n < c.q && s in DealtShares(c, a, n)
    ensures 1 <= s.index < c.q && s.share >= 0 && Cong(c.q, s.share, Eval(a, s.index))
  {
    hide Cong, Mul, Lawful, EvalMod;
    BaseInSubgroup(c);
    var i :| 0 <= i < n && DealtShares(c, a, n)[i] == s;
    EvalModResidue(c.q, a, i + 1);
    EvalModIsEval(c.q, a, i + 1);
  }

  /**
    Every honest dealing is opened by every qualifying set, in any order, in the
    clear and in the exponent, even one that verifyDealing refuses.
   */
  lemma DealtOpens(c: Curve, a: Poly, n: nat, group: seq<CommitteeShare>, r: Point)
    requires Lawful(c) && Nonnegative(a) && a != [] && 0 < a[0] < c.q && n < c.q
    requires Qualifies(Dealt(c, n, a), group) && IsInPrimeSubgroup(c, r)
    ensures forall i :: 0 <= i < |group| ==> 0 <= group[i].share
    ensures Reconstruct(c.q, group) == Ok(a[0])
    ensures Combined(c, Indices(group), DecryptionShares(c, group, r)) == Ok(Mul(c, a[0], r))
  {
    hide Cong, Mul, Lawful, Eval, EvalMod, ReconstructUpTo, Combined, IsInPrimeSubgroup;
    LawfulPrime(c);
    forall i | 0 <= i < |group|
      ensures 1 <= group[i].index < c.q && group[i].share >= 0
      ensures Cong(c.q, group[i].share, Eval(a, group[i].index))
    {
      DealtValues(c, a, n, group[i]);
    }
    MembersSeparated(c.q, Indices(group));
    EvalAtZero(a);
    SmallModulus(a[0], c.q);
    RecoversScalar(c.q, a, Indices(group), ShareValues(group));
    RecoversPoint(c, a, Indices(group), ShareValues(group), DecryptionShares(c, group, r), r);
  }

  /** In particular by the first t members, the ones verifyDealing tries. */
  lemma DealtReconstructs(c: Curve, a: Poly, n: nat)
    requires Lawful(c) && Nonnegative(a) && a != [] && 0 < a[0] < c.q && |a| <= n < c.q
    ensures FirstReconstruction(c, Dealt(c, n, a)) == Ok(a[0])
  {
    hide Mul, Lawful, EvalMod, Reconstruct, IsInPrimeSubgroup;
    BaseInSubgroup(c);
    var d := Dealt(c, n, a);
    var first := FirstOf(d.shares, d.threshold);
    assert first == d.shares[..|a|];
    DealtIndices(c, a, n);
    assert Indices(first) == Indices(d.shares)[..|a|];
    DealtOpens(c, a, n, first, c.base);
  }

  ghost predicate NoZeroShare(q: int, a: Poly, n: nat)
    requires q > 0
  {
    forall i :: 1 <= i <= n ==> EvalMod(q, a, i) != 0
  }

  /** An honest dealing passes the check exactly when no member was dealt the value zero. */
  lemma HonestDealingPassesIff(c: Curve, a: Poly, n: nat)
    requires Lawful(c) && Nonnegative(a) && |a| >= 2 && 0 < a[0] < c.q && |a| <= n < c.q
    ensures DealingOk(c, Dealt(c, n, a)) <==> NoZeroShare(c.q, a, n)
  {
    hide Cong, Mul, Lawful, EvalMod, Reconstruct, VerifyShare, TruncMod, IsInPrimeSubgroup, InCurve;
    BaseInSubgroup(c);
    var d := Dealt(c, n, a);
    forall i | 0 <= i < n {
      DealtShareVerdict(c, a, i, n);
    }
    DealtReconstructs(c, a, n);
    DealtIndices(c, a, n);
    SmallTruncMod(a[0], c.q);
    forall j | 0 <= j < |a|
      ensures InCurve(c, d.commitments[j])
    {
      MulInCurve(c, a[j], c.base);
    }
    MulInSubgroup(c, a[0], c.base);
    forall p: Problem | !p.BadShare?
      ensures !Holds(c, d, p)
    {
      assert Indices(d.shares) == Indices(DealtShares(c, a, n));
    }
    if DealingOk(c, d) {
      forall i | 1 <= i <= n
        ensures EvalMod(c.q, a, i) != 0
      {
        OkAcceptsShare(c, d, i - 1);
      }
    }
    if NoZeroShare(c.q, a, n) {
      forall i | 0 <= i < n
        ensures VerifyShare(c, d.shares[i], d.commitments) == Ok(true)
      {
        assert EvalMod(c.q, a, i + 1) != 0;
      }
      forall p
        ensures !Holds(c, d, p)
      {
        if p.BadShare? {
          assert !Holds(c, d, BadShare(p.index));
        }
      }
    }
  }

  lemma SmallTruncMod(a: int, q: int)
    requires 0 <= a < q
    ensures TruncMod(a, q) == a
  {
    SmallModulus(a, q);
    TruncModNonnegative(q, a);
  }

  /** Such dealings exist: dealCommitteeKey deals this one, and verifyDealing refuses it. */
  lemma ZeroShareRefused(c: Curve, n: nat)
    requires Lawful(c) && 2 <= n < c.q
    ensures DealRefusal(c.q, 2, n, 1, [c.q - 1]) == None
    ensures !DealingOk(c, Dealt(c, n, [1, c.q - 1]))
  {
    hide Mul, Lawful, DealingOk;
    BaseInSubgroup(c);
    var a := [1, c.q - 1];
    assert a[1..] == [c.q - 1] && a[1..][1..] == [];
    EvalModResidue(c.q, a, 1);
    assert Eval(a, 1) == 1 + 1 * Eval(a[1..], 1) && Eval(a[1..], 1) == c.q - 1 + 1 * Eval([], 1);
    assert c.q % c.q == 0;
    assert EvalMod(c.q, a, 1) == 0;
    HonestDealingPassesIff(c, a, n);
  }

  // ----- congruent indices

  /** Three members numbered 1, 2 and q + 1, dealt honestly from 1 + z. */
  function CongruentDealing(c: Curve): DealtCommitteeKey
    requires c.q > 0
  {
    Dealt(c, 2, [1, 1]).(size := 3, shares := DealtShares(c, [1, 1], 2) + [DealtShare(c, [1, 1], c.q + 1)])
  }

  lemma LineValue(q: int, z: nat)
    requires q > 0
    ensures EvalMod(q, [1, 1], z) == (1 + z) % q
  {
    hide EvalMod;
    EvalModResidue(q, [1, 1], z);
    assert [1, 1][1..] == [1] && [1][1..] == [];
    assert Eval([1], z) == 1 + z * Eval([], z);
  }

  lemma LineShares(c: Curve, s: CommitteeShare)
    requires Lawful(c) && c.q > 3 && s in CongruentDealing(c).shares
    ensures s.index >= 1 && VerifyShare(c, s, Commitments(c, [1, 1])) == Ok(true)
  {
    hide Mul, Lawful, EvalMod;
    BaseInSubgroup(c);
    LineValue(c.q, 1);
    LineValue(c.q, 2);
    LineValue(c.q, c.q + 1);
    SmallModulus(2, c.q);
    SmallModulus(3, c.q);
    CongIntro(c.q, c.q + 2, 2, 1);
    CongIffResidue(c.q, c.q + 2, 2);
    var d := CongruentDealing(c);
    assert d.shares == [DealtShare(c, [1, 1], 1), DealtShare(c, [1, 1], 2), DealtShare(c, [1, 1], c.q + 1)];
    VerifyShareExact(c, [1, 1], s);
  }

  /** The check lets congruent indices through, and then not every qualifying set opens. */
  lemma CongruentIndicesPass(c: Curve)
    requires Lawful(c) && c.q > 3
    ensures var d := CongruentDealing(c);
            && DealingOk(c, d) && d.size >= d.threshold
            && !DistinctMod(c.q, Indices(d.shares)) && Qualifies(d, d.shares) && Reconstruct(c.q, d.shares).Err?
  {
    hide Lawful, DealingOk, DistinctMod, Qualifies, CongruentDealing, Reconstruct, IsPrime;
    LawfulPrime(c);
    var d := CongruentDealing(c);
    CongruentDealingOk(c);
    CongruentDealingIndices(c);
    FirstAndLast(c.q, Indices(d.shares));
    AllQualify(c, d);
    ReconstructDefinedIff(c.q, d.shares);
  }

  lemma CongruentDealingIndices(c: Curve)
    requires c.q > 0
    ensures var d := CongruentDealing(c);
            d.size == 3 && d.threshold == 2 && |Indices(d.shares)| == 3
            && Cong(c.q, Indices(d.shares)[0], Indices(d.shares)[2])
  {
    hide Cong, EvalMod, Mul;
    CongIntro(c.q, 1, c.q + 1, -1);
  }

  lemma FirstAndLast(q: int, xs: seq<int>)
    requires |xs| == 3 && Cong(q, xs[0], xs[2])
    ensures !DistinctMod(q, xs)
  {
    hide Cong;
  }

  lemma CongruentDealingOk(c: Curve)
    requires Lawful(c) && c.q > 3
    ensures DealingOk(c, CongruentDealing(c))
  {
    hide Cong, Mul, Lawful, EvalMod, Reconstruct, VerifyShare, TruncMod, IsInPrimeSubgroup, InCurve, DealtShares;
    BaseInSubgroup(c);
    var d := CongruentDealing(c);
    forall i | 0 <= i < 3
      ensures VerifyShare(c, d.shares[i], d.commitments) == Ok(true)
    {
      LineShares(c, d.shares[i]);
    }
    DealtReconstructs(c, [1, 1], 2);
    assert FirstOf(d.shares, 2) == FirstOf(Dealt(c, 2, [1, 1]).shares, 2);
    SmallTruncMod(1, c.q);
    MulInCurve(c, 1, c.base);
    MulInSubgroup(c, 1, c.base);
    assert Indices(d.shares) == [1, 2, c.q + 1];
    forall p
      ensures !Holds(c, d, p)
    {
    }
  }
}
