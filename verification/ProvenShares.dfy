/**
  What a checked decryption share is worth: verifyDleq asks only that it lie on
  the curve (packages/crypto/src/dleq.ts:120-150), so a proof settles it up to
  the cofactor, and combineInExponent (packages/crypto/src/vss.ts:282-291) is
  settled up to the cofactor too.
 */
module ProvenShares {
  import opened Prelude
  import opened Modular
  import opened Hashing
  import opened Polynomials
  import opened Interpolation
  import opened CurveGroup
  import opened Sharing
  import opened Dealing
  import opened Opening
  import opened Dleq

  // ----- which shares an honest prover's response verifies for

  /** The response to challenge e, as proveDleq computes it. */
  function Response(q: int, secret: nat, nonce: nat, e: nat): int
    requires q > 0
  {
    TruncMod(nonce + TruncMod(e * secret, q), q)
  }

  function ShiftedStatement(c: Curve, secret: nat, r: Point, nonce: nat, shift: Point): Statement {
    Statement(Mul(c, secret, c.base), r, c.add(Mul(c, secret, r), shift), Mul(c, nonce, c.base), Mul(c, nonce, r))
  }

  /**
    A share that is off by a curve point is accepted with the honest response
    exactly when the challenge kills that point and the response is not 0.
   */
  lemma ShiftedShareAcceptedIff(h: Hashes, c: Curve, secret: int, r: Point, nonce: int, shift: Point)
    requires Lawful(c) && IsInPrimeSubgroup(c, r) && InCurve(c, shift)
    requires 0 < secret < c.q && 0 < nonce < c.q
    ensures var s := ShiftedStatement(c, secret, r, nonce, shift);
            && (s.decryptionShare == Mul(c, secret, r) <==> shift == IDENTITY)
            && Challenge(h, c, s).Ok?
            && var e := Challenge(h, c, s).value;
            && var z := Response(c.q, secret, nonce, e);
            && VerifyDleq(h, c, s.publicShare, r, s.decryptionShare, DleqProof(s.commitmentA, s.commitmentB, z))
               == Ok(z != 0 && Mul(c, e, shift) == IDENTITY)
  {
    hide Cong, Mul, Lawful, Challenge, TruncMod, IsInPrimeSubgroup, InCurve;
    var s := ShiftedStatement(c, secret, r, nonce, shift);
    var honest := Mul(c, secret, r);
    BaseInSubgroup(c);
    SubgroupOnCurve(c, r);
    MulInCurve(c, secret, c.base);
    MulInCurve(c, nonce, c.base);
    MulInCurve(c, secret, r);
    MulInCurve(c, nonce, r);
    AddLaws(c, honest, shift, shift);
    AddCancels(c, honest, shift);
    ChallengeDefined(h, c, s);
    var e := Challenge(h, c, s).value;
    ResponseCong(c.q, nonce, e, secret);
    var z := Response(c.q, secret, nonce, e);
    EquationHolds(c, c.base, nonce, e, secret, z);
    ShiftedEquationIff(c, r, nonce, e, secret, z, shift);
  }

  lemma ShiftedEquationIff(c: Curve, r: Point, nonce: nat, e: nat, secret: nat, z: nat, shift: Point)
    requires Lawful(c) && IsInPrimeSubgroup(c, r) && InCurve(c, shift) && Cong(c.q, z, nonce + secret * e)
    ensures Mul(c, z, r) == c.add(Mul(c, nonce, r), Mul(c, e, c.add(Mul(c, secret, r), shift)))
            <==> Mul(c, e, shift) == IDENTITY
  {
    hide Cong, Mul, Lawful, IsInPrimeSubgroup, InCurve;
    BaseInSubgroup(c);
    SubgroupOnCurve(c, r);
    var honest := Mul(c, secret, r);
    EquationHolds(c, r, nonce, e, secret, z);
    MulInCurve(c, secret, r);
    MulInCurve(c, nonce, r);
    MulInCurve(c, z, r);
    MulInCurve(c, e, honest);
    MulInCurve(c, e, shift);
    MulDistributes(c, e, honest, shift);
    AddLaws(c, Mul(c, nonce, r), Mul(c, e, honest), Mul(c, e, shift));
    AddCancels(c, Mul(c, z, r), Mul(c, e, shift));
  }

  /** A point of order two on the curve of residues: half of 8q. */
  lemma HalfTurn(q: int)
    requires IsPrime(q) && q > 2 && 4 * q <= CURVE_PRIME
    ensures var c, t := ResidueCurve(q), PointOf(4 * q);
            InCurve(c, t) && t != IDENTITY && Mul(c, 2, t) == IDENTITY
  {
    hide Mul, ScaleMod, PointOf, NumberOf, InCurve;
    NumberOfPoint(4 * q);
    NumberOfPoint(0);
    PointOfZero();
    ResiduesInCurve(q, PointOf(4 * q));
    ResiduesMul(q, 2, PointOf(4 * q));
    TwiceHalf(q);
  }

  lemma TwiceHalf(q: int)
    requires q > 0
    ensures ScaleMod(8 * q, 2, 4 * q) == 0
  {
    assert 2 * (4 * q) == 8 * q;
    assert 8 * q % (8 * q) == 0;
  }

  /** An instance: on a curve with a point of order two, under an even challenge, a wrong share passes. */
  lemma ShiftedShareCanPass(q: int, permutation: seq<element> -> element)
    requires IsPrime(q) && q > 3 && 4 * q <= CURVE_PRIME
    ensures var c, h := ResidueCurve(q), Hashes(_ => 2, permutation);
            var s := ShiftedStatement(c, 1, c.base, 1, PointOf(4 * q));
            && s.decryptionShare != Mul(c, 1, c.base)
            && VerifyDleq(h, c, s.publicShare, c.base, s.decryptionShare, DleqProof(s.commitmentA, s.commitmentB, 3))
               == Ok(true)
  {
    hide Mul, Lawful, VerifyDleq, InCurve, IsInPrimeSubgroup, PointOf, Preimage, IsPrime, ShiftedStatement, ResidueCurve;
    var c, h, t := ResidueCurve(q), Hashes(_ => 2, permutation), PointOf(4 * q);
    LawsSatisfiable(q);
    ResidueOrder(q);
    BaseInSubgroup(c);
    HalfTurn(q);
    ShiftedShareAcceptedIff(h, c, 1, c.base, 1, t);
    SmallModulus(2, q);
    SmallModulus(3, q);
  }

  lemma ResidueOrder(q: int)
    requires q > 0
    ensures ResidueCurve(q).q == q
  {}

  // ----- what two transcripts prove about a dealt member

  /** The point is the member's decryption share for r, once the cofactor is cleared. */
  ghost predicate ProvenUpToCofactor(c: Curve, share: nat, r: Point, p: Point) {
    InCurve(c, p) && Mul(c, c.cofactor, p) == Mul(c, c.cofactor, Mul(c, share, r))
  }

  lemma TranscriptsProveShare(c: Curve, share: nat, s: Statement, z: nat, e: nat, z': nat, e': nat)
    requires Lawful(c) && AllInCurve(c, s) && e < c.q && e' < c.q && e != e'
    requires Equations(c, s, z, e) && Equations(c, s, z', e')
    requires share < c.q && s.publicShare == Mul(c, share, c.base)
    ensures ProvenUpToCofactor(c, share, s.ephemeral, s.decryptionShare)
  {
    hide Mul, Lawful, InCurve, IsInPrimeSubgroup, Equations;
    var x := SpecialSoundness(c, s, z, e, z', e');
  }

  /** In the subgroup nothing is lost with the cofactor. */
  lemma ProvenInSubgroup(c: Curve, share: nat, r: Point, p: Point)
    requires Lawful(c) && IsInPrimeSubgroup(c, r) && ProvenUpToCofactor(c, share, r, p)
    ensures p == Mul(c, share, r) <==> IsInPrimeSubgroup(c, p)
  {
    hide Mul, Lawful, InCurve, IsInPrimeSubgroup, Cong;
    BaseInSubgroup(c);
    MulInSubgroup(c, share, r);
    if IsInPrimeSubgroup(c, p) {
      SameInSubgroup(c, p, Mul(c, share, r));
    }
  }

  lemma SameInSubgroup(c: Curve, p: Point, t: Point)
    requires Lawful(c) && IsInPrimeSubgroup(c, p) && IsInPrimeSubgroup(c, t)
    requires Mul(c, c.cofactor, p) == Mul(c, c.cofactor, t)
    ensures p == t
  {
    hide Mul, Lawful, InCurve, IsInPrimeSubgroup, Cong;
    var k := DiscreteLog(c, p);
    var l := DiscreteLog(c, t);
    CofactorCancels(c, k, l);
    BaseOrder(c, k, l);
  }

  // ----- combining them

  lemma {:induction false} CombineUpToCofactor(c: Curve, xs: seq<int>, ps: seq<Point>, ts: seq<Point>, k: nat)
    requires Lawful(c) && |xs| == |ps| == |ts| && k <= |xs|
    requires forall i :: 0 <= i < |ps| ==> InCurve(c, ps[i]) && InCurve(c, ts[i])
    requires forall i :: 0 <= i < |ps| ==> Mul(c, c.cofactor, ps[i]) == Mul(c, c.cofactor, ts[i])
    ensures CombineUpTo(c, xs, ps, k).Ok? <==> CombineUpTo(c, xs, ts, k).Ok?
    ensures CombineUpTo(c, xs, ps, k).Ok? ==>
              var p, t := CombineUpTo(c, xs, ps, k).value, CombineUpTo(c, xs, ts, k).value;
              InCurve(c, p) && InCurve(c, t) && Mul(c, c.cofactor, p) == Mul(c, c.cofactor, t)
  {
    hide Mul, InCurve, Coefficient, Cong, Lawful;
    BaseInSubgroup(c);
    if k == 0 {
      IdentityOnCurve(c);
    } else {
      CombineUpToCofactor(c, xs, ps, ts, k - 1);
      var p, t := CombineUpTo(c, xs, ps, k - 1), CombineUpTo(c, xs, ts, k - 1);
      var l := Coefficient(c.q, xs, xs[k - 1]);
      if p.Ok? && l.Ok? && l.value >= 0 {
        TermOnCurve(c, p.value, l.value, ps[k - 1]);
        TermOnCurve(c, t.value, l.value, ts[k - 1]);
        TermUpToCofactor(c, p.value, l.value, ps[k - 1]);
        TermUpToCofactor(c, t.value, l.value, ts[k - 1]);
      }
    }
  }

  lemma IdentityOnCurve(c: Curve)
    requires Lawful(c)
    ensures InCurve(c, IDENTITY)
  {}

  lemma TermOnCurve(c: Curve, s: Point, e: nat, p: Point)
    requires Lawful(c) && InCurve(c, s) && InCurve(c, p)
    ensures InCurve(c, c.add(s, Mul(c, e, p)))
  {
    hide Mul, InCurve;
    MulInCurve(c, e, p);
    AddLaws(c, s, Mul(c, e, p), s);
  }

  /** One proven point for every member of a group. */
  ghost predicate AllProven(c: Curve, group: seq<CommitteeShare>, r: Point, points: seq<Point>) {
    |points| == |group|
    && forall i :: 0 <= i < |group| ==>
         group[i].share >= 0 && ProvenUpToCofactor(c, group[i].share, r, points[i])
  }

  /**
    Proven shares of a qualifying set combine to the shared point up to the
    cofactor, and to the point itself when each of them lies in the subgroup.
   */
  lemma ProvenSharesCombine(c: Curve, d: DealtCommitteeKey, group: seq<CommitteeShare>, r: Point, points: seq<Point>)
    requires Lawful(c) && DealingOk(c, d) && d.size >= d.threshold
    requires Qualifies(d, group) && DistinctMod(c.q, Indices(group)) && IsInPrimeSubgroup(c, r)
    requires AllProven(c, group, r, points)
    ensures var secret := TruncMod(d.secret, c.q);
            && secret >= 0 && Combined(c, Indices(group), points).Ok?
            && ProvenUpToCofactor(c, secret, r, Combined(c, Indices(group), points).value)
            && ((forall i :: 0 <= i < |points| ==> IsInPrimeSubgroup(c, points[i])) ==>
                  Combined(c, Indices(group), points) == Ok(Mul(c, secret, r)))
  {
    hide Mul, Lawful, InCurve, IsInPrimeSubgroup, Cong, DealingOk, Qualifies, DistinctMod, CombineUpTo, TruncMod, Reconstruct;
    BaseInSubgroup(c);
    VerifiedDealingOpens(c, d, group, r);
    var honest := DecryptionShares(c, group, r);
    SubgroupOnCurve(c, r);
    forall i | 0 <= i < |group|
      ensures InCurve(c, points[i]) && InCurve(c, honest[i])
      ensures Mul(c, c.cofactor, points[i]) == Mul(c, c.cofactor, honest[i])
      ensures IsInPrimeSubgroup(c, points[i]) ==> points[i] == honest[i]
    {
      MulInCurve(c, group[i].share, r);
      ProvenInSubgroup(c, group[i].share, r, points[i]);
    }
    CombineUpToCofactor(c, Indices(group), points, honest, |group|);
    if forall i :: 0 <= i < |points| ==> IsInPrimeSubgroup(c, points[i]) {
      assert points == honest;
    }
  }
}
