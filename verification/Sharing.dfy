/**
  Feldman secret sharing for the opening committee: packages/crypto/src/vss.ts.
  The loops of the source are methods here, each proved against a function;
  the theorems are about those functions.
 */
module Sharing {
  import opened Prelude
  import opened Modular
  import opened Inverse
  import opened Polynomials
  import opened Interpolation
  import opened CurveGroup

  /** A share as dealt: who holds it, the value, and the value in public. */
  datatype CommitteeShare = CommitteeShare(index: int, share: int, publicShare: Point)

  datatype DealtCommitteeKey = DealtCommitteeKey(
    threshold: int,
    size: int,
    secret: int,
    publicKey: Point,
    commitments: seq<Point>,
    shares: seq<CommitteeShare>)

  // ----- reconstructSecret

  function Indices(shares: seq<CommitteeShare>): (xs: seq<int>)
    ensures |xs| == |shares| && forall i :: 0 <= i < |xs| ==> xs[i] == shares[i].index
  {
    seq(|shares|, i requires 0 <= i < |shares| => shares[i].index)
  }

  function ShareValues(shares: seq<CommitteeShare>): (vs: seq<int>)
    ensures |vs| == |shares| && forall i :: 0 <= i < |vs| ==> vs[i] == shares[i].share
  {
    seq(|shares|, i requires 0 <= i < |shares| => shares[i].share)
  }

  /** The running sum after k shares, or the first coefficient that cannot be formed. */
  ghost function ReconstructUpTo(q: int, xs: seq<int>, vs: seq<int>, k: nat): Result<int>
    requires q > 0 && |xs| == |vs| && k <= |xs|
  {
    if k == 0 then Ok(0)
    else
      var acc :- ReconstructUpTo(q, xs, vs, k - 1);
      var l :- Coefficient(q, xs, xs[k - 1]);
      Ok(TruncMod(acc + vs[k - 1] * l, q))
  }

  ghost function Reconstruct(q: int, shares: seq<CommitteeShare>): Result<int>
    requires q > 0
  {
    ReconstructUpTo(q, Indices(shares), ShareValues(shares), |shares|)
  }

  /** reconstructSecret. */
  method ReconstructSecret(q: int, shares: seq<CommitteeShare>) returns (res: Result<int>)
    requires q >= 2
    ensures res == Reconstruct(q, shares)
  {
    hide Coefficient, TruncMod;
    var indices := Indices(shares);
    var acc := 0;
    ghost var vs := ShareValues(shares);
    for k := 0 to |shares|
      invariant ReconstructUpTo(q, indices, vs, k) == Ok(acc)
    {
      var l := LagrangeCoefficient(q, indices, shares[k].index);
      if l.Err? {
        ReconstructStops(q, indices, vs, k + 1, |shares|);
        return Err(l.error);
      }
      acc := TruncMod(acc + shares[k].share * l.value, q);
    }
    return Ok(acc);
  }

  lemma {:induction false} ReconstructStops(q: int, xs: seq<int>, vs: seq<int>, k: nat, n: nat)
    requires q > 0 && |xs| == |vs| && k <= n <= |xs| && ReconstructUpTo(q, xs, vs, k).Err?
    ensures ReconstructUpTo(q, xs, vs, n) == Err(ReconstructUpTo(q, xs, vs, k).error)
  {
    if k < n {
      ReconstructStops(q, xs, vs, k, n - 1);
    }
  }

  // ----- combineInExponent

  ghost function CombineUpTo(c: Curve, xs: seq<int>, ps: seq<Point>, k: nat): Result<Point>
    requires c.q > 0 && |xs| == |ps| && k <= |xs|
  {
    if k == 0 then Ok(IDENTITY)
    else
      var acc :- CombineUpTo(c, xs, ps, k - 1);
      var l :- Coefficient(c.q, xs, xs[k - 1]);
      var term :- MulPoint(c, ps[k - 1], l);
      Ok(c.add(acc, term))
  }

  ghost function Combined(c: Curve, xs: seq<int>, ps: seq<Point>): Result<Point>
    requires c.q > 0 && |xs| == |ps|
  {
    CombineUpTo(c, xs, ps, |xs|)
  }

  lemma {:induction false} CombineStops(c: Curve, xs: seq<int>, ps: seq<Point>, k: nat, n: nat)
    requires c.q > 0 && |xs| == |ps| && k <= n <= |xs| && CombineUpTo(c, xs, ps, k).Err?
    ensures CombineUpTo(c, xs, ps, n) == Err(CombineUpTo(c, xs, ps, k).error)
  {
    if k < n {
      CombineStops(c, xs, ps, k, n - 1);
    }
  }

  /** combineInExponent over the members' (index, point) pairs. */
  method CombineInExponent(c: Curve, indices: seq<int>, points: seq<Point>) returns (res: Result<Point>)
    requires c.q >= 2 && |indices| == |points|
    ensures res == Combined(c, indices, points)
  {
    hide Coefficient, Mul;
    var acc := IDENTITY;
    for k := 0 to |indices|
      invariant CombineUpTo(c, indices, points, k) == Ok(acc)
    {
      var l := LagrangeCoefficient(c.q, indices, indices[k]);
      if l.Err? {
        CombineStops(c, indices, points, k + 1, |indices|);
        return Err(l.error);
      }
      var term := MulPoint(c, points[k], l.value);
      if term.Err? {
        CombineStops(c, indices, points, k + 1, |indices|);
        return Err(term.error);
      }
      acc := c.add(acc, term.value);
    }
    return Ok(acc);
  }

  // ----- which index sets can be combined at all

  lemma {:induction false} ReconstructUpToDefinedIff(q: int, xs: seq<int>, vs: seq<int>, k: nat)
    requires q > 0 && |xs| == |vs| && k <= |xs|
    ensures ReconstructUpTo(q, xs, vs, k).Ok? <==> forall i :: 0 <= i < k ==> Coefficient(q, xs, xs[i]).Ok?
  {
    hide Coefficient, TruncMod;
    if k > 0 {
      ReconstructUpToDefinedIff(q, xs, vs, k - 1);
    }
  }

  lemma {:induction false} CombineUpToNeeds(c: Curve, xs: seq<int>, ps: seq<Point>, k: nat)
    requires c.q > 0 && |xs| == |ps| && k <= |xs| && CombineUpTo(c, xs, ps, k).Ok?
    ensures forall i :: 0 <= i < k ==> Coefficient(c.q, xs, xs[i]).Ok?
  {
    hide Coefficient, Mul;
    if k > 0 {
      CombineUpToNeeds(c, xs, ps, k - 1);
    }
  }

  /** reconstructSecret returns, rather than throws, exactly when no two indices are congruent. */
  lemma ReconstructDefinedIff(q: int, shares: seq<CommitteeShare>)
    requires IsPrime(q)
    ensures Reconstruct(q, shares).Ok? <==> DistinctMod(q, Indices(shares))
  {
    hide Coefficient, ReconstructUpTo, DistinctMod;
    ReconstructUpToDefinedIff(q, Indices(shares), ShareValues(shares), |shares|);
    AllCoefficientsDefinedIff(q, Indices(shares));
  }

  lemma CombinedNeeds(c: Curve, xs: seq<int>, ps: seq<Point>)
    requires IsPrime(c.q) && |xs| == |ps| && Combined(c, xs, ps).Ok?
    ensures DistinctMod(c.q, xs)
  {
    hide Coefficient, CombineUpTo, DistinctMod;
    CombineUpToNeeds(c, xs, ps, |xs|);
    AllCoefficientsDefinedIff(c.q, xs);
  }

  // ----- recovery from values of one polynomial

  ghost predicate AllNonnegative(xs: seq<int>) {
    forall i :: 0 <= i < |xs| ==> xs[i] >= 0
  }

  lemma {:induction false} NumNonnegative(xs: seq<int>, x: int)
    requires AllNonnegative(xs)
    ensures Num(xs, x) >= 0
  {
    if xs != [] {
      NumNonnegative(xs[..|xs| - 1], x);
    }
  }

  lemma WeightNonnegative(q: int, xs: seq<int>, x: int)
    requires q > 0 && AllNonnegative(xs)
    ensures Weight(q, xs, x) >= 0
  {
    NumNonnegative(xs, x);
    if Coefficient(q, xs, x).Ok? {
      var inv := InverseOf(q, Den(xs, x)).value;
      assert Num(xs, x) * inv >= 0;
    }
  }

  lemma {:induction false} ReconstructIsDot(q: int, xs: seq<int>, vs: seq<int>, k: nat)
    requires IsPrime(q) && |xs| == |vs| && k <= |xs| && DistinctMod(q, xs)
    requires AllNonnegative(xs) && AllNonnegative(vs)
    ensures ReconstructUpTo(q, xs, vs, k) == Ok(Dot(Weights(q, xs), vs, k) % q)
  {
    hide Cong, Coefficient, TruncMod, DistinctMod;
    if k == 0 {
      assert 0 % q == 0;
    } else {
      ReconstructIsDot(q, xs, vs, k - 1);
      AllCoefficientsDefinedIff(q, xs);
      assert Coefficient(q, xs, xs[k - 1]).Ok?;
      var l, d, v := Weight(q, xs, xs[k - 1]), Dot(Weights(q, xs), vs, k - 1), vs[k - 1];
      WeightNonnegative(q, xs, xs[k - 1]);
      SumStep(q, d, v, l);
    }
  }

  lemma SumStep(q: int, d: int, v: int, l: int)
    requires q > 0 && v >= 0 && l >= 0
    ensures TruncMod(d % q + v * l, q) == (d + v * l) % q
  {
    hide Cong;
    assert v * l >= 0;
    CongResidue(q, d);
    CongRefl(q, v * l);
    CongAdd(q, d % q, d, v * l, v * l);
    CongIffResidue(q, d % q + v * l, d + v * l);
  }

  lemma {:induction false} DotCong(q: int, ws: seq<int>, vs: seq<int>, us: seq<int>, k: nat)
    requires k <= |ws| && k <= |vs| && k <= |us|
    requires forall i :: 0 <= i < k ==> Cong(q, vs[i], us[i])
    ensures Cong(q, Dot(ws, vs, k), Dot(ws, us, k))
  {
    if k == 0 {
      CongRefl(q, 0);
    } else {
      DotCong(q, ws, vs, us, k - 1);
      CongRefl(q, ws[k - 1]);
      CongMul(q, vs[k - 1], us[k - 1], ws[k - 1], ws[k - 1]);
      CongAdd(q, Dot(ws, vs, k - 1), Dot(ws, us, k - 1), vs[k - 1] * ws[k - 1], us[k - 1] * ws[k - 1]);
    }
  }

  lemma {:induction false} CombineIsDot(c: Curve, xs: seq<int>, vs: seq<int>, ps: seq<Point>, r: Point, k: nat)
    requires Lawful(c) && IsInPrimeSubgroup(c, r) && DistinctMod(c.q, xs)
    requires |xs| == |vs| == |ps| && k <= |xs| && AllNonnegative(xs) && AllNonnegative(vs)
    requires forall i :: 0 <= i < |ps| ==> vs[i] >= 0 && ps[i] == Mul(c, vs[i], r)
    ensures Dot(Weights(c.q, xs), vs, k) >= 0
    ensures CombineUpTo(c, xs, ps, k) == Ok(Mul(c, Dot(Weights(c.q, xs), vs, k), r))
  {
    hide Cong, Coefficient, TruncMod, DistinctMod, Lawful, IsInPrimeSubgroup;
    if k > 0 {
      CombineIsDot(c, xs, vs, ps, r, k - 1);
      LawfulPrime(c);
      AllCoefficientsDefinedIff(c.q, xs);
      assert Coefficient(c.q, xs, xs[k - 1]).Ok?;
      var l, d, v := Weight(c.q, xs, xs[k - 1]), Dot(Weights(c.q, xs), vs, k - 1), vs[k - 1];
      WeightNonnegative(c.q, xs, xs[k - 1]);
      SubgroupOnCurve(c, r);
      MulMul(c, l, v, r);
      assert l * v == v * l;
      MulAdd(c, d, v * l, r);
    }
  }

  /** vs are values of f at xs, as far as the scalar field can tell. */
  ghost predicate ValuesOf(q: int, f: Poly, xs: seq<int>, vs: seq<int>) {
    |xs| == |vs| && forall i :: 0 <= i < |xs| ==> Cong(q, vs[i], Eval(f, xs[i]))
  }

  lemma DotRecovers(q: int, f: Poly, xs: seq<int>, vs: seq<int>)
    requires IsPrime(q) && DistinctMod(q, xs) && |f| <= |xs| && ValuesOf(q, f, xs, vs)
    ensures Cong(q, Dot(Weights(q, xs), vs, |xs|), Eval(f, 0))
  {
    hide Cong, Weight, Dot;
    DotCong(q, Weights(q, xs), vs, Values(f, xs), |xs|);
    InterpolatesAtZero(q, f, xs);
    CongTrans(q, Dot(Weights(q, xs), vs, |xs|), Dot(Weights(q, xs), Values(f, xs), |xs|), Eval(f, 0));
  }

  /** Any |f| or more values of f at separated indices, in any order, give f(0) back. */
  lemma RecoversScalar(q: int, f: Poly, xs: seq<int>, vs: seq<int>)
    requires IsPrime(q) && DistinctMod(q, xs) && |f| <= |xs| && ValuesOf(q, f, xs, vs)
    requires AllNonnegative(xs) && AllNonnegative(vs)
    ensures ReconstructUpTo(q, xs, vs, |xs|) == Ok(Eval(f, 0) % q)
  {
    DotRecovers(q, f, xs, vs);
    ReconstructIsDot(q, xs, vs, |xs|);
    CongIffResidue(q, Dot(Weights(q, xs), vs, |xs|), Eval(f, 0));
  }

  /** The same in the exponent: the points v_i * r combine to f(0) * r. */
  lemma RecoversPoint(c: Curve, f: Poly, xs: seq<int>, vs: seq<int>, ps: seq<Point>, r: Point)
    requires Lawful(c) && IsInPrimeSubgroup(c, r)
    requires DistinctMod(c.q, xs) && |f| <= |xs| && ValuesOf(c.q, f, xs, vs)
    requires AllNonnegative(xs) && AllNonnegative(vs) && |ps| == |vs|
    requires forall i :: 0 <= i < |ps| ==> vs[i] >= 0 && ps[i] == Mul(c, vs[i], r)
    ensures Combined(c, xs, ps) == Ok(Mul(c, Eval(f, 0) % c.q, r))
  {
    hide Cong, Weight, Dot, Mul, IsInPrimeSubgroup;
    DotRecovers(c.q, f, xs, vs);
    CombineIsDot(c, xs, vs, ps, r, |xs|);
    var d := Dot(Weights(c.q, xs), vs, |xs|);
    CongResidue(c.q, Eval(f, 0));
    CongTrans(c.q, d, Eval(f, 0), Eval(f, 0) % c.q);
    MulCong(c, d, Eval(f, 0) % c.q, r);
  }

  // ----- expectedPublicShare

  /** The first k terms of the sum of i^j * C_j, powers reduced modulo q. */
  function CommitmentSum(c: Curve, index: int, commitments: seq<Point>, k: nat): Point
    requires c.q > 0 && k <= |commitments|
  {
    if k == 0 then IDENTITY
    else c.add(CommitmentSum(c, index, commitments, k - 1), Mul(c, Pow(index, k - 1) % c.q, commitments[k - 1]))
  }

  function ExpectedShare(c: Curve, index: int, commitments: seq<Point>): Result<Point>
    requires c.q > 0
  {
    if index < 1 then Err(BadMemberIndex) else Ok(CommitmentSum(c, index, commitments, |commitments|))
  }

  /** expectedPublicShare. */
  method ExpectedPublicShare(c: Curve, index: int, commitments: seq<Point>) returns (res: Result<Point>)
    requires c.q >= 2
    ensures res == ExpectedShare(c, index, commitments)
  {
    hide Mul, TruncMod;
    if index < 1 {
      return Err(BadMemberIndex);
    }
    var acc, power := IDENTITY, 1;
    PowerStart(c.q, index);
    for k := 0 to |commitments|
      invariant acc == CommitmentSum(c, index, commitments, k)
      invariant power == Pow(index, k) % c.q
    {
      acc := c.add(acc, Mul(c, power, commitments[k]));
      PowerStep(c.q, index, k);
      power := TruncMod(power * index, c.q);
    }
    return Ok(acc);
  }

  lemma PowerStart(q: int, z: int)
    requires q >= 2
    ensures Pow(z, 0) % q == 1
  {}

  lemma PowerStep(q: int, z: int, k: nat)
    requires q >= 2 && z >= 1
    ensures TruncMod(Pow(z, k) % q * z, q) == Pow(z, k + 1) % q
  {
    hide Cong, TruncMod;
    var p := Pow(z, k);
    CongResidue(q, p);
    CongScale(q, z, p % q, p);
    assert z * (p % q) == p % q * z >= 0;
    CongIffResidue(q, p % q * z, z * p);
    TruncModNonnegative(q, p % q * z);
  }

  lemma TruncModNonnegative(q: int, a: int)
    requires q > 0 && a >= 0
    ensures TruncMod(a, q) == a % q
  {}

  /** The commitments a dealer publishes: every coefficient times the generator. */
  function Commitments(c: Curve, coefficients: Poly): (cs: seq<Point>)
    requires forall i :: 0 <= i < |coefficients| ==> coefficients[i] >= 0
    ensures |cs| == |coefficients|
    ensures forall i :: 0 <= i < |cs| ==> cs[i] == Mul(c, coefficients[i], c.base)
  {
    seq(|coefficients|, i requires 0 <= i < |coefficients| => Mul(c, coefficients[i], c.base))
  }

  lemma {:induction false} CommitmentSumIsValue(c: Curve, a: Poly, index: int, k: nat)
    requires Lawful(c) && Nonnegative(a) && index >= 1 && k <= |a|
    ensures CommitmentSum(c, index, Commitments(c, a), k) == Mul(c, Eval(a[..k], index) % c.q, c.base)
  {
    hide Cong, Lawful, IsInPrimeSubgroup, Mul;
    BaseInSubgroup(c);
    var q, g := c.q, c.base;
    if k == 0 {
      assert a[..0] == [] && 0 % q == 0;
      MulZero(c, g);
    } else {
      CommitmentSumIsValue(c, a, index, k - 1);
      assert a[..k] == a[..k - 1] + [a[k - 1]];
      EvalSnoc(a[..k - 1], a[k - 1], index);
      var e, p := Eval(a[..k - 1], index), Pow(index, k - 1);
      MulMul(c, p % q, a[k - 1], g);
      MulAdd(c, e % q, p % q * a[k - 1], g);
      CommitmentTerm(q, e, p, a[k - 1]);
      MulCong(c, e % q + p % q * a[k - 1], (e + p * a[k - 1]) % q, g);
    }
  }

  lemma CommitmentTerm(q: int, e: int, p: int, a: int)
    requires q > 0
    ensures Cong(q, e % q + p % q * a, (e + p * a) % q)
  {
    hide Cong;
    CongResidue(q, e);
    CongResidue(q, p);
    CongRefl(q, a);
    CongMul(q, p % q, p, a, a);
    CongAdd(q, e % q, e, p % q * a, p * a);
    CongResidue(q, e + p * a);
    CongTrans(q, e % q + p % q * a, e + p * a, (e + p * a) % q);
  }

  /** Feldman's check computes in public exactly what the dealer evaluated in secret. */
  lemma ExpectedShareIsValue(c: Curve, a: Poly, index: int)
    requires Lawful(c) && Nonnegative(a) && index >= 1
    ensures 0 <= EvalMod(c.q, a, index) < c.q
    ensures ExpectedShare(c, index, Commitments(c, a)) == Ok(Mul(c, EvalMod(c.q, a, index), c.base))
  {
    assert a[..|a|] == a;
    CommitmentSumIsValue(c, a, index, |a|);
    EvalModResidue(c.q, a, index);
  }

  // ----- verifyShare

  function VerifyShare(c: Curve, s: CommitteeShare, commitments: seq<Point>): Result<bool>
    requires c.q > 0
  {
    if s.share <= 0 || s.share >= c.q then Ok(false)
    else if Mul(c, s.share, c.base) != s.publicShare then Ok(false)
    else
      var expected :- ExpectedShare(c, s.index, commitments);
      Ok(s.publicShare == expected)
  }

  /**
    Every outcome: a value out of range or a wrong public share is false before
    the index is looked at, and an index below 1 throws after.
   */
  lemma VerifyShareOutcomes(c: Curve, s: CommitteeShare, cs: seq<Point>)
    requires c.q > 0
    ensures var consistent := 0 < s.share < c.q && s.publicShare == Mul(c, s.share, c.base);
            && (VerifyShare(c, s, cs) == Err(BadMemberIndex) <==> consistent && s.index <= 0)
            && (VerifyShare(c, s, cs).Err? ==> VerifyShare(c, s, cs) == Err(BadMemberIndex))
            && (VerifyShare(c, s, cs) == Ok(true) <==>
                  consistent && s.index >= 1 && s.publicShare == CommitmentSum(c, s.index, cs, |cs|))
  {
    hide Mul;
  }

  /** Against honest commitments exactly one share passes per index, and a value of 0 never does. */
  lemma VerifyShareExact(c: Curve, a: Poly, s: CommitteeShare)
    requires Lawful(c) && Nonnegative(a) && s.index >= 1
    ensures VerifyShare(c, s, Commitments(c, a)) == Ok(true)
            <==> s.share == EvalMod(c.q, a, s.index) && s.share > 0 && s.publicShare == Mul(c, s.share, c.base)
  {
    hide Cong, Lawful, Mul;
    BaseInSubgroup(c);
    ExpectedShareIsValue(c, a, s.index);
    var v := EvalMod(c.q, a, s.index);
    if 0 < s.share < c.q {
      BaseOrder(c, s.share, v);
      if Cong(c.q, s.share, v) {
        CongUnique(c.q, s.share, v);
      }
    }
  }

  /** Whatever the commitments, no index accepts two different scalars. */
  lemma VerifyShareBinding(c: Curve, cs: seq<Point>, s: CommitteeShare, t: CommitteeShare)
    requires Lawful(c) && s.index == t.index
    requires VerifyShare(c, s, cs) == Ok(true) && VerifyShare(c, t, cs) == Ok(true)
    ensures s == t
  {
    hide Cong, Lawful, Mul;
    BaseInSubgroup(c);
    BaseOrder(c, s.share, t.share);
    CongUnique(c.q, s.share, t.share);
  }
}
