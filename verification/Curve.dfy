/**
  The group interface of packages/crypto/src/babyjub.ts over an abstract curve:
  the addition and the curve equation are foreign code there, so they are
  parameters here, and the laws they obey are hypotheses.
 */
module CurveGroup {
  import opened Prelude
  import opened Modular

  datatype Point = Point(x: nat, y: nat)

  const IDENTITY := Point(0, 1)

  const CURVE_PRIME: nat := 21888242871839275222246405745257275088548364400416034343698204186575808495617

  /**
    The curve group has order cofactor * q (8 * SUB_ORDER for BabyJubjub) and
    the generator has order q.
   */
  datatype Curve = Curve(
    q: int,
    cofactor: nat,
    base: Point,
    add: (Point, Point) -> Point,
    satisfiesEquation: Point -> bool)

  /** inCurve: both coordinates reduced, and the curve equation holds. */
  predicate InCurve(c: Curve, p: Point) {
    p.x < CURVE_PRIME && p.y < CURVE_PRIME && c.satisfiesEquation(p)
  }

  /** Scalar multiplication, as iterated addition; the scalar is never reduced. */
  function Mul(c: Curve, e: nat, p: Point): Point {
    if e == 0 then IDENTITY else c.add(Mul(c, e - 1, p), p)
  }

  /** mulPoint refuses negative scalars. */
  function MulPoint(c: Curve, p: Point, e: int): Result<Point> {
    if e < 0 then Err(NegativeScalar) else Ok(Mul(c, e, p))
  }

  predicate IsInPrimeSubgroup(c: Curve, p: Point)
    requires c.q > 0
  {
    InCurve(c, p) && Mul(c, c.q, p) == IDENTITY
  }

  lemma SubgroupOnCurve(c: Curve, r: Point)
    requires c.q > 0 && IsInPrimeSubgroup(c, r)
    ensures InCurve(c, r)
  {}

  /** Coordinates must be reduced modulo the field prime, whatever the equation says. */
  lemma UnreducedOffCurve(c: Curve, p: Point)
    ensures InCurve(c, p) <==>
              && c.satisfiesEquation(p)
              && p.x < 21888242871839275222246405745257275088548364400416034343698204186575808495617
              && p.y < 21888242871839275222246405745257275088548364400416034343698204186575808495617
  {}

  // ----- the laws, one named instance each

  ghost predicate Closed(c: Curve, a: Point, b: Point) {
    InCurve(c, a) && InCurve(c, b) ==> InCurve(c, c.add(a, b))
  }

  ghost predicate Commutes(c: Curve, a: Point, b: Point) {
    InCurve(c, a) && InCurve(c, b) ==> c.add(a, b) == c.add(b, a)
  }

  ghost predicate Associates(c: Curve, a: Point, b: Point, d: Point) {
    InCurve(c, a) && InCurve(c, b) && InCurve(c, d) ==>
      c.add(c.add(a, b), d) == c.add(a, c.add(b, d))
  }

  ghost predicate KeepsIdentity(c: Curve, a: Point) {
    InCurve(c, a) ==> c.add(a, IDENTITY) == a
  }

  /** Every curve point is killed by the order of the whole group. */
  ghost predicate HasGroupOrder(c: Curve, a: Point)
    requires c.q > 0
  {
    InCurve(c, a) ==> Mul(c, c.cofactor * c.q, a) == IDENTITY
  }

  /** The generator generates everything that q kills. */
  ghost predicate Generated(c: Curve, a: Point)
    requires c.q > 0
  {
    IsInPrimeSubgroup(c, a) ==> exists k: nat :: a == Mul(c, k, c.base)
  }

  ghost predicate Lawful(c: Curve) {
    && IsPrime(c.q) && !Cong(c.q, c.cofactor, 0)
    && InCurve(c, IDENTITY) && InCurve(c, c.base) && c.base != IDENTITY
    && Mul(c, c.q, c.base) == IDENTITY
    && (forall a, b :: Closed(c, a, b))
    && (forall a, b :: Commutes(c, a, b))
    && (forall a, b, d :: Associates(c, a, b, d))
    && (forall a :: KeepsIdentity(c, a))
    && (forall a :: HasGroupOrder(c, a))
    && (forall a :: Generated(c, a))
  }

  // ----- consequences

  lemma LawfulPrime(c: Curve)
    requires Lawful(c)
    ensures IsPrime(c.q) && c.q >= 2
  {}

  lemma AddLaws(c: Curve, a: Point, b: Point, d: Point)
    requires Lawful(c) && InCurve(c, a) && InCurve(c, b) && InCurve(c, d)
    ensures InCurve(c, c.add(a, b)) && InCurve(c, c.add(b, d))
    ensures c.add(a, b) == c.add(b, a)
    ensures c.add(c.add(a, b), d) == c.add(a, c.add(b, d))
    ensures c.add(a, IDENTITY) == a && c.add(IDENTITY, a) == a
  {
    assert Closed(c, a, b) && Closed(c, b, d) && Commutes(c, a, b) && Associates(c, a, b, d);
    assert KeepsIdentity(c, a) && Commutes(c, a, IDENTITY);
  }

  /** (a + b) + (d + e) == (a + d) + (b + e). */
  lemma Exchange(c: Curve, a: Point, b: Point, d: Point, e: Point)
    requires Lawful(c) && InCurve(c, a) && InCurve(c, b) && InCurve(c, d) && InCurve(c, e)
    ensures c.add(c.add(a, b), c.add(d, e)) == c.add(c.add(a, d), c.add(b, e))
  {
    AddLaws(c, d, e, b);
    AddLaws(c, a, b, c.add(d, e));
    AddLaws(c, b, d, e);
    AddLaws(c, d, b, e);
    AddLaws(c, b, e, e);
    AddLaws(c, a, d, c.add(b, e));
  }

  lemma {:induction false} MulInCurve(c: Curve, e: nat, p: Point)
    requires Lawful(c) && InCurve(c, p)
    ensures InCurve(c, Mul(c, e, p))
  {
    if e > 0 {
      MulInCurve(c, e - 1, p);
      AddLaws(c, Mul(c, e - 1, p), p, p);
    }
  }

  /** Every point has an inverse, so adding b changes a unless b is the identity. */
  lemma AddCancels(c: Curve, a: Point, b: Point)
    requires Lawful(c) && InCurve(c, a) && InCurve(c, b)
    ensures c.add(a, b) == a <==> b == IDENTITY
  {
    hide Cong, InCurve;
    var n := c.cofactor * c.q;
    OrderPositive(c);
    assert HasGroupOrder(c, a);
    var inverse := Mul(c, n - 1, a);
    MulInCurve(c, n - 1, a);
    assert c.add(inverse, a) == IDENTITY;
    AddLaws(c, inverse, a, b);
    AddLaws(c, b, a, a);
    AddLaws(c, a, b, a);
  }

  lemma AddLeftCancels(c: Curve, a: Point, b: Point, d: Point)
    requires Lawful(c) && InCurve(c, a) && InCurve(c, b) && InCurve(c, d)
    ensures c.add(a, b) == c.add(a, d) <==> b == d
  {
    hide Cong, InCurve;
    var n := c.cofactor * c.q;
    OrderPositive(c);
    assert HasGroupOrder(c, a);
    var inverse := Mul(c, n - 1, a);
    MulInCurve(c, n - 1, a);
    assert c.add(inverse, a) == IDENTITY;
    AddLaws(c, inverse, a, b);
    AddLaws(c, inverse, a, d);
    AddLaws(c, b, a, a);
    AddLaws(c, d, a, a);
  }

  lemma OrderPositive(c: Curve)
    requires Lawful(c)
    ensures c.cofactor * c.q > 0
  {
    if c.cofactor == 0 {
      CongRefl(c.q, 0);
    }
    assert c.cofactor >= 1 && c.q >= 2;
  }

  lemma {:induction false} MulAdd(c: Curve, a: nat, b: nat, p: Point)
    requires Lawful(c) && InCurve(c, p)
    ensures Mul(c, a + b, p) == c.add(Mul(c, a, p), Mul(c, b, p))
  {
    MulInCurve(c, a, p);
    if b == 0 {
      AddLaws(c, Mul(c, a, p), p, p);
    } else {
      MulAdd(c, a, b - 1, p);
      MulInCurve(c, b - 1, p);
      AddLaws(c, Mul(c, a, p), Mul(c, b - 1, p), p);
    }
  }

  lemma {:induction false} MulIdentity(c: Curve, e: nat)
    requires Lawful(c)
    ensures Mul(c, e, IDENTITY) == IDENTITY
  {
    if e > 0 {
      MulIdentity(c, e - 1);
      AddLaws(c, IDENTITY, IDENTITY, IDENTITY);
    }
  }

  lemma {:induction false} MulMul(c: Curve, a: nat, b: nat, p: Point)
    requires Lawful(c) && InCurve(c, p)
    ensures a * b >= 0
    ensures Mul(c, a, Mul(c, b, p)) == Mul(c, a * b, p)
  {
    if a > 0 {
      MulMul(c, a - 1, b, p);
      assert (a - 1) * b + b == a * b;
      MulAdd(c, (a - 1) * b, b, p);
    }
  }

  lemma {:induction false} MulDistributes(c: Curve, e: nat, p: Point, r: Point)
    requires Lawful(c) && InCurve(c, p) && InCurve(c, r)
    ensures Mul(c, e, c.add(p, r)) == c.add(Mul(c, e, p), Mul(c, e, r))
  {
    if e == 0 {
      AddLaws(c, IDENTITY, IDENTITY, IDENTITY);
    } else {
      MulDistributes(c, e - 1, p, r);
      MulInCurve(c, e - 1, p);
      MulInCurve(c, e - 1, r);
      Exchange(c, Mul(c, e - 1, p), Mul(c, e - 1, r), p, r);
    }
  }

  lemma MulZero(c: Curve, p: Point)
    ensures Mul(c, 0, p) == IDENTITY
  {}

  lemma MulOne(c: Curve, p: Point)
    requires Lawful(c) && InCurve(c, p)
    ensures Mul(c, 1, p) == p
  {
    AddLaws(c, p, p, p);
    assert Mul(c, 1, p) == c.add(Mul(c, 0, p), p);
  }

  lemma DivisionParts(e: nat, q: int)
    requires q > 0
    ensures e / q >= 0 && e / q * q >= 0 && e == e / q * q + e % q && 0 <= e % q
  {}

  /** On a point that q kills, only the scalar's residue matters. */
  lemma MulResidue(c: Curve, e: nat, p: Point)
    requires Lawful(c) && IsInPrimeSubgroup(c, p)
    ensures Mul(c, e, p) == Mul(c, e % c.q, p)
  {
    hide Mul, Lawful, InCurve;
    LawfulPrime(c);
    SubgroupOnCurve(c, p);
    var q, d, r := c.q, e / c.q, e % c.q;
    DivisionParts(e, q);
    MulAdd(c, d * q, r, p);
    MulMul(c, d, q, p);
    MulIdentity(c, d);
    MulInCurve(c, r, p);
    AddLaws(c, Mul(c, r, p), p, p);
  }

  lemma MulCong(c: Curve, a: nat, b: nat, p: Point)
    requires Lawful(c) && IsInPrimeSubgroup(c, p) && Cong(c.q, a, b)
    ensures Mul(c, a, p) == Mul(c, b, p)
  {
    CongIffResidue(c.q, a, b);
    MulResidue(c, a, p);
    MulResidue(c, b, p);
  }

  lemma BaseInSubgroup(c: Curve)
    requires Lawful(c)
    ensures c.q >= 2 && InCurve(c, c.base) && IsInPrimeSubgroup(c, c.base)
  {}

  lemma MulInSubgroup(c: Curve, e: nat, p: Point)
    requires Lawful(c) && IsInPrimeSubgroup(c, p)
    ensures IsInPrimeSubgroup(c, Mul(c, e, p))
  {
    MulInCurve(c, e, p);
    MulMul(c, c.q, e, p);
    MulMul(c, e, c.q, p);
    assert c.q * e == e * c.q;
    MulIdentity(c, e);
  }

  /** The generator's scalars are determined modulo q. */
  lemma BaseOrder(c: Curve, a: nat, b: nat)
    requires Lawful(c)
    ensures Mul(c, a, c.base) == Mul(c, b, c.base) <==> Cong(c.q, a, b)
  {
    hide Cong, Lawful, Mul, InCurve, IsInPrimeSubgroup;
    BaseInSubgroup(c);
    var q, g := c.q, c.base;
    if Cong(q, a, b) {
      MulCong(c, a, b, g);
    } else {
      var w := Complement(q, b);
      if Cong(q, a + w, 0) {
        CongSym(q, b + w, 0);
        CongTrans(q, a + w, 0, b + w);
        CongRefl(q, w);
        CongSub(q, a + w, b + w, w, w);
      }
      NonzeroMultiple(c, a + w);
      MulAdd(c, a, w, g);
      MulAdd(c, b, w, g);
      MulCong(c, b + w, 0, g);
      MulZero(c, g);
    }
  }

  lemma Complement(q: int, b: nat) returns (w: nat)
    requires q > 0
    ensures Cong(q, b + w, 0)
  {
    w := (q - 1) * b;
    assert b + w == q * b;
    MultipleIsZero(q, b);
  }

  lemma NonzeroMultiple(c: Curve, d: nat)
    requires Lawful(c) && !Cong(c.q, d, 0)
    ensures Mul(c, d, c.base) != IDENTITY
  {
    var v := PrimeInverseExists(c.q, d);
    assert v * d == d * v && v * d >= 0;
    MulMul(c, v, d, c.base);
    MulCong(c, v * d, 1, c.base);
    MulOne(c, c.base);
    MulIdentity(c, v);
  }

  /** Points of the prime-order subgroup are the multiples of the generator. */
  lemma DiscreteLog(c: Curve, p: Point) returns (k: nat)
    requires Lawful(c) && IsInPrimeSubgroup(c, p)
    ensures k < c.q && p == Mul(c, k, c.base)
  {
    assert Generated(c, p);
    var e: nat :| p == Mul(c, e, c.base);
    MulResidue(c, e, c.base);
    k := e % c.q;
  }

  /** Multiplying by the cofactor takes any curve point into the subgroup. */
  lemma ClearCofactor(c: Curve, p: Point)
    requires Lawful(c) && InCurve(c, p)
    ensures IsInPrimeSubgroup(c, Mul(c, c.cofactor, p))
  {
    assert HasGroupOrder(c, p);
    MulInCurve(c, c.cofactor, p);
    MulMul(c, c.q, c.cofactor, p);
    assert c.q * c.cofactor == c.cofactor * c.q;
  }

  /** The cofactor is invertible in the scalar field. */
  lemma CofactorInvertible(c: Curve) returns (u: nat)
    requires Lawful(c)
    ensures Cong(c.q, c.cofactor * u, 1)
  {
    u := PrimeInverseExists(c.q, c.cofactor);
  }

  // ----- the laws are satisfiable

  function AddMod(n: int, a: nat, b: nat): nat
    requires n > 0
  {
    (a + b) % n
  }

  lemma AddModAssociates(n: int, a: nat, b: nat, d: nat)
    requires n > 0
    ensures AddMod(n, AddMod(n, a, b), d) == AddMod(n, a, AddMod(n, b, d))
  {
    var s, t := a + b, b + d;
    CongResidue(n, s);
    CongResidue(n, t);
    CongRefl(n, d);
    CongRefl(n, a);
    CongAdd(n, s % n, s, d, d);
    CongAdd(n, a, a, t, t % n);
    CongTrans(n, s % n + d, s + d, a + t % n);
    CongIffResidue(n, s % n + d, a + t % n);
  }

  /** A number as a point, its last bit in the second coordinate; 0 is the identity. */
  function PointOf(v: nat): Point {
    Point(v / 2, 1 + v % 2)
  }

  function NumberOf(p: Point): nat {
    2 * p.x + if p.y == 2 then 1 else 0
  }

  lemma NumberOfPoint(v: nat)
    ensures NumberOf(PointOf(v)) == v && 1 <= PointOf(v).y <= 2 && PointOf(v).x <= v / 2
  {}

  /** The integers modulo 8q under addition, with generator 8. */
  function ResidueCurve(q: int): Curve
    requires q > 0
  {
    Curve(q, 8, PointOf(8),
          (a: Point, b: Point) => PointOf(AddMod(8 * q, NumberOf(a), NumberOf(b))),
          (p: Point) => 1 <= p.y <= 2 && NumberOf(p) < 8 * q)
  }

  lemma ResiduesInCurve(q: int, p: Point)
    requires q > 0 && 4 * q <= CURVE_PRIME
    ensures InCurve(ResidueCurve(q), p) <==> 1 <= p.y <= 2 && NumberOf(p) < 8 * q
    ensures InCurve(ResidueCurve(q), p) ==> p == PointOf(NumberOf(p))
  {}

  function ScaleMod(n: int, e: nat, x: nat): nat
    requires n > 0
  {
    e * x % n
  }

  lemma ScaleModStep(n: int, e: nat, x: nat)
    requires n > 0
    ensures AddMod(n, ScaleMod(n, e, x), x) == ScaleMod(n, e + 1, x)
  {
    var a := e * x;
    CongResidue(n, a);
    CongRefl(n, x);
    CongAdd(n, a % n, a, x, x);
    CongIffResidue(n, a % n + x, a + x);
    assert a + x == (e + 1) * x;
  }

  lemma ScaleModZero(n: int, x: nat)
    requires n > 0
    ensures ScaleMod(n, 0, x) == 0
  {
    assert 0 * x == 0;
  }

  lemma {:induction false} ResiduesMul(q: int, e: nat, p: Point)
    requires q > 0
    ensures Mul(ResidueCurve(q), e, p) == PointOf(ScaleMod(8 * q, e, NumberOf(p)))
  {
    hide AddMod, ScaleMod, NumberOf;
    var x := NumberOf(p);
    if e == 0 {
      ScaleModZero(8 * q, x);
    } else {
      ResiduesMul(q, e - 1, p);
      NumberOfPoint(ScaleMod(8 * q, e - 1, x));
      ScaleModStep(8 * q, e - 1, x);
    }
  }

  lemma ResiduesAdd(q: int, a: Point, b: Point, d: Point)
    requires q > 0 && 4 * q <= CURVE_PRIME
    ensures var c := ResidueCurve(q);
            Closed(c, a, b) && Commutes(c, a, b) && Associates(c, a, b, d) && KeepsIdentity(c, a)
  {
    hide AddMod, InCurve, PointOf, NumberOf;
    var n, x, y, z := 8 * q, NumberOf(a), NumberOf(b), NumberOf(d);
    ResiduesInCurve(q, a);
    AddModBasics(n, x, y);
    AddModBasics(n, y, z);
    NumberOfPoint(AddMod(n, x, y));
    NumberOfPoint(AddMod(n, y, z));
    NumberOfPoint(0);
    ResiduesInCurve(q, PointOf(AddMod(n, x, y)));
    AddModAssociates(n, x, y, z);
    assert IDENTITY == PointOf(0) by {
      PointOfZero();
    }
  }

  lemma PointOfZero()
    ensures PointOf(0) == IDENTITY
  {}

  lemma AddModBasics(n: int, a: nat, b: nat)
    requires n > 0
    ensures 0 <= AddMod(n, a, b) < n && AddMod(n, a, b) == AddMod(n, b, a)
    ensures a < n ==> AddMod(n, a, 0) == a
  {}

  lemma ResiduesGroupOrder(q: int, a: Point)
    requires q > 0
    ensures HasGroupOrder(ResidueCurve(q), a)
  {
    hide AddMod;
    var n := 8 * q;
    ResiduesMul(q, n, a);
    MultipleIsZero(n, NumberOf(a));
    CongIffResidue(n, n * NumberOf(a), 0);
  }

  lemma ResiduesGenerated(q: int, a: Point)
    requires q > 0 && 4 * q <= CURVE_PRIME
    ensures Generated(ResidueCurve(q), a)
  {
    hide AddMod, NumberOf, PointOf, Mul;
    var c, n, x := ResidueCurve(q), 8 * q, NumberOf(a);
    if IsInPrimeSubgroup(c, a) {
      ResiduesInCurve(q, a);
      ResiduesMul(q, q, a);
      NumberOfPoint(ScaleMod(n, q, x));
      NumberOfPoint(0);
      PointOfZero();
      CongIffResidue(n, q * x, 0);
      var k := CongElim(n, q * x, 0);
      CancelModulus(q, x, k);
      ResiduesMul(q, k, c.base);
      NumberOfPoint(8);
      SmallModulus(x, n);
      assert a == Mul(c, k, c.base);
    }
  }

  lemma CancelModulus(q: int, x: nat, k: int)
    requires q > 0 && q * x - 0 == 8 * q * k
    ensures x == k * 8 && k >= 0
  {
    assert q * x == q * (8 * k);
  }

  /**
    For every odd prime that leaves room for 8q points of two coordinates, among
    them SUB_ORDER, there is a lawful curve, cofactor included.
   */
  lemma LawsSatisfiable(q: int)
    requires IsPrime(q) && q > 2 && 4 * q <= CURVE_PRIME
    ensures Lawful(ResidueCurve(q))
  {
    hide AddMod;
    var c := ResidueCurve(q);
    forall a, b, d
      ensures Associates(c, a, b, d)
    {
      ResiduesAdd(q, a, b, d);
    }
    forall a, b
      ensures Closed(c, a, b) && Commutes(c, a, b)
    {
      ResiduesAdd(q, a, b, a);
    }
    forall a
      ensures KeepsIdentity(c, a) && HasGroupOrder(c, a) && Generated(c, a)
    {
      ResiduesAdd(q, a, a, a);
      ResiduesGroupOrder(q, a);
      ResiduesGenerated(q, a);
    }
    ResiduesMul(q, q, c.base);
    SelfModulus(q);
    EightIsUnit(q);
  }

  lemma EightIsUnit(q: int)
    requires IsPrime(q) && q > 2
    ensures !Cong(q, 8, 0)
  {
    NotCongruent(q, 2, 0);
    if Cong(q, 2 * 4, 0) {
      NoZeroDivisors(q, 2, 4);
      if Cong(q, 2 * 2, 0) {
        NoZeroDivisors(q, 2, 2);
      }
    }
  }

  lemma SelfModulus(q: int)
    requires q > 0
    ensures q * 8 % (8 * q) == 0
  {
    MultipleIsZero(8 * q, 1);
    CongIffResidue(8 * q, 8 * q * 1, 0);
  }
}
