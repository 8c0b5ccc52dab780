/** The modular inverse of packages/crypto/src/babyjub.ts. */
module Inverse {
  import opened Prelude
  import opened Modular

  /** The value sought: the one inverse in [0, q), or a refusal when there is none. */
  ghost function InverseOf(q: int, a: int): (r: Result<int>)
    ensures r.Ok? <==> exists v :: IsInverse(q, a, v)
    ensures r.Ok? ==> IsInverse(q, a, r.value)
    ensures r.Err? ==> r.error == NotInvertible
  {
    if exists v :: IsInverse(q, a, v) then
      var v :| IsInverse(q, a, v);
      Ok(v)
    else
      Err(NotInvertible)
  }

  /** Modulo a prime, exactly the multiples of q are refused, and an inverse is never 0. */
  lemma InverseOfPrime(q: int, a: int)
    requires IsPrime(q)
    ensures InverseOf(q, a).Err? <==> Cong(q, a, 0)
    ensures InverseOf(q, a).Ok? ==> 1 <= InverseOf(q, a).value < q
  {
    if Cong(q, a, 0) {
      forall v {
        MultipleHasNoInverse(q, a, v);
      }
    } else {
      var v := PrimeInverseExists(q, a);
      ZeroIsNoInverse(q, a);
    }
  }

  lemma MultipleHasNoInverse(q: int, a: int, v: int)
    requires q >= 2 && Cong(q, a, 0)
    ensures !IsInverse(q, a, v)
  {
    CongRefl(q, v);
    CongMul(q, a, 0, v, v);
    CongSym(q, a * v, 0 * v);
    NotCongruent(q, 0, 1);
    if IsInverse(q, a, v) {
      CongTrans(q, 0, a * v, 1);
    }
  }

  lemma ZeroIsNoInverse(q: int, a: int)
    requires q >= 2
    ensures !IsInverse(q, a, 0)
  {
    NotCongruent(q, 0, 1);
  }

  /** Another inverse would have to equal the one found. */
  lemma InverseIsThe(q: int, a: int, v: int)
    requires IsInverse(q, a, v)
    ensures InverseOf(q, a) == Ok(v)
  {
    InverseUnique(q, a, v, InverseOf(q, a).value);
  }

  // ----- the loop of invModSubOrder

  function Abs(x: int): nat { if x < 0 then -x else x }

  /**
    What one division step keeps: both remainders are combinations of a and q,
    the cofactors alternate in sign and balance to q, and no common divisor
    of the remainders is lost.
   */
  ghost predicate EuclidState(q: int, a: int, oldR: int, r: int, oldS: int, s: int) {
    && oldR >= 0 && r >= 0 && (oldR > 0 || r > 0)
    && Cong(q, oldR, oldS * a) && Cong(q, r, s * a)
    && (oldS >= 0 >= s || oldS <= 0 <= s)
    && Abs(oldS) * r + Abs(s) * oldR == q
    && (forall d :: Divides(d, oldR) && Divides(d, r) ==> Divides(d, a) && Divides(d, q))
  }

  lemma EuclidStart(q: int, a: int)
    requires 0 <= a < q
    ensures EuclidState(q, a, a, q, 1, 0)
    ensures Abs(1) <= q && Abs(0) <= q
  {
    CongRefl(q, a);
    CongIntro(q, q, 0 * a, 1);
  }

  lemma EuclidStep(q: int, a: int, oldR: int, r: int, oldS: int, s: int)
    requires EuclidState(q, a, oldR, r, oldS, s) && r > 0
    ensures TruncDiv(oldR, r) == oldR / r
    ensures 0 <= oldR - TruncDiv(oldR, r) * r < r
    ensures EuclidState(q, a, r, oldR - TruncDiv(oldR, r) * r, s, oldS - TruncDiv(oldR, r) * s)
  {
    hide Cong, Divides, TruncDiv;
    var m := TruncDiv(oldR, r);
    StepRemainder(oldR, r);
    StepCong(q, a, oldR, r, oldS, s, m);
    CofactorStep(q, oldR, r, oldS, s, m);
    forall d | Divides(d, r) && Divides(d, oldR - m * r)
      ensures Divides(d, a) && Divides(d, q)
    {
      StepDivisor(d, oldR, r, m);
    }
  }

  lemma StepRemainder(oldR: int, r: int)
    requires oldR >= 0 && r > 0
    ensures TruncDiv(oldR, r) == oldR / r >= 0
    ensures 0 <= oldR - TruncDiv(oldR, r) * r < r
  {}

  lemma StepCong(q: int, a: int, oldR: int, r: int, oldS: int, s: int, m: int)
    requires Cong(q, oldR, oldS * a) && Cong(q, r, s * a)
    ensures Cong(q, oldR - m * r, (oldS - m * s) * a)
  {
    hide *;
    CongScale(q, m, r, s * a);
    CongSub(q, oldR, oldS * a, m * r, m * (s * a));
    assert oldS * a - m * (s * a) == (oldS - m * s) * a;
  }

  lemma StepDivisor(d: int, oldR: int, r: int, m: int)
    requires Divides(d, r) && Divides(d, oldR - m * r)
    ensures Divides(d, oldR)
  {
    hide *;
    DividesAdd(d, oldR - m * r, r, m);
    assert oldR - m * r + m * r == oldR;
  }

  lemma CofactorStep(q: int, oldR: int, r: int, oldS: int, s: int, m: int)
    requires m >= 0 && (oldS >= 0 >= s || oldS <= 0 <= s)
    requires Abs(oldS) * r + Abs(s) * oldR == q
    ensures var s' := oldS - m * s;
            (s >= 0 >= s' || s <= 0 <= s') && Abs(s) * (oldR - m * r) + Abs(s') * r == q
  {
    var s' := oldS - m * s;
    assert Abs(s') == Abs(oldS) + m * Abs(s);
    assert Abs(s) * (oldR - m * r) + (Abs(oldS) + m * Abs(s)) * r == q;
  }

  /** Truncated division lets cofactors go negative, but never past q in size. */
  lemma CofactorsBounded(q: int, a: int, oldR: int, r: int, oldS: int, s: int)
    requires EuclidState(q, a, oldR, r, oldS, s)
    ensures oldR > 0 ==> Abs(s) <= q
  {
    hide Divides;
    if oldR > 0 {
      BoundFromBalance(Abs(oldS), r, Abs(s), oldR, q);
    }
  }

  lemma BoundFromBalance(x: nat, r: nat, y: nat, s: nat, q: int)
    requires x * r + y * s == q && s > 0
    ensures y <= q
  {
    assert x * r >= 0;
    assert y * s >= y;
  }

  lemma EuclidEnd(q: int, a: int, a0: int, g: int, oldS: int, s: int)
    requires q >= 2 && a0 == a % q && EuclidState(q, a0, g, 0, oldS, s)
    ensures g == 1 ==> InverseOf(q, a) == Ok(oldS % q)
    ensures g != 1 ==> InverseOf(q, a) == Err(NotInvertible)
  {
    CongResidue(q, a);
    if g == 1 {
      CofactorIsInverse(q, a, a0, oldS);
      InverseIsThe(q, a, oldS % q);
    } else {
      DividesIntro(g, g, 1);
      DividesIntro(g, 0, 0);
      forall v {
        CommonDivisorBlocks(q, a, a0, g, v);
      }
    }
  }

  lemma CofactorIsInverse(q: int, a: int, a0: int, s: int)
    requires q > 0 && Cong(q, a0, a) && Cong(q, 1, s * a0)
    ensures IsInverse(q, a, s % q)
  {
    var v := s % q;
    CongResidue(q, s);
    CongSym(q, a0, a);
    CongMul(q, a, a0, v, s);
    assert a0 * s == s * a0;
    CongSym(q, 1, s * a0);
    CongTrans(q, a * v, a0 * s, 1);
  }

  /** A common divisor of a and q other than 1 rules an inverse out. */
  lemma CommonDivisorBlocks(q: int, a: int, a0: int, g: int, v: int)
    requires q > 0 && Cong(q, a0, a) && g >= 0 && g != 1
    requires Divides(g, a0) && Divides(g, q)
    ensures !IsInverse(q, a, v)
  {
    hide Cong, Divides;
    CongRefl(q, v);
    CongMul(q, a0, a, v, v);
    CoprimeFromUnit(q, a0, g, v);
    if Cong(q, a * v, 1) {
      CongTrans(q, a0 * v, a * v, 1);
    }
  }

  lemma CoprimeFromUnit(q: int, a: int, g: int, v: int)
    requires g >= 0 && g != 1 && Divides(g, a) && Divides(g, q)
    ensures !Cong(q, a * v, 1)
  {
    hide *;
    var m := Quotient(g, a);
    var n := Quotient(g, q);
    if Cong(q, a * v, 1) {
      var k := CongElim(q, a * v, 1);
      assert a * v == g * (m * v);
      assert q * k == g * (n * k);
      UnitFactor(g, m * v - n * k);
    }
  }

  lemma UnitFactor(g: int, k: int)
    requires g >= 0 && g * k == 1
    ensures g == 1
  {}

  /** invModSubOrder: the extended Euclidean loop over truncated division. */
  method InvModSubOrder(q: int, a: int) returns (res: Result<int>)
    requires q >= 2
    ensures res == InverseOf(q, a)
  {
    hide *;
    var a0 := TruncMod(TruncMod(a, q) + q, q);
    DoubleTruncMod(q, a);
    var oldR, r := a0, q;
    var oldS, s := 1, 0;
    EuclidStart(q, a0);
    while r != 0
      invariant r >= 0 && EuclidState(q, a0, oldR, r, oldS, s)
      invariant Abs(oldS) <= q && Abs(s) <= q
      decreases r
    {
      EuclidStep(q, a0, oldR, r, oldS, s);
      var m := TruncDiv(oldR, r);
      oldR, r := r, oldR - m * r;
      CofactorsBounded(q, a0, oldR, r, s, oldS - m * s);
      oldS, s := s, oldS - m * s;
    }
    EuclidEnd(q, a, a0, oldR, oldS, s);
    if oldR != 1 {
      return Err(NotInvertible);
    }
    DoubleTruncMod(q, oldS);
    return Ok(TruncMod(TruncMod(oldS, q) + q, q));
  }
}
