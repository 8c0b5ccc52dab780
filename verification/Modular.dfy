/**
  Congruences modulo q, primes, and inverses: the scalar field of the
  prime-order subgroup (SUB_ORDER in packages/crypto/src/babyjub.ts).
 */
module Modular {

  // ----- divisibility and congruence

  /**
    d * k as repeated addition, so that a congruence that is only passed on
    brings no product of two unknowns into a proof.
   */
  ghost function Times(d: int, k: int): int
    decreases if k < 0 then -k else k
  {
    if k == 0 then 0 else if k > 0 then d + Times(d, k - 1) else Times(d, k + 1) - d
  }

  lemma {:induction false} TimesIsProduct(d: int, k: int)
    ensures Times(d, k) == d * k
    decreases if k < 0 then -k else k
  {
    if k > 0 {
      TimesIsProduct(d, k - 1);
    } else if k < 0 {
      TimesIsProduct(d, k + 1);
    }
  }

  ghost predicate Divides(d: int, n: int) { exists k: int :: n == Times(d, k) }

  lemma DividesIntro(d: int, n: int, k: int)
    requires n == d * k
    ensures Divides(d, n)
  {
    TimesIsProduct(d, k);
  }

  lemma Quotient(d: int, n: int) returns (k: int)
    requires Divides(d, n)
    ensures n == d * k
  {
    k :| n == Times(d, k);
    TimesIsProduct(d, k);
  }

  ghost predicate Cong(q: int, a: int, b: int) { Divides(q, a - b) }

  lemma CongIntro(q: int, a: int, b: int, k: int)
    requires a - b == q * k
    ensures Cong(q, a, b)
  {
    DividesIntro(q, a - b, k);
  }

  lemma CongElim(q: int, a: int, b: int) returns (k: int)
    requires Cong(q, a, b)
    ensures a - b == q * k
  {
    k := Quotient(q, a - b);
  }

  lemma CongRefl(q: int, a: int)
    ensures Cong(q, a, a)
  {
    CongIntro(q, a, a, 0);
  }

  lemma CongSym(q: int, a: int, b: int)
    requires Cong(q, a, b)
    ensures Cong(q, b, a)
  {
    var k := CongElim(q, a, b);
    CongIntro(q, b, a, -k);
  }

  lemma CongTrans(q: int, a: int, b: int, c: int)
    requires Cong(q, a, b) && Cong(q, b, c)
    ensures Cong(q, a, c)
  {
    var k := CongElim(q, a, b);
    var l := CongElim(q, b, c);
    assert a - c == q * (k + l);
    CongIntro(q, a, c, k + l);
  }

  lemma CongAdd(q: int, a: int, b: int, c: int, d: int)
    requires Cong(q, a, b) && Cong(q, c, d)
    ensures Cong(q, a + c, b + d)
  {
    var k := CongElim(q, a, b);
    var l := CongElim(q, c, d);
    assert (a + c) - (b + d) == q * (k + l);
    CongIntro(q, a + c, b + d, k + l);
  }

  lemma CongSub(q: int, a: int, b: int, c: int, d: int)
    requires Cong(q, a, b) && Cong(q, c, d)
    ensures Cong(q, a - c, b - d)
  {
    var k := CongElim(q, a, b);
    var l := CongElim(q, c, d);
    assert (a - c) - (b - d) == q * (k - l);
    CongIntro(q, a - c, b - d, k - l);
  }

  lemma CongMul(q: int, a: int, b: int, c: int, d: int)
    requires Cong(q, a, b) && Cong(q, c, d)
    ensures Cong(q, a * c, b * d)
  {
    var k := CongElim(q, a, b);
    var l := CongElim(q, c, d);
    calc {
      a * c - b * d;
      (a - b) * c + b * (c - d);
      (q * k) * c + b * (q * l);
      q * (k * c + b * l);
    }
    CongIntro(q, a * c, b * d, k * c + b * l);
  }

  /** Scaling both sides by one factor. */
  lemma CongScale(q: int, c: int, a: int, b: int)
    requires Cong(q, a, b)
    ensures Cong(q, c * a, c * b)
  {
    CongRefl(q, c);
    CongMul(q, c, c, a, b);
  }

  lemma MultipleIsZero(q: int, k: int)
    ensures Cong(q, q * k, 0)
  {
    CongIntro(q, q * k, 0, k);
  }

  // ----- canonical residues

  lemma CongResidue(q: int, a: int)
    requires q > 0
    ensures Cong(q, a % q, a) && Cong(q, a, a % q)
  {
    CongIntro(q, a, a % q, a / q);
    CongSym(q, a, a % q);
  }

  lemma SmallMultiple(q: int, k: int)
    requires -q < q * k < q
    ensures k == 0
  {}

  /** Two congruent values in [0, q) are equal. */
  lemma CongUnique(q: int, a: int, b: int)
    requires Cong(q, a, b) && 0 <= a < q && 0 <= b < q
    ensures a == b
  {
    var k := CongElim(q, a, b);
    SmallMultiple(q, k);
  }

  lemma CongIffResidue(q: int, a: int, b: int)
    requires q > 0
    ensures Cong(q, a, b) <==> a % q == b % q
  {
    CongResidue(q, a);
    CongResidue(q, b);
    if Cong(q, a, b) {
      CongTrans(q, a % q, a, b);
      CongTrans(q, a % q, b, b % q);
      CongUnique(q, a % q, b % q);
    } else if a % q == b % q {
      CongTrans(q, a, a % q, b);
    }
  }

  lemma SmallModulus(a: int, q: int)
    requires 0 <= a < q
    ensures a % q == a
  {}

  /** JavaScript's bigint remainder: the sign of the dividend. */
  function TruncMod(a: int, q: int): (r: int)
    requires q > 0
    ensures a >= 0 ==> 0 <= r < q
    ensures a <= 0 ==> -q < r <= 0
    ensures a >= 0 ==> r == a % q
  {
    if a >= 0 then a % q else -((-a) % q)
  }

  /** JavaScript's bigint quotient, rounding toward zero. */
  function TruncDiv(a: int, q: int): int
    requires q > 0
  {
    if a >= 0 then a / q else -((-a) / q)
  }

  /** Quotient and remainder belong together, the quotient never larger than the dividend allows. */
  lemma TruncDivision(a: int, q: int)
    requires q > 0
    ensures a == TruncDiv(a, q) * q + TruncMod(a, q)
    ensures a >= 0 ==> 0 <= TruncMod(a, q) < q
    ensures a <= 0 ==> -q < TruncMod(a, q) <= 0
  {
    var b := if a >= 0 then a else -a;
    assert b == b / q * q + b % q;
  }

  lemma CongTruncMod(q: int, a: int)
    requires q > 0
    ensures Cong(q, TruncMod(a, q), a)
  {
    if a >= 0 {
      CongResidue(q, a);
    } else {
      CongResidue(q, -a);
      CongRefl(q, 0);
      CongSub(q, 0, 0, (-a) % q, -a);
    }
  }

  /** The source's idiom ((a % q) + q) % q is the residue in [0, q). */
  lemma DoubleTruncMod(q: int, a: int)
    requires q > 0
    ensures TruncMod(TruncMod(a, q) + q, q) == a % q
  {
    var t := TruncMod(a, q);
    CongTruncMod(q, a);
    CongTruncMod(q, t + q);
    CongIntro(q, t + q, t, 1);
    CongTrans(q, TruncMod(t + q, q), t + q, t);
    CongTrans(q, TruncMod(t + q, q), t, a);
    CongResidue(q, a);
    CongTrans(q, TruncMod(t + q, q), a, a % q);
    CongUnique(q, TruncMod(t + q, q), a % q);
  }

  // ----- primes and inverses

  ghost predicate IsPrime(q: int) {
    2 <= q && forall d: int :: 2 <= d < q ==> !Divides(d, q)
  }

  lemma DivisorBound(d: int, n: int)
    requires Divides(d, n) && n > 0 && d > 0
    ensures d <= n
  {
    var k := Quotient(d, n);
  }

  lemma DividesAdd(d: int, a: int, b: int, m: int)
    requires Divides(d, a) && Divides(d, b)
    ensures Divides(d, a + m * b)
  {
    hide Divides;
    var k := Quotient(d, a);
    var l := Quotient(d, b);
    assert a + m * b == d * (k + m * l);
    DividesIntro(d, a + m * b, k + m * l);
  }

  /** Bezout: a positive common divisor of a and q that is a combination of them. */
  lemma Bezout(a: nat, q: nat) returns (g: nat, s: int, t: int)
    requires a > 0 || q > 0
    ensures g > 0 && Divides(g, a) && Divides(g, q) && g == s * a + t * q
    decreases a
  {
    if a == 0 {
      g, s, t := q, 0, 1;
      DividesIntro(g, q, 1);
      DividesIntro(g, a, 0);
    } else {
      var m, r := q / a, q % a;
      var s', t';
      g, s', t' := Bezout(r, a);
      s, t := t' - s' * m, s';
      assert q == a * m + r;
      assert g == s' * (q - a * m) + t' * a == s * a + t * q;
      DividesAdd(g, r, a, m);
      assert r + m * a == q;
    }
  }

  /** What the extended Euclid of the source searches for. */
  ghost predicate IsInverse(q: int, a: int, v: int) {
    0 <= v < q && Cong(q, a * v, 1)
  }

  /** Modulo a prime exactly the non-multiples of q are invertible. */
  lemma PrimeInverseExists(q: int, a: int) returns (v: int)
    requires IsPrime(q) && !Cong(q, a, 0)
    ensures IsInverse(q, a, v)
  {
    CongResidue(q, a);
    if a % q == 0 {
      assert false;
    }
    var g, s, t := Bezout(a % q, q);
    assert g == 1 by {
      DivisorBound(g, a % q);
    }
    v := s % q;
    assert s * (a % q) - 1 == q * -t;
    CongIntro(q, s * (a % q), 1, -t);
    CongResidue(q, s);
    CongMul(q, a, a % q, v, s);
    assert (a % q) * s == s * (a % q);
    CongTrans(q, a * v, (a % q) * s, 1);
  }

  lemma InverseUnique(q: int, a: int, v: int, w: int)
    requires IsInverse(q, a, v) && IsInverse(q, a, w)
    ensures v == w
  {
    hide Cong, Divides;
    // v == v * (a * w) == (v * a) * w == w
    CongScale(q, w, a * v, 1);
    CongScale(q, v, a * w, 1);
    assert w * (a * v) == v * (a * w);
    CongSym(q, v * (a * w), v * 1);
    CongTrans(q, v, v * (a * w), w);
    CongUnique(q, v, w);
  }

  /** A product is zero modulo a prime only if a factor is. */
  lemma NoZeroDivisors(q: int, a: int, b: int)
    requires IsPrime(q) && Cong(q, a * b, 0)
    ensures Cong(q, a, 0) || Cong(q, b, 0)
  {
    hide Cong;
    if !Cong(q, a, 0) {
      var v := PrimeInverseExists(q, a);
      CongScale(q, v, a * b, 0);
      CongScale(q, b, a * v, 1);
      assert b * (a * v) == v * (a * b);
      CongSym(q, b * (a * v), b * 1);
      CongTrans(q, b, v * (a * b), 0);
    }
  }

  /** Cancelling a factor that is not zero modulo a prime. */
  lemma CongCancel(q: int, c: int, a: int, b: int)
    requires IsPrime(q) && !Cong(q, c, 0) && Cong(q, c * a, c * b)
    ensures Cong(q, a, b)
  {
    CongRefl(q, c * b);
    CongSub(q, c * a, c * b, c * b, c * b);
    assert c * (a - b) == c * a - c * b;
    NoZeroDivisors(q, c, a - b);
    CongRefl(q, b);
    CongAdd(q, a - b, 0, b, b);
  }

  /** Distinct values in [0, q) are not congruent, nor is a value in (0, q) zero. */
  lemma NotCongruent(q: int, a: int, b: int)
    requires a != b && 0 <= a < q && 0 <= b < q
    ensures !Cong(q, a, b)
  {
    if Cong(q, a, b) {
      CongUnique(q, a, b);
    }
  }
}
