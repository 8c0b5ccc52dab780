/**
  Polynomials over the integers, read modulo a prime: evaluation, synthetic
  division, the root bound, and the polynomial through given points.
  A polynomial is its coefficient vector, constant term first, as
  dealCommitteeKey holds it (packages/crypto/src/vss.ts).
 */
module Polynomials {
  import opened Modular

  type Poly = seq<int>

  function Eval(p: Poly, z: int): int {
    if p == [] then 0 else p[0] + z * Eval(p[1..], z)
  }

  function Pow(z: int, n: nat): int {
    if n == 0 then 1 else z * Pow(z, n - 1)
  }

  lemma EvalAtZero(f: Poly)
    ensures Eval(f, 0) == if f == [] then 0 else f[0]
  {}

  /** The sum of p[j] * z^j in ascending order, as the Feldman check forms it. */
  function PowerSum(p: Poly, z: int): int {
    if p == [] then 0 else PowerSum(p[..|p| - 1], z) + Pow(z, |p| - 1) * p[|p| - 1]
  }

  lemma {:induction false} EvalSnoc(p: Poly, c: int, z: int)
    ensures Eval(p + [c], z) == Eval(p, z) + Pow(z, |p|) * c
  {
    if p == [] {
      assert p + [c] == [c];
      assert Eval([c], z) == c + z * Eval([], z);
    } else {
      assert (p + [c])[1..] == p[1..] + [c];
      EvalSnoc(p[1..], c, z);
      assert z * (Pow(z, |p| - 1) * c) == (z * Pow(z, |p| - 1)) * c;
    }
  }

  /** Horner's nesting and the sum of powers are one polynomial. */
  lemma {:induction false} EvalIsPowerSum(p: Poly, z: int)
    ensures Eval(p, z) == PowerSum(p, z)
  {
    if p != [] {
      var n := |p| - 1;
      assert p == p[..n] + [p[n]];
      EvalIsPowerSum(p[..n], z);
      EvalSnoc(p[..n], p[n], z);
    }
  }

  /** evaluatePolynomial reduces after every Horner step, with JavaScript's remainder. */
  function EvalMod(q: int, p: Poly, z: int): int
    requires q > 0
  {
    if p == [] then 0 else TruncMod(EvalMod(q, p[1..], z) * z + p[0], q)
  }

  lemma {:induction false} EvalModIsEval(q: int, p: Poly, z: int)
    requires q > 0
    ensures Cong(q, EvalMod(q, p, z), Eval(p, z))
  {
    hide Cong, TruncMod;
    if p == [] {
      CongRefl(q, 0);
    } else {
      EvalModIsEval(q, p[1..], z);
      HornerStep(q, EvalMod(q, p[1..], z), Eval(p[1..], z), z, p[0]);
    }
  }

  lemma HornerStep(q: int, v: int, e: int, z: int, c: int)
    requires q > 0 && Cong(q, v, e)
    ensures Cong(q, TruncMod(v * z + c, q), c + z * e)
  {
    hide *;
    CongScale(q, z, v, e);
    CongRefl(q, c);
    CongAdd(q, z * v, z * e, c, c);
    CongTruncMod(q, v * z + c);
    assert v * z + c == z * v + c && z * e + c == c + z * e;
    CongTrans(q, TruncMod(v * z + c, q), v * z + c, c + z * e);
  }

  ghost predicate Nonnegative(p: Poly) {
    forall i :: 0 <= i < |p| ==> p[i] >= 0
  }

  /** On the dealer's inputs no remainder is negative, so the result is the residue in [0, q). */
  lemma {:induction false} EvalModResidue(q: int, p: Poly, z: int)
    requires q > 0 && z >= 0 && Nonnegative(p)
    ensures 0 <= EvalMod(q, p, z) < q && EvalMod(q, p, z) == Eval(p, z) % q
  {
    hide Cong;
    if p != [] {
      EvalModResidue(q, p[1..], z);
      NonnegativeHorner(EvalMod(q, p[1..], z), z, p[0]);
    }
    EvalModIsEval(q, p, z);
    ResidueOf(q, EvalMod(q, p, z), Eval(p, z));
  }

  lemma NonnegativeHorner(v: int, z: int, c: int)
    requires v >= 0 && z >= 0 && c >= 0
    ensures v * z + c >= 0
  {}

  lemma ResidueOf(q: int, v: int, e: int)
    requires 0 <= v < q && Cong(q, v, e)
    ensures v == e % q
  {
    hide *;
    CongResidue(q, e);
    CongTrans(q, v, e, e % q);
    CongUnique(q, v, e % q);
  }

  /** evaluatePolynomial: Horner's rule from the top coefficient down. */
  method EvaluatePolynomial(q: int, coefficients: Poly, z: int) returns (acc: int)
    requires q > 0
    ensures acc == EvalMod(q, coefficients, z)
    ensures Cong(q, acc, PowerSum(coefficients, z))
  {
    hide Cong, TruncMod;
    acc := 0;
    var i := |coefficients| - 1;
    while i >= 0
      invariant -1 <= i < |coefficients|
      invariant acc == EvalMod(q, coefficients[i + 1..], z)
    {
      acc := TruncMod(acc * z + coefficients[i], q);
      assert coefficients[i..][1..] == coefficients[i + 1..];
      i := i - 1;
    }
    assert coefficients[0..] == coefficients;
    EvalModIsEval(q, coefficients, z);
    EvalIsPowerSum(coefficients, z);
  }

  // ----- synthetic division

  /** The quotient of p(z) - p(r) by z - r. */
  function Quot(p: Poly, r: int): (g: Poly)
    ensures |g| == if |p| == 0 then 0 else |p| - 1
  {
    if |p| <= 1 then [] else [Eval(p[1..], r)] + Quot(p[1..], r)
  }

  lemma {:induction false} Division(p: Poly, r: int, z: int)
    ensures Eval(p, z) - Eval(p, r) == (z - r) * Eval(Quot(p, r), z)
  {
    if |p| <= 1 {
      if |p| == 1 {
        assert p[1..] == [];
      }
    } else {
      var t := p[1..];
      Division(t, r, z);
      assert Quot(p, r)[1..] == Quot(t, r);
      DivisionStep(z, r, Eval(t, z), Eval(t, r), Eval(Quot(t, r), z));
    }
  }

  lemma DivisionStep(z: int, r: int, tz: int, tr: int, g: int)
    requires tz - tr == (z - r) * g
    ensures z * tz - r * tr == (z - r) * (tr + z * g)
  {
    assert z * tz - r * tr == z * (tz - tr) + (z - r) * tr;
    assert z * ((z - r) * g) == (z - r) * (z * g);
  }

  // ----- points and the root bound

  /** Pairwise incongruent, so that interpolation at these points is defined. */
  ghost predicate DistinctMod(q: int, xs: seq<int>) {
    forall i, j :: 0 <= i < j < |xs| ==> !Cong(q, xs[i], xs[j])
  }

  ghost predicate Vanishes(q: int, p: Poly) {
    forall i :: 0 <= i < |p| ==> Cong(q, p[i], 0)
  }

  lemma {:induction false} VanishesFromQuot(q: int, p: Poly, r: int)
    requires Vanishes(q, Quot(p, r)) && Cong(q, Eval(p, r), 0)
    ensures Vanishes(q, p)
  {
    if p != [] {
      var t := p[1..];
      if |p| == 1 {
        assert r * Eval(t, r) == 0;
      } else {
        var g := Quot(p, r);
        assert g[0] == Eval(t, r) && g[1..] == Quot(t, r);
        forall i | 0 <= i < |g| - 1
          ensures Cong(q, Quot(t, r)[i], 0)
        {
          assert g[i + 1] == Quot(t, r)[i];
        }
        VanishesFromQuot(q, t, r);
        CongScale(q, r, Eval(t, r), 0);
        CongSub(q, Eval(p, r), 0, r * Eval(t, r), r * 0);
        assert Cong(q, p[0], 0);
      }
      forall i | 0 <= i < |p|
        ensures Cong(q, p[i], 0)
      {
        if i > 0 {
          assert p[i] == t[i - 1];
        }
      }
    }
  }

  /** A polynomial with as many roots as coefficients is zero modulo the prime. */
  lemma {:induction false} RootBound(q: int, p: Poly, roots: seq<int>)
    requires IsPrime(q) && |roots| == |p| && DistinctMod(q, roots)
    requires forall i :: 0 <= i < |roots| ==> Cong(q, Eval(p, roots[i]), 0)
    ensures Vanishes(q, p)
    decreases |p|
  {
    if p != [] {
      var n := |p| - 1;
      var r, rest := roots[n], roots[..n];
      var g := Quot(p, r);
      forall i | 0 <= i < |rest|
        ensures Cong(q, Eval(g, rest[i]), 0)
      {
        RootOfQuot(q, p, r, rest[i]);
      }
      RootBound(q, g, rest);
      VanishesFromQuot(q, p, r);
    }
  }

  lemma RootOfQuot(q: int, p: Poly, r: int, s: int)
    requires IsPrime(q) && !Cong(q, s, r)
    requires Cong(q, Eval(p, r), 0) && Cong(q, Eval(p, s), 0)
    ensures Cong(q, Eval(Quot(p, r), s), 0)
  {
    Division(p, r, s);
    CongSub(q, Eval(p, s), 0, Eval(p, r), 0);
    NoZeroDivisors(q, s - r, Eval(Quot(p, r), s));
    if Cong(q, s - r, 0) {
      CongRefl(q, r);
      CongAdd(q, s - r, 0, r, r);
    }
  }

  // ----- coefficientwise operations

  function Combine(p: Poly, c: int, g: Poly): (s: Poly)
    requires |p| == |g|
    ensures |s| == |p|
    ensures forall i :: 0 <= i < |p| ==> s[i] == p[i] + c * g[i]
  {
    if p == [] then [] else [p[0] + c * g[0]] + Combine(p[1..], c, g[1..])
  }

  lemma {:induction false} EvalCombine(p: Poly, c: int, g: Poly, z: int)
    requires |p| == |g|
    ensures Eval(Combine(p, c, g), z) == Eval(p, z) + c * Eval(g, z)
  {
    if p != [] {
      var s := Combine(p, c, g);
      EvalCombine(p[1..], c, g[1..], z);
      assert s[1..] == Combine(p[1..], c, g[1..]);
      CombineStep(p[0], g[0], c, z, Eval(p[1..], z), Eval(g[1..], z));
    }
  }

  lemma CombineStep(a: int, b: int, c: int, z: int, u: int, v: int)
    ensures a + c * b + z * (u + c * v) == a + z * u + c * (b + z * v)
  {
    assert z * (u + c * v) == z * u + c * (z * v);
  }

  /** Every coefficient replaced by its residue in [0, q). */
  function Reduce(q: int, p: Poly): (s: Poly)
    requires q > 0
    ensures |s| == |p| && forall i :: 0 <= i < |p| ==> s[i] == p[i] % q
  {
    seq(|p|, i requires 0 <= i < |p| => p[i] % q)
  }

  ghost predicate CongCoefficients(q: int, p: Poly, g: Poly) {
    |p| == |g| && forall i :: 0 <= i < |p| ==> Cong(q, p[i], g[i])
  }

  lemma {:induction false} EvalCong(q: int, p: Poly, g: Poly, z: int)
    requires CongCoefficients(q, p, g)
    ensures Cong(q, Eval(p, z), Eval(g, z))
  {
    if p == [] {
      CongRefl(q, 0);
    } else {
      EvalCong(q, p[1..], g[1..], z);
      CongScale(q, z, Eval(p[1..], z), Eval(g[1..], z));
      CongAdd(q, p[0], g[0], z * Eval(p[1..], z), z * Eval(g[1..], z));
    }
  }

  lemma ReduceCong(q: int, p: Poly)
    requires q > 0
    ensures CongCoefficients(q, Reduce(q, p), p)
  {
    forall i | 0 <= i < |p|
      ensures Cong(q, Reduce(q, p)[i], p[i])
    {
      CongResidue(q, p[i]);
    }
  }

  ghost predicate Reduced(q: int, p: Poly) {
    forall i :: 0 <= i < |p| ==> 0 <= p[i] < q
  }

  // ----- the polynomial through given points

  /** The product of (z - x) over the points. */
  function Vanishing(xs: seq<int>): (p: Poly)
    ensures |p| == |xs| + 1
  {
    if xs == [] then [1]
    else
      var v := Vanishing(xs[..|xs| - 1]);
      Combine([0] + v, -xs[|xs| - 1], v + [0])
  }

  lemma EvalVanishingStep(xs: seq<int>, z: int)
    requires xs != []
    ensures Eval(Vanishing(xs), z) == (z - xs[|xs| - 1]) * Eval(Vanishing(xs[..|xs| - 1]), z)
  {
    var v, x := Vanishing(xs[..|xs| - 1]), xs[|xs| - 1];
    EvalCombine([0] + v, -x, v + [0], z);
    EvalSnoc(v, 0, z);
    assert ([0] + v)[1..] == v;
    assert Eval([0] + v, z) == z * Eval(v, z);
    assert z * Eval(v, z) + -x * Eval(v, z) == (z - x) * Eval(v, z);
  }

  lemma {:induction false} VanishingZero(xs: seq<int>, i: nat)
    requires i < |xs|
    ensures Eval(Vanishing(xs), xs[i]) == 0
  {
    EvalVanishingStep(xs, xs[i]);
    if i < |xs| - 1 {
      VanishingZero(xs[..|xs| - 1], i);
    }
  }

  lemma {:induction false} VanishingNonzero(q: int, xs: seq<int>, z: int)
    requires IsPrime(q) && forall i :: 0 <= i < |xs| ==> !Cong(q, xs[i], z)
    ensures !Cong(q, Eval(Vanishing(xs), z), 0)
  {
    if xs == [] {
      assert Eval([1], z) == 1 + z * Eval([], z);
      NotCongruent(q, 1, 0);
    } else {
      var n := |xs| - 1;
      VanishingNonzero(q, xs[..n], z);
      EvalVanishingStep(xs, z);
      if Cong(q, Eval(Vanishing(xs), z), 0) {
        NoZeroDivisors(q, z - xs[n], Eval(Vanishing(xs[..n]), z));
        CongRefl(q, xs[n]);
        CongAdd(q, z - xs[n], 0, xs[n], xs[n]);
        CongSym(q, z, xs[n]);
      }
    }
  }

  ghost predicate PassesThrough(q: int, p: Poly, xs: seq<int>, ys: seq<int>)
    requires |xs| == |ys|
  {
    forall i :: 0 <= i < |xs| ==> Cong(q, Eval(p, xs[i]), ys[i])
  }

  /** Newton's construction: one more point costs one more coefficient. */
  lemma {:induction false} Interpolant(q: int, xs: seq<int>, ys: seq<int>) returns (p: Poly)
    requires IsPrime(q) && |xs| == |ys| && DistinctMod(q, xs)
    ensures |p| == |xs| && PassesThrough(q, p, xs, ys)
  {
    if xs == [] {
      p := [];
    } else {
      var n := |xs| - 1;
      var xs', ys', x := xs[..n], ys[..n], xs[n];
      var p' := Interpolant(q, xs', ys');
      var v := Vanishing(xs');
      VanishingNonzero(q, xs', x);
      var inv := PrimeInverseExists(q, Eval(v, x));
      var c := (ys[n] - Eval(p', x)) * inv;
      p := Combine(p' + [0], c, v);
      forall i | 0 <= i < |xs|
        ensures Cong(q, Eval(p, xs[i]), ys[i])
      {
        EvalCombine(p' + [0], c, v, xs[i]);
        EvalSnoc(p', 0, xs[i]);
        if i < n {
          VanishingZero(xs', i);
          assert xs'[i] == xs[i];
          assert c * 0 == 0;
        } else {
          NewtonStep(q, Eval(p', x), ys[n], Eval(v, x), inv);
        }
      }
    }
  }

  lemma NewtonStep(q: int, e: int, y: int, v: int, inv: int)
    requires IsInverse(q, v, inv)
    ensures Cong(q, e + ((y - e) * inv) * v, y)
  {
    CongScale(q, y - e, v * inv, 1);
    assert (y - e) * (v * inv) == ((y - e) * inv) * v;
    CongRefl(q, e);
    CongAdd(q, e, e, ((y - e) * inv) * v, y - e);
  }

  /** Two reduced vectors of one length that agree at as many points are the same vector. */
  lemma InterpolantUnique(q: int, p: Poly, g: Poly, xs: seq<int>)
    requires IsPrime(q) && |p| == |g| == |xs| && DistinctMod(q, xs)
    requires Reduced(q, p) && Reduced(q, g)
    requires forall i :: 0 <= i < |xs| ==> Cong(q, Eval(p, xs[i]), Eval(g, xs[i]))
    ensures p == g
  {
    var d := Combine(p, -1, g);
    forall i | 0 <= i < |xs|
      ensures Cong(q, Eval(d, xs[i]), 0)
    {
      EvalCombine(p, -1, g, xs[i]);
      CongRefl(q, Eval(g, xs[i]));
      CongSub(q, Eval(p, xs[i]), Eval(g, xs[i]), Eval(g, xs[i]), Eval(g, xs[i]));
    }
    RootBound(q, d, xs);
    forall i | 0 <= i < |p|
      ensures p[i] == g[i]
    {
      assert Cong(q, d[i], 0) && d[i] == p[i] - g[i];
      CongRefl(q, g[i]);
      CongAdd(q, d[i], 0, g[i], g[i]);
      CongUnique(q, p[i], g[i]);
    }
  }
}
