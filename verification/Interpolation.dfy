/**
  Lagrange interpolation at zero: lagrangeCoefficient and reconstructSecret of
  packages/crypto/src/vss.ts, and why they recover a constant coefficient.
 */
module Interpolation {
  import opened Prelude
  import opened Modular
  import opened Inverse
  import opened Polynomials

  // ----- numerator, denominator, coefficient

  /** The product of the other indices. */
  function Num(xs: seq<int>, x: int): int {
    if xs == [] then 1
    else
      var n := |xs| - 1;
      if xs[n] == x then Num(xs[..n], x) else Num(xs[..n], x) * xs[n]
  }

  /** The product of the differences to the other indices. */
  function Den(xs: seq<int>, x: int): int {
    if xs == [] then 1
    else
      var n := |xs| - 1;
      if xs[n] == x then Den(xs[..n], x) else Den(xs[..n], x) * (xs[n] - x)
  }

  predicate Distinct<T(==)>(xs: seq<T>) {
    forall i, j :: 0 <= i < j < |xs| ==> xs[i] != xs[j]
  }

  /** The value lagrangeCoefficient returns, or why it throws. */
  ghost function Coefficient(q: int, xs: seq<int>, x: int): Result<int>
    requires q > 0
  {
    if x !in xs then Err(IndexNotInSet)
    else if !Distinct(xs) then Err(DuplicateIndices)
    else
      var inv :- InverseOf(q, Den(xs, x));
      Ok(TruncMod(Num(xs, x) * inv, q))
  }

  // ----- the loop reduces as it goes; the result is as if reduced once

  lemma TruncModTimes(q: int, a: int, b: int)
    requires q > 0
    ensures TruncMod(TruncMod(a, q) * b, q) == TruncMod(a * b, q)
  {
    hide Cong, TruncMod;
    var t := TruncMod(a, q);
    CongTruncMod(q, a);
    CongScale(q, b, t, a);
    assert t * b == b * t && a * b == b * a;
    CongTruncMod(q, t * b);
    CongTruncMod(q, a * b);
    CongTrans(q, TruncMod(t * b, q), t * b, a * b);
    CongSym(q, TruncMod(a * b, q), a * b);
    CongTrans(q, TruncMod(t * b, q), a * b, TruncMod(a * b, q));
    SameSign(a, t, b);
    CongUniqueSigned(q, TruncMod(t * b, q), TruncMod(a * b, q));
  }

  lemma SameSign(a: int, t: int, b: int)
    requires a >= 0 ==> t >= 0
    requires a <= 0 ==> t <= 0
    ensures (t * b >= 0 && a * b >= 0) || (t * b <= 0 && a * b <= 0)
  {}

  lemma CongUniqueSigned(q: int, a: int, b: int)
    requires q > 0 && Cong(q, a, b)
    requires (0 <= a < q && 0 <= b < q) || (-q < a <= 0 && -q < b <= 0)
    ensures a == b
  {
    hide *;
    var k := CongElim(q, a, b);
    SmallMultiple(q, k);
  }

  lemma InverseOfCong(q: int, a: int, b: int)
    requires q > 0 && Cong(q, a, b)
    ensures InverseOf(q, a) == InverseOf(q, b)
  {
    hide Cong;
    forall v
      ensures IsInverse(q, a, v) <==> IsInverse(q, b, v)
    {
      CongScale(q, v, a, b);
      assert v * a == a * v && v * b == b * v;
      CongSym(q, a * v, b * v);
      if IsInverse(q, a, v) {
        CongTrans(q, b * v, a * v, 1);
      }
      if IsInverse(q, b, v) {
        CongTrans(q, a * v, b * v, 1);
      }
    }
    if InverseOf(q, a).Ok? {
      InverseUnique(q, a, InverseOf(q, a).value, InverseOf(q, b).value);
    }
  }

  lemma DifferenceStep(q: int, d: int, den: int, j: int, x: int)
    requires q > 0 && Cong(q, d, den)
    ensures Cong(q, TruncMod(d * TruncMod(j - x + q, q), q), den * (j - x))
  {
    hide *;
    var diff := TruncMod(j - x + q, q);
    CongTruncMod(q, j - x + q);
    CongIntro(q, j - x + q, j - x, 1);
    CongTrans(q, diff, j - x + q, j - x);
    CongMul(q, d, den, diff, j - x);
    CongTruncMod(q, d * diff);
    CongTrans(q, TruncMod(d * diff, q), d * diff, den * (j - x));
  }

  /** lagrangeCoefficient. */
  method LagrangeCoefficient(q: int, indices: seq<int>, index: int) returns (res: Result<int>)
    requires q >= 2
    ensures res == Coefficient(q, indices, index)
  {
    hide Cong, TruncMod, InverseOf;
    if index !in indices {
      return Err(IndexNotInSet);
    }
    if !Distinct(indices) {
      return Err(DuplicateIndices);
    }
    var numerator, denominator := 1, 1;
    ghost var rawNumerator := 1;
    CongRefl(q, 1);
    TruncModOne(q);
    for k := 0 to |indices|
      invariant numerator == TruncMod(Num(indices[..k], index), q)
      invariant Cong(q, denominator, Den(indices[..k], index))
    {
      var j := indices[k];
      assert indices[..k + 1][..k] == indices[..k];
      if j != index {
        TruncModTimes(q, Num(indices[..k], index), j);
        DifferenceStep(q, denominator, Den(indices[..k], index), j, index);
        numerator := TruncMod(numerator * j, q);
        var diff := TruncMod(j - index + q, q);
        denominator := TruncMod(denominator * diff, q);
      }
    }
    assert indices[..|indices|] == indices;
    InverseOfCong(q, denominator, Den(indices, index));
    var inv :- InvModSubOrder(q, denominator);
    TruncModTimes(q, Num(indices, index), inv);
    return Ok(TruncMod(numerator * inv, q));
  }

  lemma TruncModOne(q: int)
    requires q >= 2
    ensures TruncMod(1, q) == 1
  {}

  // ----- when the coefficient exists, and the equation it solves

  /** Nothing else in xs is congruent to x. */
  ghost predicate Separated(q: int, xs: seq<int>, x: int) {
    forall i :: 0 <= i < |xs| && xs[i] != x ==> !Cong(q, xs[i], x)
  }

  lemma {:induction false} DenZeroIff(q: int, xs: seq<int>, x: int)
    requires IsPrime(q)
    ensures Cong(q, Den(xs, x), 0) <==> !Separated(q, xs, x)
  {
    if xs == [] {
      NotCongruent(q, 1, 0);
    } else {
      var n := |xs| - 1;
      DenZeroIff(q, xs[..n], x);
      if xs[n] == x {
        assert Separated(q, xs, x) <==> Separated(q, xs[..n], x);
      } else {
        CongMinus(q, xs[n], x);
        ProductZeroIff(q, Den(xs[..n], x), xs[n] - x);
        assert Separated(q, xs, x) <==> Separated(q, xs[..n], x) && !Cong(q, xs[n], x);
      }
    }
  }

  lemma CongMinus(q: int, a: int, b: int)
    ensures Cong(q, a - b, 0) <==> Cong(q, a, b)
  {
    assert a - b - 0 == a - b;
  }

  lemma ProductZeroIff(q: int, a: int, b: int)
    requires IsPrime(q)
    ensures Cong(q, a * b, 0) <==> Cong(q, a, 0) || Cong(q, b, 0)
  {
    hide Cong;
    if Cong(q, a, 0) {
      CongScale(q, b, a, 0);
      assert b * a == a * b;
    } else if Cong(q, b, 0) {
      CongScale(q, a, b, 0);
    } else if Cong(q, a * b, 0) {
      NoZeroDivisors(q, a, b);
    }
  }

  /** lagrangeCoefficient succeeds on exactly the members of index sets separated modulo the prime. */
  lemma CoefficientDefinedIff(q: int, xs: seq<int>, x: int)
    requires IsPrime(q)
    ensures Coefficient(q, xs, x).Ok? <==> x in xs && Distinct(xs) && Separated(q, xs, x)
  {
    DenZeroIff(q, xs, x);
    InverseOfPrime(q, Den(xs, x));
  }

  /** Which check refuses: membership first, then duplicates, then the inverse. */
  lemma CoefficientRefusals(q: int, xs: seq<int>, x: int)
    requires IsPrime(q)
    ensures Coefficient(q, xs, x) == Err(IndexNotInSet) <==> x !in xs
    ensures Coefficient(q, xs, x) == Err(DuplicateIndices) <==> x in xs && !Distinct(xs)
    ensures Coefficient(q, xs, x) == Err(NotInvertible) <==> x in xs && Distinct(xs) && !Separated(q, xs, x)
  {
    CoefficientDefinedIff(q, xs, x);
  }

  lemma AllCoefficientsDefinedIff(q: int, xs: seq<int>)
    requires IsPrime(q)
    ensures (forall i :: 0 <= i < |xs| ==> Coefficient(q, xs, xs[i]).Ok?) <==> DistinctMod(q, xs)
  {
    hide Coefficient, Cong;
    forall i | 0 <= i < |xs| {
      CoefficientDefinedIff(q, xs, xs[i]);
    }
    if DistinctMod(q, xs) {
      DistinctModSeparates(q, xs);
    } else {
      var i, j :| 0 <= i < j < |xs| && Cong(q, xs[i], xs[j]);
      assert !Coefficient(q, xs, xs[j]).Ok?;
    }
  }

  lemma DistinctModSeparates(q: int, xs: seq<int>)
    requires DistinctMod(q, xs)
    ensures Distinct(xs)
    ensures forall i :: 0 <= i < |xs| ==> Separated(q, xs, xs[i])
  {
    hide Cong;
    forall i, j | 0 <= i < |xs| && 0 <= j < |xs| && xs[i] != xs[j]
      ensures !Cong(q, xs[i], xs[j])
    {
      if i > j && Cong(q, xs[i], xs[j]) {
        CongSym(q, xs[i], xs[j]);
      }
    }
    forall i | 0 <= i < |xs| {
      CongRefl(q, xs[i]);
    }
  }

  /** The coefficient as a number; its value matters only where it is defined. */
  ghost function Weight(q: int, xs: seq<int>, x: int): int
    requires q > 0
  {
    var c := Coefficient(q, xs, x);
    if c.Ok? then c.value else 0
  }

  /** The defining equation of the coefficient, free of division. */
  lemma WeightEquation(q: int, xs: seq<int>, x: int)
    requires IsPrime(q) && x in xs && Distinct(xs) && Separated(q, xs, x)
    ensures Cong(q, Weight(q, xs, x) * Den(xs, x), Num(xs, x))
    ensures !Cong(q, Den(xs, x), 0)
  {
    hide Cong, TruncMod;
    DenZeroIff(q, xs, x);
    CoefficientDefinedIff(q, xs, x);
    var d, m, inv := Den(xs, x), Num(xs, x), InverseOf(q, Den(xs, x)).value;
    CongTruncMod(q, m * inv);
    CongScale(q, d, TruncMod(m * inv, q), m * inv);
    CongScale(q, m, d * inv, 1);
    assert d * (m * inv) == m * (d * inv);
    assert d * TruncMod(m * inv, q) == TruncMod(m * inv, q) * d;
    CongTrans(q, d * TruncMod(m * inv, q), m * (d * inv), m * 1);
  }

  /** Dropping the index r changes the coefficient of x by the factor r / (r - x). */
  lemma WeightWithout(q: int, xs: seq<int>, ys: seq<int>, r: int, x: int)
    requires IsPrime(q) && x in ys && x in xs && Distinct(xs) && Distinct(ys)
    requires Separated(q, xs, x) && Separated(q, ys, x)
    requires Num(xs, x) == Num(ys, x) * r && Den(xs, x) == Den(ys, x) * (r - x)
    ensures Cong(q, (r - x) * Weight(q, xs, x), r * Weight(q, ys, x))
  {
    hide Cong, Weight, Num, Den, Separated, Distinct;
    var w, w', d, m := Weight(q, xs, x), Weight(q, ys, x), Den(ys, x), Num(ys, x);
    WeightEquation(q, xs, x);
    WeightEquation(q, ys, x);
    CongScale(q, r, w' * d, m);
    CongSym(q, r * (w' * d), r * m);
    assert r * m == m * r;
    CongTrans(q, w * (d * (r - x)), m * r, r * (w' * d));
    assert w * (d * (r - x)) == d * ((r - x) * w);
    assert r * (w' * d) == d * (r * w');
    CongCancel(q, d, (r - x) * w, r * w');
  }

  lemma {:induction false} ConsFactor(xs: seq<int>, r: int, x: int)
    requires r != x
    ensures Num([r] + xs, x) == Num(xs, x) * r
    ensures Den([r] + xs, x) == Den(xs, x) * (r - x)
  {
    var s := [r] + xs;
    var n := |s| - 1;
    if xs == [] {
      assert s == [r] && s[..0] == [];
    } else {
      assert s[..n] == [r] + xs[..n - 1] && s[n] == xs[n - 1];
      ConsFactor(xs[..n - 1], r, x);
      SwapFactors(Num(xs[..n - 1], x), r, xs[n - 1]);
      SwapFactors(Den(xs[..n - 1], x), r - x, xs[n - 1] - x);
    }
  }

  lemma SwapFactors(a: int, b: int, c: int)
    ensures a * b * c == a * c * b
  {}

  /** w is r / (r - x) times u, free of division. */
  ghost predicate Ratio(q: int, r: int, x: int, w: int, u: int) {
    Cong(q, (r - x) * w, r * u)
  }

  /** The two instances used: dropping the last index, and dropping the first. */
  lemma WeightWithoutLast(q: int, xs: seq<int>, i: nat)
    requires IsPrime(q) && DistinctMod(q, xs) && i < |xs| - 1
    ensures var n := |xs| - 1;
            Ratio(q, xs[n], xs[i], Weight(q, xs, xs[i]), Weight(q, xs[..n], xs[i]))
  {
    hide Cong, Weight;
    var n := |xs| - 1;
    var ys := xs[..n];
    DistinctModSeparates(q, xs);
    DistinctModSeparates(q, ys);
    assert ys[i] == xs[i] && xs[n] != xs[i];
    WeightWithout(q, xs, ys, xs[n], xs[i]);
  }

  lemma WeightWithoutFirst(q: int, xs: seq<int>, i: nat)
    requires IsPrime(q) && DistinctMod(q, xs) && 0 < i < |xs|
    ensures Ratio(q, xs[0], xs[i], Weight(q, xs, xs[i]), Weight(q, xs[1..], xs[i]))
  {
    hide Cong, Weight;
    var ys := xs[1..];
    DistinctModSeparates(q, xs);
    DistinctModSeparates(q, ys);
    assert ys[i - 1] == xs[i] && xs[0] != xs[i];
    assert xs == [xs[0]] + ys;
    ConsFactor(ys, xs[0], xs[i]);
    WeightWithout(q, xs, ys, xs[0], xs[i]);
  }

  // ----- weighted sums

  ghost function Weights(q: int, xs: seq<int>): (ws: seq<int>)
    requires q > 0
    ensures |ws| == |xs|
    ensures forall i :: 0 <= i < |xs| ==> ws[i] == Weight(q, xs, xs[i])
  {
    seq(|xs|, i requires 0 <= i < |xs| => Weight(q, xs, xs[i]))
  }

  /** The first k terms of the sum of ws[i] * vs[i]. */
  function Dot(ws: seq<int>, vs: seq<int>, k: nat): int
    requires k <= |ws| && k <= |vs|
  {
    if k == 0 then 0 else Dot(ws, vs, k - 1) + vs[k - 1] * ws[k - 1]
  }

  function Sum(ws: seq<int>, k: nat): int
    requires k <= |ws|
  {
    if k == 0 then 0 else Sum(ws, k - 1) + ws[k - 1]
  }

  lemma SumStart(ws: seq<int>)
    requires ws != []
    ensures Sum(ws, 1) == ws[0]
  {}

  /** Neville's recurrence between a sum over all indices and those without the last and the first. */
  ghost predicate Neville(q: int, a: int, b: int, s: int, u: int, v: int) {
    Cong(q, (b - a) * s, b * u - a * v)
  }

  lemma {:induction false} NevillePrefix(q: int, xs: seq<int>, k: nat)
    requires IsPrime(q) && DistinctMod(q, xs) && 1 <= k < |xs|
    ensures var n := |xs| - 1;
            Neville(q, xs[0], xs[n], Sum(Weights(q, xs), k), Sum(Weights(q, xs[..n]), k), Sum(Weights(q, xs[1..]), k - 1))
  {
    hide Cong, Weight, Neville, Ratio, DistinctMod;
    var n := |xs| - 1;
    var ws, us, vs := Weights(q, xs), Weights(q, xs[..n]), Weights(q, xs[1..]);
    var a, b := xs[0], xs[n];
    WeightWithoutLast(q, xs, k - 1);
    assert us[k - 1] == Weight(q, xs[..n], xs[k - 1]);
    if k == 1 {
      NevilleStart(q, a, b, ws[0], us[0]);
      SumStart(ws);
      SumStart(us);
    } else {
      NevillePrefix(q, xs, k - 1);
      WeightWithoutFirst(q, xs, k - 1);
      assert vs[k - 2] == Weight(q, xs[1..], xs[k - 1]);
      NevilleTerm(q, a, b, xs[k - 1], ws[k - 1], us[k - 1], vs[k - 2]);
      NevilleAdd(q, a, b, Sum(ws, k - 1), Sum(us, k - 1), Sum(vs, k - 2), ws[k - 1], us[k - 1], vs[k - 2]);
    }
  }

  lemma NevilleStart(q: int, a: int, b: int, w: int, u: int)
    requires Ratio(q, b, a, w, u)
    ensures Neville(q, a, b, w, u, 0)
  {
    hide Cong;
    assert a * 0 == 0;
  }

  lemma NevilleTerm(q: int, a: int, b: int, x: int, w: int, u: int, v: int)
    requires Ratio(q, b, x, w, u) && Ratio(q, a, x, w, v)
    ensures Neville(q, a, b, w, u, v)
  {
    hide Cong;
    CongSub(q, (b - x) * w, b * u, (a - x) * w, a * v);
    assert (b - x) * w - (a - x) * w == (b - a) * w;
  }

  lemma NevilleAdd(q: int, a: int, b: int, sw: int, su: int, sv: int, w: int, u: int, v: int)
    requires Neville(q, a, b, sw, su, sv) && Neville(q, a, b, w, u, v)
    ensures Neville(q, a, b, sw + w, su + u, sv + v)
  {
    hide Cong;
    CongAdd(q, (b - a) * sw, b * su - a * sv, (b - a) * w, b * u - a * v);
    assert (b - a) * sw + (b - a) * w == (b - a) * (sw + w);
    assert b * su - a * sv + (b * u - a * v) == b * (su + u) - a * (sv + v);
  }

  /** The coefficients at zero sum to one, over any index set. */
  lemma {:induction false} WeightsSumToOne(q: int, xs: seq<int>)
    requires IsPrime(q) && DistinctMod(q, xs) && xs != []
    ensures Cong(q, Sum(Weights(q, xs), |xs|), 1)
    decreases |xs|
  {
    hide Cong, Weight, Neville, Ratio;
    var n := |xs| - 1;
    var ws := Weights(q, xs);
    if n == 0 {
      SingleWeight(q, xs);
      SumStart(ws);
    } else {
      var us, vs := Weights(q, xs[..n]), Weights(q, xs[1..]);
      var a, b := xs[0], xs[n];
      WeightsSumToOne(q, xs[..n]);
      WeightsSumToOne(q, xs[1..]);
      NevillePrefix(q, xs, n);
      WeightWithoutFirst(q, xs, n);
      assert vs[n - 1] == Weight(q, xs[1..], b);
      NevilleLast(q, a, b, Sum(ws, n), Sum(us, n), Sum(vs, n - 1), ws[n], vs[n - 1]);
      assert Sum(vs, n) == Sum(vs, n - 1) + vs[n - 1];
      NevilleClose(q, a, b, Sum(ws, n + 1), Sum(us, n), Sum(vs, n));
    }
  }

  lemma NevilleLast(q: int, a: int, b: int, sw: int, su: int, sv: int, w: int, v: int)
    requires Neville(q, a, b, sw, su, sv) && Ratio(q, a, b, w, v)
    ensures Neville(q, a, b, sw + w, su, sv + v)
  {
    hide Cong;
    CongSub(q, (b - a) * sw, b * su - a * sv, (a - b) * w, a * v);
    assert (b - a) * sw - (a - b) * w == (b - a) * (sw + w) by {
      assert (a - b) * w == -((b - a) * w);
    }
    assert a * (sv + v) == a * sv + a * v;
  }

  lemma NevilleClose(q: int, a: int, b: int, s: int, su: int, sv: int)
    requires IsPrime(q) && !Cong(q, a, b)
    requires Neville(q, a, b, s, su, sv) && Cong(q, su, 1) && Cong(q, sv, 1)
    ensures Cong(q, s, 1)
  {
    hide Cong, IsPrime;
    CongScale(q, b, su, 1);
    CongScale(q, a, sv, 1);
    CongSub(q, b * su, b * 1, a * sv, a * 1);
    CongTrans(q, (b - a) * s, b * su - a * sv, b * 1 - a * 1);
    assert b * 1 - a * 1 == (b - a) * 1;
    CongMinus(q, b, a);
    if Cong(q, b, a) {
      CongSym(q, b, a);
    }
    CongCancel(q, b - a, s, 1);
  }

  lemma SingleWeight(q: int, xs: seq<int>)
    requires IsPrime(q) && |xs| == 1
    ensures Cong(q, Weight(q, xs, xs[0]), 1)
  {
    hide Cong, Weight;
    assert xs[..0] == [];
    assert Num([], xs[0]) == 1 && Den([], xs[0]) == 1;
    assert xs[|xs| - 1] == xs[0];
    assert Num(xs, xs[0]) == 1;
    assert Den(xs, xs[0]) == 1;
    assert Separated(q, xs, xs[0]);
    WeightEquation(q, xs, xs[0]);
    assert Weight(q, xs, xs[0]) * 1 == Weight(q, xs, xs[0]);
  }

  // ----- interpolation

  function Values(f: Poly, xs: seq<int>): (vs: seq<int>)
    ensures |vs| == |xs|
    ensures forall i :: 0 <= i < |xs| ==> vs[i] == Eval(f, xs[i])
  {
    seq(|xs|, i requires 0 <= i < |xs| => Eval(f, xs[i]))
  }

  /** Dividing f by (z - r), r the last index, splits its weighted sum in two. */
  lemma {:induction false} SplitSum(q: int, f: Poly, xs: seq<int>, k: nat)
    requires IsPrime(q) && DistinctMod(q, xs) && k < |xs|
    ensures var n := |xs| - 1;
            var r := xs[n];
            Cong(q, Dot(Weights(q, xs), Values(f, xs), k),
                    Eval(f, r) * Sum(Weights(q, xs), k)
                    - r * Dot(Weights(q, xs[..n]), Values(Quot(f, r), xs[..n]), k))
  {
    hide Cong, Weight;
    var n := |xs| - 1;
    var r, ys := xs[n], xs[..n];
    if k == 0 {
      CongRefl(q, 0);
      assert Eval(f, r) * 0 - r * 0 == 0;
    } else {
      var x, w, u := xs[k - 1], Weights(q, xs)[k - 1], Weights(q, ys)[k - 1];
      assert ys[k - 1] == x;
      SplitSum(q, f, xs, k - 1);
      WeightWithoutLast(q, xs, k - 1);
      Division(f, r, x);
      SplitTerm(q, r, x, Eval(f, x), Eval(f, r), Eval(Quot(f, r), x), w, u);
      SplitAdd(q, Eval(f, r), r,
               Dot(Weights(q, xs), Values(f, xs), k - 1), Sum(Weights(q, xs), k - 1),
               Dot(Weights(q, ys), Values(Quot(f, r), ys), k - 1),
               Eval(f, x) * w, w, Eval(Quot(f, r), x) * u);
    }
  }

  lemma SplitTerm(q: int, r: int, x: int, fx: int, fr: int, g: int, w: int, u: int)
    requires fx - fr == (x - r) * g && Ratio(q, r, x, w, u)
    ensures Cong(q, fx * w, fr * w - r * (g * u))
  {
    hide Cong;
    CongScale(q, g, (r - x) * w, r * u);
    CongRefl(q, fr * w);
    CongSub(q, fr * w, fr * w, g * ((r - x) * w), g * (r * u));
    calc {
      fr * w - g * ((r - x) * w);
      (fr + (x - r) * g) * w;
      fx * w;
    }
    assert g * (r * u) == r * (g * u);
  }

  lemma SplitAdd(q: int, c: int, r: int, d: int, s: int, e: int, t: int, w: int, v: int)
    requires Cong(q, d, c * s - r * e) && Cong(q, t, c * w - r * v)
    ensures Cong(q, d + t, c * (s + w) - r * (e + v))
  {
    hide *;
    CongAdd(q, d, c * s - r * e, t, c * w - r * v);
    assert c * s - r * e + (c * w - r * v) == c * (s + w) - r * (e + v);
  }

  /**
    The interpolation theorem: with at least as many indices as coefficients,
    in any order, the weighted sum of the values of f is f at zero.
   */
  lemma {:induction false} InterpolatesAtZero(q: int, f: Poly, xs: seq<int>)
    requires IsPrime(q) && DistinctMod(q, xs) && |f| <= |xs|
    ensures Cong(q, Dot(Weights(q, xs), Values(f, xs), |xs|), Eval(f, 0))
    decreases |xs|
  {
    hide Cong, Weight;
    if xs == [] {
      CongRefl(q, 0);
    } else {
      var n := |xs| - 1;
      var r, ys, g := xs[n], xs[..n], Quot(f, xs[n]);
      var ws := Weights(q, xs);
      InterpolatesAtZero(q, g, ys);
      SplitSum(q, f, xs, n);
      WeightsSumToOne(q, xs);
      Division(f, r, 0);
      CloseSum(q, r, Eval(f, r), Eval(f, 0), Eval(g, 0),
               Dot(ws, Values(f, xs), n), Sum(ws, n), ws[n], Dot(Weights(q, ys), Values(g, ys), n));
      assert Values(f, xs)[n] == Eval(f, r);
    }
  }

  lemma CloseSum(q: int, r: int, fr: int, f0: int, g0: int, d: int, s: int, w: int, e: int)
    requires f0 - fr == (0 - r) * g0
    requires Cong(q, d, fr * s - r * e) && Cong(q, s + w, 1) && Cong(q, e, g0)
    ensures Cong(q, d + fr * w, f0)
  {
    hide *;
    CongRefl(q, fr * w);
    CongAdd(q, d, fr * s - r * e, fr * w, fr * w);
    CongScale(q, fr, s + w, 1);
    CongScale(q, r, e, g0);
    CongSub(q, fr * (s + w), fr * 1, r * e, r * g0);
    assert fr * s - r * e + fr * w == fr * (s + w) - r * e;
    assert fr * 1 - r * g0 == f0;
    CongTrans(q, d + fr * w, fr * (s + w) - r * e, f0);
  }
}
