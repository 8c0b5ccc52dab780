/**
  Below the threshold the shares say nothing about the secret: every candidate
  secret is explained by exactly one dealing (packages/crypto/src/vss.ts:111-140).
  This is about the shares: the published commitments and the public key do fix
  the secret, in the exponent.
 */
module Hiding {
  import opened Modular
  import opened Polynomials
  import opened CurveGroup
  import opened Dealing

  /** The dealer's coefficient vectors: reduced, of length t, with the given constant term. */
  ghost predicate CouldHaveDealt(q: int, t: nat, secret: int, a: Poly) {
    |a| == t && t > 0 && Reduced(q, a) && a[0] == secret
  }

  /** The dealer's own evaluation gives these members these values. */
  ghost predicate Yields(q: int, a: Poly, members: seq<int>, values: seq<int>)
    requires q > 0 && |members| == |values|
  {
    forall i :: 0 <= i < |members| ==> EvalMod(q, a, members[i]) == values[i]
  }

  ghost predicate Coalition(q: int, members: seq<int>, values: seq<int>) {
    && |members| == |values|
    && DistinctMod(q, [0] + members)
    && (forall i :: 0 <= i < |members| ==> members[i] >= 0)
    && (forall i :: 0 <= i < |values| ==> 0 <= values[i] < q)
  }

  lemma ReducedIsNonnegative(q: int, a: Poly)
    requires Reduced(q, a)
    ensures Nonnegative(a)
  {}

  /** Some dealing of this secret hands the coalition these values. */
  lemma ExplainingDealing(q: int, members: seq<int>, values: seq<int>, secret: int) returns (a: Poly)
    requires IsPrime(q) && Coalition(q, members, values) && 0 <= secret < q
    ensures CouldHaveDealt(q, |members| + 1, secret, a) && Yields(q, a, members, values)
  {
    hide Cong, DistinctMod, EvalMod;
    var xs, ys := [0] + members, [secret] + values;
    var p := Interpolant(q, xs, ys);
    a := Reduce(q, p);
    ReduceCong(q, p);
    ReducedIsNonnegative(q, a);
    forall i | 0 <= i < |xs|
      ensures Cong(q, Eval(a, xs[i]), ys[i])
    {
      EvalCong(q, a, p, xs[i]);
      CongTrans(q, Eval(a, xs[i]), Eval(p, xs[i]), ys[i]);
    }
    EvalAtZero(a);
    assert xs[0] == 0 && ys[0] == secret;
    CongUnique(q, a[0], secret);
    forall i | 0 <= i < |members|
      ensures EvalMod(q, a, members[i]) == values[i]
    {
      assert xs[i + 1] == members[i] && ys[i + 1] == values[i];
      EvalModResidue(q, a, members[i]);
      CongIffResidue(q, Eval(a, members[i]), values[i]);
      SmallModulus(values[i], q);
    }
  }

  /** And no other dealing of this secret does. */
  lemma ExplanationUnique(q: int, members: seq<int>, values: seq<int>, secret: int, a: Poly, b: Poly)
    requires IsPrime(q) && Coalition(q, members, values)
    requires CouldHaveDealt(q, |members| + 1, secret, a) && Yields(q, a, members, values)
    requires CouldHaveDealt(q, |members| + 1, secret, b) && Yields(q, b, members, values)
    ensures a == b
  {
    hide Cong, DistinctMod, EvalMod;
    var xs := [0] + members;
    EvalAtZero(a);
    EvalAtZero(b);
    forall i | 0 <= i < |xs|
      ensures Cong(q, Eval(a, xs[i]), Eval(b, xs[i]))
    {
      if i == 0 {
        CongRefl(q, secret);
      } else {
        var m := members[i - 1];
        EvalModIsEval(q, a, m);
        EvalModIsEval(q, b, m);
        CongSym(q, EvalMod(q, a, m), Eval(a, m));
        CongTrans(q, Eval(a, m), EvalMod(q, a, m), Eval(b, m));
      }
    }
    InterpolantUnique(q, a, b, xs);
  }

  /**
    Perfect hiding below the threshold: for any t - 1 members, any values they
    may hold, and any candidate secret, exactly one dealing fits.
   */
  lemma PerfectHiding(q: int, members: seq<int>, values: seq<int>, secret: int)
    requires IsPrime(q) && Coalition(q, members, values) && 0 <= secret < q
    ensures exists a ::
              && CouldHaveDealt(q, |members| + 1, secret, a) && Yields(q, a, members, values)
              && forall b :: CouldHaveDealt(q, |members| + 1, secret, b) && Yields(q, b, members, values) ==> b == a
  {
    hide Cong, EvalMod, Coalition, CouldHaveDealt, Yields;
    CoalitionSizes(q, members, values);
    var a := ExplainingDealing(q, members, values, secret);
    forall b | CouldHaveDealt(q, |members| + 1, secret, b) && Yields(q, b, members, values)
      ensures b == a
    {
      ExplanationUnique(q, members, values, secret, a, b);
    }
  }

  lemma CoalitionSizes(q: int, members: seq<int>, values: seq<int>)
    requires Coalition(q, members, values)
    ensures |members| == |values|
  {}

  /**
    In terms of dealings: whatever t - 1 shares of one dealing are, a dealing of
    any other secret in [1, q) has the same shares for those members, their own
    public shares included. The two dealings differ in their commitments.
   */
  lemma SharesDoNotDetermineSecret(c: Curve, a: Poly, members: seq<int>, secret: int) returns (b: Poly)
    requires Lawful(c) && Nonnegative(a) && |a| == |members| + 1 && 0 < secret < c.q
    requires forall i :: 0 <= i < |members| ==> 1 <= members[i] < c.q
    requires forall i, j :: 0 <= i < j < |members| ==> members[i] != members[j]
    ensures |b| == |a| && Reduced(c.q, b) && b[0] == secret
    ensures Nonnegative(b)
    ensures forall i :: 0 <= i < |members| ==> DealtShare(c, b, members[i]) == DealtShare(c, a, members[i])
  {
    hide Cong, EvalMod, Mul, Lawful;
    LawfulPrime(c);
    var values := seq(|members|, i requires 0 <= i < |members| => EvalMod(c.q, a, members[i]));
    forall i | 0 <= i < |members|
      ensures 0 <= values[i] < c.q
    {
      EvalModResidue(c.q, a, members[i]);
    }
    var xs := [0] + members;
    forall i, j | 0 <= i < j < |xs|
      ensures !Cong(c.q, xs[i], xs[j])
    {
      NotCongruent(c.q, xs[i], xs[j]);
    }
    b := ExplainingDealing(c.q, members, values, secret);
    ReducedIsNonnegative(c.q, b);
  }

  // ----- fewer members still

  /** What a vector without its top coefficient has to yield. */
  function Shifted(q: int, members: seq<int>, values: seq<int>, top: int, n: nat): (vs: seq<int>)
    requires q > 0 && |members| == |values|
    ensures |vs| == |values|
    ensures forall i :: 0 <= i < |vs| ==> vs[i] == (values[i] - Pow(members[i], n) * top) % q
  {
    seq(|values|, i requires 0 <= i < |values| => (values[i] - Pow(members[i], n) * top) % q)
  }

  lemma ShiftedValue(q: int, b: Poly, top: int, m: int, v: int)
    requires q > 0 && Reduced(q, b) && 0 <= top < q && m >= 0 && 0 <= v < q
    ensures EvalMod(q, b + [top], m) == v <==> EvalMod(q, b, m) == (v - Pow(m, |b|) * top) % q
  {
    hide Cong, EvalMod, Eval, Pow;
    var e, x := Eval(b, m), Pow(m, |b|) * top;
    EvalSnoc(b, top, m);
    EvalModResidue(q, b + [top], m);
    EvalModResidue(q, b, m);
    CongIffResidue(q, e + x, v);
    CongIffResidue(q, e, v - x);
    SmallModulus(v, q);
    CongRefl(q, x);
    if Cong(q, e + x, v) {
      CongSub(q, e + x, v, x, x);
    }
    if Cong(q, e, v - x) {
      CongAdd(q, e, v - x, x, x);
    }
  }

  /** Taking the top coefficient off an explanation of the values. */
  lemma TopOff(q: int, t: nat, members: seq<int>, values: seq<int>, secret: int, b: Poly, top: int)
    requires q > 0 && t > 0 && Coalition(q, members, values) && 0 <= top < q
    ensures CouldHaveDealt(q, t + 1, secret, b + [top]) && Yields(q, b + [top], members, values)
            <==> CouldHaveDealt(q, t, secret, b) && Yields(q, b, members, Shifted(q, members, values, top, t))
  {
    hide EvalMod, DistinctMod, Pow;
    if |b| == t {
      assert Reduced(q, b + [top]) <==> Reduced(q, b) by {
        assert forall i :: 0 <= i < t ==> (b + [top])[i] == b[i];
      }
      if Reduced(q, b) {
        forall i | 0 <= i < |members|
          ensures EvalMod(q, b + [top], members[i]) == values[i]
                  <==> EvalMod(q, b, members[i]) == Shifted(q, members, values, top, t)[i]
        {
          ShiftedValue(q, b, top, members[i], values[i]);
        }
      }
    }
  }

  lemma ShiftedCoalition(q: int, members: seq<int>, values: seq<int>, top: int, n: nat)
    requires q > 0 && Coalition(q, members, values)
    ensures Coalition(q, members, Shifted(q, members, values, top, n))
  {
    hide DistinctMod, Pow;
  }

  /** A list of exactly the vectors that explain the values, each once. */
  ghost predicate ListsExplanations(q: int, t: nat, members: seq<int>, values: seq<int>, secret: int, all: seq<Poly>)
    requires q > 0 && |members| == |values|
  {
    && (forall i, j :: 0 <= i < j < |all| ==> all[i] != all[j])
    && (forall b :: b in all <==> CouldHaveDealt(q, t, secret, b) && Yields(q, b, members, values))
  }

  /** The same with the top coefficient below n. */
  ghost predicate ListsBelow(q: int, t: nat, members: seq<int>, values: seq<int>, secret: int, n: int, all: seq<Poly>)
    requires q > 0 && t > 0 && |members| == |values|
  {
    && (forall i, j :: 0 <= i < j < |all| ==> all[i] != all[j])
    && (forall b :: b in all <==>
                      CouldHaveDealt(q, t, secret, b) && Yields(q, b, members, values) && b[t - 1] < n)
  }

  function WithTop(bs: seq<Poly>, top: int): (all: seq<Poly>)
    ensures |all| == |bs| && forall i :: 0 <= i < |all| ==> all[i] == bs[i] + [top]
  {
    seq(|bs|, i requires 0 <= i < |bs| => bs[i] + [top])
  }

  lemma WithTopHolds(bs: seq<Poly>, top: int, b: Poly)
    ensures b in WithTop(bs, top) <==> b != [] && b[|b| - 1] == top && b[..|b| - 1] in bs
  {
    var all := WithTop(bs, top);
    if b in all {
      var i :| 0 <= i < |all| && all[i] == b;
      assert b[..|b| - 1] == bs[i];
    }
    if b != [] && b[|b| - 1] == top && b[..|b| - 1] in bs {
      var i :| 0 <= i < |bs| && bs[i] == b[..|b| - 1];
      assert all[i] == b;
    }
  }

  lemma AddBlock(q: int, t: nat, members: seq<int>, values: seq<int>, secret: int, n: int, all: seq<Poly>, bs: seq<Poly>)
    requires q > 0 && t > 0 && Coalition(q, members, values) && 0 <= n < q
    requires ListsBelow(q, t + 1, members, values, secret, n, all)
    requires ListsExplanations(q, t, members, Shifted(q, members, values, n, t), secret, bs)
    ensures ListsBelow(q, t + 1, members, values, secret, n + 1, all + WithTop(bs, n))
  {
    hide Yields, Coalition;
    CoalitionSizes(q, members, values);
    var block := WithTop(bs, n);
    var more := all + block;
    forall i, j | 0 <= i < j < |more|
      ensures more[i] != more[j]
    {
      if i < |all| <= j {
        assert all[i] in all && more[j] == block[j - |all|];
        assert all[i][t] < n && more[j][|more[j]| - 1] == n;
      } else if i >= |all| {
        var u, w := bs[i - |all|], bs[j - |all|];
        assert more[i] == u + [n] && more[j] == w + [n];
        assert (u + [n])[..|u|] == u && (w + [n])[..|w|] == w;
      }
    }
    forall b
      ensures b in more <==>
              CouldHaveDealt(q, t + 1, secret, b) && Yields(q, b, members, values) && b[t] < n + 1
    {
      WithTopHolds(bs, n, b);
      if b != [] && b[|b| - 1] == n {
        assert b == b[..|b| - 1] + [n];
        TopOff(q, t, members, values, secret, b[..|b| - 1], n);
      }
    }
  }

  /**
    Counting: k members and any values they may hold are explained by exactly
    q^(t - 1 - k) dealings of every candidate secret.
   */
  lemma {:induction false} CountExplanations(q: int, t: nat, members: seq<int>, values: seq<int>, secret: int)
    returns (all: seq<Poly>)
    requires IsPrime(q) && Coalition(q, members, values) && 0 <= secret < q && |members| < t
    ensures ListsExplanations(q, t, members, values, secret, all)
    ensures |all| == Pow(q, t - 1 - |members|)
    decreases t, 0
  {
    hide EvalMod, Coalition, Yields, CouldHaveDealt, IsPrime;
    CoalitionSizes(q, members, values);
    PrimePositive(q);
    if t == |members| + 1 {
      var a := ExplainingDealing(q, members, values, secret);
      all := [a];
      forall b
        ensures b in all <==> CouldHaveDealt(q, t, secret, b) && Yields(q, b, members, values)
      {
        if CouldHaveDealt(q, t, secret, b) && Yields(q, b, members, values) {
          ExplanationUnique(q, members, values, secret, a, b);
        }
      }
    } else {
      all := CountBelow(q, t - 1, members, values, secret, q);
      AllTopsBelow(q, t, members, values, secret, all);
    }
  }

  lemma {:induction false} CountBelow(q: int, t: nat, members: seq<int>, values: seq<int>, secret: int, n: nat)
    returns (all: seq<Poly>)
    requires IsPrime(q) && Coalition(q, members, values) && 0 <= secret < q && |members| < t && n <= q
    ensures ListsBelow(q, t + 1, members, values, secret, n, all)
    ensures |all| == n * Pow(q, t - 1 - |members|)
    decreases t, 1, n
  {
    hide EvalMod, Coalition, Yields, CouldHaveDealt, IsPrime, ListsBelow, ListsExplanations, Pow;
    CoalitionSizes(q, members, values);
    PrimePositive(q);
    if n == 0 {
      all := [];
      NoTopsBelow(q, t, members, values, secret);
    } else {
      var before := CountBelow(q, t, members, values, secret, n - 1);
      var shifted := Shifted(q, members, values, n - 1, t);
      ShiftedCoalition(q, members, values, n - 1, t);
      var bs := CountExplanations(q, t, members, shifted, secret);
      AddBlock(q, t, members, values, secret, n - 1, before, bs);
      all := before + WithTop(bs, n - 1);
      assert n * Pow(q, t - 1 - |members|) == (n - 1) * Pow(q, t - 1 - |members|) + Pow(q, t - 1 - |members|);
    }
  }

  lemma PrimePositive(q: int)
    requires IsPrime(q)
    ensures q >= 2
  {}

  lemma NoTopsBelow(q: int, t: nat, members: seq<int>, values: seq<int>, secret: int)
    requires q > 0 && |members| == |values|
    ensures ListsBelow(q, t + 1, members, values, secret, 0, [])
  {}

  lemma AllTopsBelow(q: int, t: nat, members: seq<int>, values: seq<int>, secret: int, all: seq<Poly>)
    requires q > 0 && t > 0 && |members| == |values| && ListsBelow(q, t, members, values, secret, q, all)
    ensures ListsExplanations(q, t, members, values, secret, all)
  {
    hide Yields;
  }

  // ----- what drawing the coefficients from [1, q) costs

  /** randomScalar never returns 0, so a dealer left to itself uses no zero coefficient. */
  ghost predicate CouldHaveDrawn(q: int, t: nat, secret: int, a: Poly) {
    CouldHaveDealt(q, t, secret, a) && forall i :: 0 <= i < |a| ==> a[i] != 0
  }

  function Zeros(n: nat): (s: seq<int>)
    ensures |s| == n && forall i :: 0 <= i < n ==> s[i] == 0
  {
    seq(n, _ => 0)
  }

  /** The reduced vector that is 1 at zero and 0 at every member. */
  ghost predicate IsSlope(q: int, members: seq<int>, l: Poly)
    requires q > 0
  {
    CouldHaveDealt(q, |members| + 1, 1, l) && Yields(q, l, members, Zeros(|members|))
  }

  /** The explanation of s, read off one explanation a: each coefficient is affine in s. */
  function Explanation(q: int, a: Poly, l: Poly, s: int): (b: Poly)
    requires q > 0 && |a| == |l| > 0
    ensures |b| == |a| && forall i :: 0 <= i < |a| ==> b[i] == (a[i] + (s - a[0]) * l[i]) % q
  {
    Reduce(q, Combine(a, s - a[0], l))
  }

  lemma ExplanationFits(q: int, members: seq<int>, values: seq<int>, a: Poly, l: Poly, s: int)
    requires IsPrime(q) && Coalition(q, members, values) && 0 <= s < q
    requires a != [] && CouldHaveDealt(q, |members| + 1, a[0], a) && Yields(q, a, members, values)
    requires IsSlope(q, members, l)
    ensures var b := Explanation(q, a, l, s);
            CouldHaveDealt(q, |members| + 1, s, b) && Yields(q, b, members, values)
  {
    hide Cong, EvalMod, DistinctMod;
    var b := Explanation(q, a, l, s);
    ReducedIsNonnegative(q, b);
    assert a[0] + (s - a[0]) * 1 == s;
    SmallModulus(s, q);
    forall i | 0 <= i < |members|
      ensures EvalMod(q, b, members[i]) == values[i]
    {
      ExplanationValue(q, a, l, s, members[i], values[i]);
    }
  }

  lemma ExplanationValue(q: int, a: Poly, l: Poly, s: int, m: int, v: int)
    requires q > 0 && |a| == |l| > 0 && m >= 0 && 0 <= v < q
    requires EvalMod(q, a, m) == v && EvalMod(q, l, m) == 0
    ensures EvalMod(q, Explanation(q, a, l, s), m) == v
  {
    hide Cong, EvalMod, Eval;
    var b, p := Explanation(q, a, l, s), Combine(a, s - a[0], l);
    ReduceCong(q, p);
    EvalCong(q, b, p, m);
    EvalCombine(a, s - a[0], l, m);
    EvalModIsEval(q, a, m);
    EvalModIsEval(q, l, m);
    CongSym(q, v, Eval(a, m));
    CongSym(q, 0, Eval(l, m));
    CongScale(q, s - a[0], Eval(l, m), 0);
    CongAdd(q, Eval(a, m), v, (s - a[0]) * Eval(l, m), 0);
    CongTrans(q, Eval(b, m), Eval(p, m), v);
    assert Nonnegative(b);
    EvalModResidue(q, b, m);
    CongIffResidue(q, Eval(b, m), v);
    SmallModulus(v, q);
  }

  ghost predicate VanishesAt(q: int, a: Poly, l: Poly, j: nat, s: int)
    requires q > 0 && |a| == |l| > 0 && j < |a|
  {
    Explanation(q, a, l, s)[j] == 0
  }

  /** One of the coefficients 1 to n - 1 vanishes. */
  ghost predicate VanishesBelow(q: int, a: Poly, l: Poly, n: nat, s: int)
    requires q > 0 && |a| == |l| > 0 && n <= |a|
  {
    exists j :: 1 <= j < n && VanishesAt(q, a, l, j, s)
  }

  /** The secrets at which one of the coefficients 1 to n - 1 of the explanation vanishes. */
  ghost function Roots(q: int, a: Poly, l: Poly, n: nat): set<int>
    requires q > 0 && |a| == |l| > 0 && n <= |a|
  {
    set s | 1 <= s < q && VanishesBelow(q, a, l, n, s)
  }

  /** The secrets a coalition can rule out: the roots of its t - 1 affine coefficients. */
  ghost function Excluded(q: int, a: Poly, l: Poly): set<int>
    requires q > 0 && |a| == |l| > 0
  {
    Roots(q, a, l, |a|)
  }

  /** A secret is explained by a drawn dealing exactly when none of its coefficients vanishes. */
  lemma DrawnExplanationIff(q: int, members: seq<int>, values: seq<int>, a: Poly, l: Poly, s: int)
    requires IsPrime(q) && Coalition(q, members, values) && 1 <= s < q
    requires a != [] && CouldHaveDealt(q, |members| + 1, a[0], a) && Yields(q, a, members, values)
    requires IsSlope(q, members, l)
    ensures (exists b :: CouldHaveDrawn(q, |members| + 1, s, b) && Yields(q, b, members, values))
            <==> s !in Excluded(q, a, l)
  {
    hide Cong, EvalMod, Coalition, Yields, Explanation;
    CoalitionSizes(q, members, values);
    var e := Explanation(q, a, l, s);
    ExplanationFits(q, members, values, a, l, s);
    forall b | CouldHaveDrawn(q, |members| + 1, s, b) && Yields(q, b, members, values)
      ensures b == e
    {
      ExplanationUnique(q, members, values, s, b, e);
    }
    if s !in Excluded(q, a, l) {
      assert !VanishesBelow(q, a, l, |a|, s);
      forall i | 0 <= i < |e|
        ensures e[i] != 0
      {
        assert i > 0 ==> !VanishesAt(q, a, l, i, s);
      }
      assert CouldHaveDrawn(q, |members| + 1, s, e);
    }
  }

  /** The coefficient a + (s - a0) * l is zero in the field. */
  ghost predicate AffineZero(q: int, a: int, l: int, a0: int, s: int) {
    Cong(q, a + (s - a0) * l, 0)
  }

  /** An affine coefficient that is not constantly zero has at most one root. */
  lemma OneRoot(q: int, a: int, l: int, a0: int, s: int, u: int)
    requires IsPrime(q) && 0 < a < q && 0 <= s < q && 0 <= u < q
    requires AffineZero(q, a, l, a0, s) && AffineZero(q, a, l, a0, u)
    ensures s == u
  {
    hide Cong, IsPrime;
    var x, y := (s - a0) * l, (u - a0) * l;
    CongSub(q, a + x, 0, a + y, 0);
    assert a + x - (a + y) == (s - u) * l;
    NoZeroDivisors(q, s - u, l);
    if Cong(q, l, 0) {
      CongScale(q, s - a0, l, 0);
      CongSub(q, a + x, 0, x, 0);
      NotCongruent(q, a, 0);
    } else {
      CongRefl(q, u);
      CongAdd(q, s - u, 0, u, u);
      CongUnique(q, s, u);
    }
  }

  /** The secrets at which coefficient j vanishes. */
  ghost function RootsAt(q: int, a: Poly, l: Poly, j: nat): set<int>
    requires q > 0 && |a| == |l| > 0 && j < |a|
  {
    set s | 1 <= s < q && VanishesAt(q, a, l, j, s)
  }

  lemma RootsGrow(q: int, a: Poly, l: Poly, n: nat)
    requires q > 0 && |a| == |l| && 1 < n <= |a|
    ensures Roots(q, a, l, n) == Roots(q, a, l, n - 1) + RootsAt(q, a, l, n - 1)
  {
    hide VanishesAt;
  }

  lemma AtMostOneRoot(q: int, a: Poly, l: Poly, j: nat)
    requires IsPrime(q) && |a| == |l| > 0 && j < |a| && 0 < a[j] < q
    ensures |RootsAt(q, a, l, j)| <= 1
  {
    hide Divides, VanishesAt;
    var xs := set s | 1 <= s < q && VanishesAt(q, a, l, j, s);
    if s :| 1 <= s < q && VanishesAt(q, a, l, j, s) {
      forall u | 1 <= u < q && VanishesAt(q, a, l, j, u)
        ensures u == s
      {
        RootUnique(q, a, l, j, s, u);
      }
      assert xs == {s};
    } else {
      assert xs == {};
    }
  }

  lemma RootUnique(q: int, a: Poly, l: Poly, j: nat, s: int, u: int)
    requires IsPrime(q) && |a| == |l| > 0 && j < |a| && 0 < a[j] < q && 1 <= s < q && 1 <= u < q
    requires VanishesAt(q, a, l, j, s) && VanishesAt(q, a, l, j, u)
    ensures s == u
  {
    hide Divides, VanishesAt, AffineZero;
    RootIsAffineZero(q, a, l, j, s);
    RootIsAffineZero(q, a, l, j, u);
    OneRoot(q, a[j], l[j], a[0], s, u);
  }

  lemma RootIsAffineZero(q: int, a: Poly, l: Poly, j: nat, s: int)
    requires q > 0 && |a| == |l| > 0 && j < |a| && VanishesAt(q, a, l, j, s)
    ensures AffineZero(q, a[j], l[j], a[0], s)
  {
    hide Cong, Explanation;
    CongIffResidue(q, a[j] + (s - a[0]) * l[j], 0);
  }

  lemma {:induction false} FewRoots(q: int, a: Poly, l: Poly, n: nat)
    requires IsPrime(q) && |a| == |l| && 1 <= n <= |a|
    requires forall i :: 0 <= i < |a| ==> 0 < a[i] < q
    ensures |Roots(q, a, l, n)| <= n - 1
  {
    hide Explanation, Roots, RootsAt, Divides;
    if n > 1 {
      FewRoots(q, a, l, n - 1);
      RootsGrow(q, a, l, n);
      AtMostOneRoot(q, a, l, n - 1);
      UnionSize(Roots(q, a, l, n - 1), RootsAt(q, a, l, n - 1));
    } else {
      NoRoots(q, a, l);
    }
  }

  lemma NoRoots(q: int, a: Poly, l: Poly)
    requires q > 0 && |a| == |l| > 0
    ensures Roots(q, a, l, 1) == {}
  {}

  lemma UnionSize(a: set<int>, b: set<int>)
    ensures |a + b| <= |a| + |b|
  {
    assert a + b == a + (b - a);
  }

  /**
    With drawn coefficients t - 1 shares are not quite silent, but nearly so: at
    most t - 1 secrets are ruled out, the roots of the affine coefficients of the
    explanation, and every other secret remains possible. The dealt secret is
    never among those ruled out.
   */
  lemma DrawnDealingExcludesFew(q: int, members: seq<int>, values: seq<int>, a: Poly) returns (l: Poly)
    requires IsPrime(q) && Coalition(q, members, values)
    requires a != [] && CouldHaveDrawn(q, |members| + 1, a[0], a) && Yields(q, a, members, values)
    ensures |l| == |a| && IsSlope(q, members, l)
    ensures |Excluded(q, a, l)| <= |members| && a[0] !in Excluded(q, a, l)
    ensures forall s :: 1 <= s < q ==>
              ((exists b :: CouldHaveDrawn(q, |members| + 1, s, b) && Yields(q, b, members, values))
               <==> s !in Excluded(q, a, l))
  {
    hide Cong, EvalMod, Yields, Excluded, DistinctMod, IsSlope, CouldHaveDrawn;
    DrawnIsPositive(q, |members| + 1, a);
    l := Slope(q, members);
    SlopeSize(q, members, l);
    FewRoots(q, a, l, |a|);
    ExcludedIsRoots(q, a, l);
    forall s | 1 <= s < q
      ensures (exists b :: CouldHaveDrawn(q, |members| + 1, s, b) && Yields(q, b, members, values))
              <==> s !in Excluded(q, a, l)
    {
      DrawnExplanationIff(q, members, values, a, l, s);
    }
  }

  lemma DrawnIsPositive(q: int, t: nat, a: Poly)
    requires a != [] && CouldHaveDrawn(q, t, a[0], a)
    ensures |a| == t && CouldHaveDealt(q, t, a[0], a)
    ensures forall i :: 0 <= i < |a| ==> 0 < a[i] < q
  {}

  lemma SlopeSize(q: int, members: seq<int>, l: Poly)
    requires q > 0 && IsSlope(q, members, l)
    ensures |l| == |members| + 1
  {}

  lemma ExcludedIsRoots(q: int, a: Poly, l: Poly)
    requires q > 0 && |a| == |l| > 0
    ensures Excluded(q, a, l) == Roots(q, a, l, |a|)
  {}

  lemma Slope(q: int, members: seq<int>) returns (l: Poly)
    requires IsPrime(q) && DistinctMod(q, [0] + members) && forall i :: 0 <= i < |members| ==> members[i] >= 0
    ensures IsSlope(q, members, l)
  {
    hide Cong, DistinctMod, EvalMod;
    l := ExplainingDealing(q, members, Zeros(|members|), 1);
  }

  lemma LinearValue(q: int, a: Poly, m: int)
    requires IsPrime(q) && |a| == 2 && Reduced(q, a) && 1 <= m < q
    ensures EvalMod(q, a, m) == a[0] <==> a[1] == 0
  {
    hide Cong, EvalMod;
    ReducedIsNonnegative(q, a);
    EvalModResidue(q, a, m);
    assert a[1..] == [a[1]] && a[1..][1..] == [];
    assert Eval(a[1..], m) == a[1] + m * Eval([], m);
    assert Eval(a, m) == a[0] + m * a[1];
    SmallModulus(a[0], q);
    CongIffResidue(q, a[0] + m * a[1], a[0]);
    if a[1] == 0 {
      CongRefl(q, a[0]);
    } else if Cong(q, a[0] + m * a[1], a[0]) {
      CongRefl(q, a[0]);
      CongSub(q, a[0] + m * a[1], a[0], a[0], a[0]);
      NoZeroDivisors(q, m, a[1]);
      NotCongruent(q, m, 0);
      NotCongruent(q, a[1], 0);
    }
  }

  /** With threshold 2 the one secret ruled out is the member's own value. */
  lemma DrawnDealingExcludesOwnValue(q: int, member: int, value: int, secret: int)
    requires IsPrime(q) && 1 <= member < q && 0 <= value < q && 1 <= secret < q
    ensures (exists a :: CouldHaveDrawn(q, 2, secret, a) && Yields(q, a, [member], [value])) <==> secret != value
  {
    hide Cong, EvalMod, Explanation;
    NotCongruent(q, 0, member);
    var members, values := [member], [value];
    assert DistinctMod(q, [0] + members);
    var a := ExplainingDealing(q, members, values, 1);
    var l := Slope(q, members);
    DrawnExplanationIff(q, members, values, a, l, secret);
    ExplanationFits(q, members, values, a, l, secret);
    var e := Explanation(q, a, l, secret);
    assert EvalMod(q, e, members[0]) == values[0];
    LinearValue(q, e, member);
    assert secret in Excluded(q, a, l) <==> VanishesBelow(q, a, l, 2, secret);
    assert VanishesBelow(q, a, l, 2, secret) <==> VanishesAt(q, a, l, 1, secret);
  }
}
