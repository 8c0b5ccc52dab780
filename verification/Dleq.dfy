/** Chaum-Pedersen proofs of equal discrete logarithms: packages/crypto/src/dleq.ts. */
module Dleq {
  import opened Prelude
  import opened Modular
  import opened Bytes
  import opened Hashing
  import opened CurveGroup
  import opened Opening

  datatype DleqProof = DleqProof(a: Point, b: Point, z: int)

  function PointBytes(p: Point): Result<seq<byte>> {
    var x :- Encoded(p.x, 32);
    var y :- Encoded(p.y, 32);
    Ok(x + y)
  }

  /** Both coordinates of a point, each 32 bytes; equal bytes, equal points. */
  lemma PointBytesInjective(p: Point, r: Point)
    requires PointBytes(p).Ok? && PointBytes(p) == PointBytes(r)
    ensures |PointBytes(p).value| == 64 && p == r
  {
    hide BeBytes, Pow256;
    var u, v := PointBytes(p).value, PointBytes(r).value;
    assert u[..32] == Encoded(p.x, 32).value && v[..32] == Encoded(r.x, 32).value;
    assert u[32..] == Encoded(p.y, 32).value && v[32..] == Encoded(r.y, 32).value;
    EncodedInjective(p.x, r.x, 32);
    EncodedInjective(p.y, r.y, 32);
  }

  lemma CurvePointFits(c: Curve, p: Point)
    requires InCurve(c, p)
    ensures PointBytes(p).Ok? && |PointBytes(p).value| == 64
  {
    Pow256Of32();
  }

  /** The points a challenge covers, after the generator. */
  datatype Statement = Statement(
    publicShare: Point, ephemeral: Point, decryptionShare: Point, commitmentA: Point, commitmentB: Point)

  function Preimage(h: Hashes, c: Curve, s: Statement): Result<seq<byte>> {
    var g :- PointBytes(c.base);
    var y :- PointBytes(s.publicShare);
    var r :- PointBytes(s.ephemeral);
    var d :- PointBytes(s.decryptionShare);
    var a :- PointBytes(s.commitmentA);
    var b :- PointBytes(s.commitmentB);
    Ok(Raw(h, "FairProof:dleq:v1") + g + y + r + d + a + b)
  }

  /** dleqChallenge. */
  function Challenge(h: Hashes, c: Curve, s: Statement): (r: Result<int>)
    requires c.q > 0
    ensures r.Ok? ==> 0 <= r.value < c.q
  {
    var bytes :- Preimage(h, c, s);
    Ok(h.keccak(bytes) % c.q)
  }

  /**
    The challenge covers both statements and both commitments: two different
    statements never have the same preimage, so a proof carried over to another
    ciphertext or member faces an independent digest.
   */
  lemma PreimageInjective(h: Hashes, c: Curve, s: Statement, t: Statement)
    requires Preimage(h, c, s).Ok? && Preimage(h, c, s) == Preimage(h, c, t)
    ensures s == t
  {
    hide PointBytes;
    PointLength(c.base);
    PointLength(s.publicShare); PointLength(t.publicShare);
    PointLength(s.ephemeral); PointLength(t.ephemeral);
    PointLength(s.decryptionShare); PointLength(t.decryptionShare);
    PointLength(s.commitmentA); PointLength(t.commitmentA);
    PointLength(s.commitmentB); PointLength(t.commitmentB);
    var head := Raw(h, "FairProof:dleq:v1") + PointBytes(c.base).value;
    var y, r, d, a, b := PointBytes(s.publicShare).value, PointBytes(s.ephemeral).value,
      PointBytes(s.decryptionShare).value, PointBytes(s.commitmentA).value, PointBytes(s.commitmentB).value;
    var y', r', d', a', b' := PointBytes(t.publicShare).value, PointBytes(t.ephemeral).value,
      PointBytes(t.decryptionShare).value, PointBytes(t.commitmentA).value, PointBytes(t.commitmentB).value;
    assert Preimage(h, c, s).value == head + y + r + d + a + b;
    assert Preimage(h, c, t).value == head + y' + r' + d' + a' + b';
    SplitEqual(head + y + r + d + a, b, head + y' + r' + d' + a', b');
    SplitEqual(head + y + r + d, a, head + y' + r' + d', a');
    SplitEqual(head + y + r, d, head + y' + r', d');
    SplitEqual(head + y, r, head + y', r');
    SplitEqual(head, y, head, y');
    PointBytesInjective(s.publicShare, t.publicShare);
    PointBytesInjective(s.ephemeral, t.ephemeral);
    PointBytesInjective(s.decryptionShare, t.decryptionShare);
    PointBytesInjective(s.commitmentA, t.commitmentA);
    PointBytesInjective(s.commitmentB, t.commitmentB);
  }

  lemma PointLength(p: Point)
    ensures PointBytes(p).Ok? ==> |PointBytes(p).value| == 64
  {}

  // ----- proveDleq and verifyDleq

  /** proveDleq; the nonce is what the source draws. */
  function ProveDleq(h: Hashes, c: Curve, secret: int, ephemeral: Point, nonce: int): Result<DleqProof>
    requires c.q > 0
  {
    if secret <= 0 || secret >= c.q then Err(SecretOutOfRange)
    else if nonce <= 0 || nonce >= c.q then Err(NonceOutOfRange)
    else
      var a, b := Mul(c, nonce, c.base), Mul(c, nonce, ephemeral);
      var e :- Challenge(h, c, Statement(Mul(c, secret, c.base), ephemeral, Mul(c, secret, ephemeral), a, b));
      Ok(DleqProof(a, b, TruncMod(nonce + TruncMod(e * secret, c.q), c.q)))
  }

  /** The verifier's two equations, for a given challenge. */
  predicate Equations(c: Curve, s: Statement, z: nat, e: nat) {
    && Mul(c, z, c.base) == c.add(s.commitmentA, Mul(c, e, s.publicShare))
    && Mul(c, z, s.ephemeral) == c.add(s.commitmentB, Mul(c, e, s.decryptionShare))
  }

  predicate AllInCurve(c: Curve, s: Statement) {
    && InCurve(c, s.publicShare) && InCurve(c, s.ephemeral) && InCurve(c, s.decryptionShare)
    && InCurve(c, s.commitmentA) && InCurve(c, s.commitmentB)
  }

  /** verifyDleq. */
  function VerifyDleq(h: Hashes, c: Curve, publicShare: Point, ephemeral: Point, decryptionShare: Point,
                      proof: DleqProof): Result<bool>
    requires c.q > 0
  {
    var s := Statement(publicShare, ephemeral, decryptionShare, proof.a, proof.b);
    if !AllInCurve(c, s) then Ok(false)
    else if proof.z <= 0 || proof.z >= c.q then Ok(false)
    else
      var e :- Challenge(h, c, s);
      Ok(Equations(c, s, proof.z, e))
  }

  // ----- completeness

  lemma ChallengeDefined(h: Hashes, c: Curve, s: Statement)
    requires Lawful(c) && AllInCurve(c, s)
    ensures Challenge(h, c, s).Ok?
  {
    hide PointBytes, Mul;
    CurvePointFits(c, c.base);
    CurvePointFits(c, s.publicShare);
    CurvePointFits(c, s.ephemeral);
    CurvePointFits(c, s.decryptionShare);
    CurvePointFits(c, s.commitmentA);
    CurvePointFits(c, s.commitmentB);
  }

  lemma ResponseCong(q: int, w: int, e: int, x: int)
    requires q > 0 && w >= 0 && e >= 0 && x >= 0
    ensures var z := TruncMod(w + TruncMod(e * x, q), q);
            0 <= z < q && Cong(q, z, w + x * e)
  {
    hide Cong;
    assert e * x >= 0 && e * x == x * e;
    var m := TruncMod(e * x, q);
    CongTruncMod(q, e * x);
    CongRefl(q, w);
    CongAdd(q, w, w, m, x * e);
    CongTruncMod(q, w + m);
    CongTrans(q, TruncMod(w + m, q), w + m, w + x * e);
  }

  /** One equation of the verifier: z * P == w * P + e * (x * P). */
  lemma EquationHolds(c: Curve, p: Point, w: nat, e: nat, x: nat, z: nat)
    requires Lawful(c) && IsInPrimeSubgroup(c, p) && Cong(c.q, z, w + x * e)
    ensures Mul(c, z, p) == c.add(Mul(c, w, p), Mul(c, e, Mul(c, x, p)))
  {
    hide Cong, Mul, Lawful;
    assert x * e >= 0 && e * x == x * e;
    MulMul(c, e, x, p);
    MulAdd(c, w, x * e, p);
    MulCong(c, z, w + x * e, p);
  }

  /** What an honest prover's challenge covers. */
  function HonestStatement(c: Curve, secret: nat, r: Point, nonce: nat): Statement {
    Statement(Mul(c, secret, c.base), r, Mul(c, secret, r), Mul(c, nonce, c.base), Mul(c, nonce, r))
  }

  /**
    Completeness with its side condition: an honest proof about a subgroup point
    is always produced, and it is accepted exactly when its response is not 0.
   */
  lemma HonestProofAcceptedIff(h: Hashes, c: Curve, secret: int, r: Point, nonce: int)
    requires Lawful(c) && IsInPrimeSubgroup(c, r) && 0 < secret < c.q && 0 < nonce < c.q
    ensures ProveDleq(h, c, secret, r, nonce).Ok? && Challenge(h, c, HonestStatement(c, secret, r, nonce)).Ok?
    ensures var proof := ProveDleq(h, c, secret, r, nonce).value;
            && VerifyDleq(h, c, Mul(c, secret, c.base), r, Mul(c, secret, r), proof) == Ok(proof.z != 0)
            && 0 <= proof.z < c.q
            && Cong(c.q, proof.z, nonce + secret * Challenge(h, c, HonestStatement(c, secret, r, nonce)).value)
  {
    hide Cong, Mul, Lawful, Challenge, TruncMod, IsInPrimeSubgroup, InCurve;
    BaseInSubgroup(c);
    SubgroupOnCurve(c, r);
    MulInCurve(c, secret, c.base);
    MulInCurve(c, nonce, c.base);
    MulInCurve(c, secret, r);
    MulInCurve(c, nonce, r);
    var s := HonestStatement(c, secret, r, nonce);
    ChallengeDefined(h, c, s);
    var e := Challenge(h, c, s).value;
    ResponseCong(c.q, nonce, e, secret);
    var z := TruncMod(nonce + TruncMod(e * secret, c.q), c.q);
    EquationHolds(c, c.base, nonce, e, secret, z);
    EquationHolds(c, r, nonce, e, secret, z);
  }

  /**
    For any hash: an honest proof is rejected exactly when its nonce cancels the
    challenge times the secret, the guard on z being the branch that fails.
   */
  lemma HonestProofRejectedIff(h: Hashes, c: Curve, secret: int, r: Point, nonce: int)
    requires Lawful(c) && IsInPrimeSubgroup(c, r) && 0 < secret < c.q && 0 < nonce < c.q
    ensures ProveDleq(h, c, secret, r, nonce).Ok? && Challenge(h, c, HonestStatement(c, secret, r, nonce)).Ok?
    ensures var e := Challenge(h, c, HonestStatement(c, secret, r, nonce)).value;
            VerifyDleq(h, c, Mul(c, secret, c.base), r, Mul(c, secret, r), ProveDleq(h, c, secret, r, nonce).value)
            == Ok(!Cong(c.q, nonce, -(e * secret)))
  {
    hide Cong, Mul, Lawful, Challenge, ProveDleq, VerifyDleq, IsInPrimeSubgroup, HonestStatement;
    BaseInSubgroup(c);
    HonestProofAcceptedIff(h, c, secret, r, nonce);
    var e := Challenge(h, c, HonestStatement(c, secret, r, nonce)).value;
    ZeroResponseIff(c.q, ProveDleq(h, c, secret, r, nonce).value.z, nonce, secret, e);
  }

  lemma ZeroResponseIff(q: int, z: int, w: int, x: int, e: int)
    requires 0 <= z < q && Cong(q, z, w + x * e)
    ensures z == 0 <==> Cong(q, w, -(e * x))
  {
    hide Cong;
    var p := x * e;
    assert e * x == p;
    CongRefl(q, p);
    if z == 0 {
      CongSub(q, 0, w + p, p, p);
      CongSym(q, 0 - p, w);
    }
    if Cong(q, w, -p) {
      CongAdd(q, w, -p, p, p);
      CongTrans(q, z, w + p, 0);
      CongUnique(q, z, 0);
    }
  }

  /**
    The excluded case is reachable from every secret and every nonzero challenge:
    under a hash that answers d, one nonce makes the honest proof fail, no other.
   */
  lemma HonestProofCanFail(c: Curve, secret: int, r: Point, nonce: int, d: digest, permutation: seq<element> -> element)
    requires Lawful(c) && IsInPrimeSubgroup(c, r) && 0 < secret < c.q && 0 < nonce < c.q
    ensures var h := Hashes(_ => d, permutation);
            var proof := ProveDleq(h, c, secret, r, nonce);
            && proof.Ok?
            && (VerifyDleq(h, c, Mul(c, secret, c.base), r, Mul(c, secret, r), proof.value) == Ok(false)
                <==> nonce == -(d % c.q * secret) % c.q)
    ensures d % c.q != 0 ==> 0 < -(d % c.q * secret) % c.q < c.q
  {
    hide Mul, Lawful, IsInPrimeSubgroup, Preimage, Cong, ProveDleq, VerifyDleq;
    BaseInSubgroup(c);
    LawfulPrime(c);
    var h := Hashes(_ => d, permutation);
    HonestProofRejectedIff(h, c, secret, r, nonce);
    CancellingNonce(c.q, d % c.q, secret, nonce);
  }

  lemma CancellingNonce(q: int, e: int, x: int, w: int)
    requires IsPrime(q) && 0 <= e < q && 0 < x < q && 0 < w < q
    ensures Cong(q, w, -(e * x)) <==> w == -(e * x) % q
    ensures e != 0 ==> 0 < -(e * x) % q < q
  {
    hide Cong, Divides;
    var p := e * x;
    CongIffResidue(q, w, -p);
    SmallModulus(w, q);
    if -p % q == 0 {
      CongIffResidue(q, -p, 0);
      CongRefl(q, p);
      CongAdd(q, -p, 0, p, p);
      CongSym(q, 0, p);
      NoZeroDivisors(q, e, x);
      NotCongruent(q, x, 0);
      if e != 0 {
        NotCongruent(q, e, 0);
      }
    }
  }

  // ----- special soundness

  /** One accepted equation, read through logarithms that are right up to the cofactor. */
  lemma EquationInLogs(c: Curve, p: Point, a: Point, y: Point, lp: nat, la: nat, ly: nat, z: nat, e: nat)
    requires Lawful(c) && IsLog(c, p, lp) && IsLog(c, a, la) && IsLog(c, y, ly)
    requires Mul(c, z, p) == c.add(a, Mul(c, e, y))
    ensures Cong(c.q, z * lp, la + e * ly)
  {
    hide *;
    ScaledLog(c, p, lp, z);
    SumOfLogs(c, a, y, la, ly, e);
    LogsAgree(c, Mul(c, z, p), z * lp, la + e * ly);
  }

  lemma LogsAgree(c: Curve, p: Point, u: nat, w: nat)
    requires Lawful(c) && IsLog(c, p, u) && IsLog(c, p, w)
    ensures Cong(c.q, u, w)
  {
    CofactorCancels(c, u, w);
  }

  lemma SumOfLogs(c: Curve, a: Point, y: Point, la: nat, ly: nat, e: nat)
    requires Lawful(c) && IsLog(c, a, la) && IsLog(c, y, ly)
    ensures e * ly >= 0 && IsLog(c, c.add(a, Mul(c, e, y)), la + e * ly)
  {
    hide Cong, Mul, Lawful, InCurve, IsInPrimeSubgroup;
    BaseInSubgroup(c);
    var g := c.base;
    MulInCurve(c, la, g);
    MulInCurve(c, ly, g);
    MulInCurve(c, e, y);
    AddLaws(c, a, Mul(c, e, y), a);
    TermUpToCofactor(c, a, e, y);
    TermUpToCofactor(c, Mul(c, la, g), e, Mul(c, ly, g));
    MulMul(c, e, ly, g);
    MulAdd(c, la, e * ly, g);
  }

  lemma ScaledLog(c: Curve, p: Point, lp: nat, z: nat)
    requires Lawful(c) && IsLog(c, p, lp)
    ensures z * lp >= 0 && IsLog(c, Mul(c, z, p), z * lp)
  {
    hide Mul;
    BaseInSubgroup(c);
    MulInCurve(c, z, p);
    MulInCurve(c, lp, c.base);
    SwapScalars(c, z, p);
    SwapScalars(c, z, Mul(c, lp, c.base));
    MulMul(c, z, lp, c.base);
  }

  lemma SwapScalars(c: Curve, z: nat, p: Point)
    requires Lawful(c) && InCurve(c, p)
    ensures Mul(c, c.cofactor, Mul(c, z, p)) == Mul(c, z, Mul(c, c.cofactor, p))
  {
    hide Mul;
    MulMul(c, c.cofactor, z, p);
    MulMul(c, z, c.cofactor, p);
    assert c.cofactor * z == z * c.cofactor;
  }

  /** Two responses to different challenges determine the logarithm, and it is shared. */
  lemma SolveResponses(q: int, a: int, b: int, y: int, d: int, r: int, z: int, e: int, z': int, e': int)
    requires IsPrime(q) && !Cong(q, e, e')
    requires Cong(q, z, a + e * y) && Cong(q, z', a + e' * y)
    requires Cong(q, z * r, b + e * d) && Cong(q, z' * r, b + e' * d)
    ensures Cong(q, d, y * r)
  {
    hide *;
    CongSub(q, z, a + e * y, z', a + e' * y);
    CongSub(q, z * r, b + e * d, z' * r, b + e' * d);
    assert a + e * y - (a + e' * y) == (e - e') * y;
    assert b + e * d - (b + e' * d) == (e - e') * d;
    CongScale(q, r, z - z', (e - e') * y);
    assert r * (z - z') == z * r - z' * r;
    assert r * ((e - e') * y) == (e - e') * (y * r);
    CongSym(q, z * r - z' * r, (e - e') * d);
    CongTrans(q, (e - e') * d, z * r - z' * r, (e - e') * (y * r));
    NotCongDifference(q, e, e');
    CongCancel(q, e - e', d, y * r);
  }

  lemma NotCongDifference(q: int, e: int, e': int)
    requires !Cong(q, e, e')
    ensures !Cong(q, e - e', 0)
  {
    assert e - e' - 0 == e - e';
  }

  /**
    Special soundness. Two transcripts that satisfy the verifier's equations with
    the same commitments and different challenges yield one x with Y = x * G and
    D = x * R up to the cofactor, for the curve points the verifier lets through.
    For R in the prime-order subgroup D = x * R holds if and only if D lies there.
   */
  lemma SpecialSoundness(c: Curve, s: Statement, z: nat, e: nat, z': nat, e': nat) returns (x: nat)
    requires Lawful(c) && AllInCurve(c, s) && e < c.q && e' < c.q && e != e'
    requires Equations(c, s, z, e) && Equations(c, s, z', e')
    ensures x < c.q
    ensures Mul(c, c.cofactor, s.publicShare) == Mul(c, c.cofactor, Mul(c, x, c.base))
    ensures Mul(c, c.cofactor, s.decryptionShare) == Mul(c, c.cofactor, Mul(c, x, s.ephemeral))
    ensures IsInPrimeSubgroup(c, s.publicShare) ==> s.publicShare == Mul(c, x, c.base)
    ensures IsInPrimeSubgroup(c, s.ephemeral) ==>
              (s.decryptionShare == Mul(c, x, s.ephemeral) <==> IsInPrimeSubgroup(c, s.decryptionShare))
    ensures forall w: nat :: w < c.q && Mul(c, c.cofactor, s.publicShare) == Mul(c, c.cofactor, Mul(c, w, c.base)) ==> w == x
  {
    hide Cong, Mul, Lawful, InCurve, IsInPrimeSubgroup;
    BaseInSubgroup(c);
    LawfulPrime(c);
    var g := c.base;
    var y := LogUpToCofactor(c, s.publicShare);
    var r := LogUpToCofactor(c, s.ephemeral);
    var d := LogUpToCofactor(c, s.decryptionShare);
    var a := LogUpToCofactor(c, s.commitmentA);
    var b := LogUpToCofactor(c, s.commitmentB);
    MulOne(c, g);
    EquationInLogs(c, g, s.commitmentA, s.publicShare, 1, a, y, z, e);
    EquationInLogs(c, g, s.commitmentA, s.publicShare, 1, a, y, z', e');
    EquationInLogs(c, s.ephemeral, s.commitmentB, s.decryptionShare, r, b, d, z, e);
    EquationInLogs(c, s.ephemeral, s.commitmentB, s.decryptionShare, r, b, d, z', e');
    assert z * 1 == z && z' * 1 == z';
    NotCongruent(c.q, e, e');
    SolveResponses(c.q, a, b, y, d, r, z, e, z', e');
    x := y % c.q;
    CongResidue(c.q, y);
    BaseOrder(c, x, y);
    ScaledLog(c, s.ephemeral, r, x);
    CongRefl(c.q, r);
    CongMul(c.q, y, x, r, r);
    CongTrans(c.q, d, y * r, x * r);
    BaseOrder(c, d, x * r);
    if IsInPrimeSubgroup(c, s.ephemeral) {
      MulMul(c, x, r, g);
      MulInSubgroup(c, x, s.ephemeral);
    }
    forall w: nat | w < c.q && Mul(c, c.cofactor, s.publicShare) == Mul(c, c.cofactor, Mul(c, w, g))
      ensures w == x
    {
      CofactorCancels(c, w, y);
      CongTrans(c.q, w, y, x);
      CongUnique(c.q, w, x);
    }
  }

  // ----- what the challenge covers

  /** The point at position k of the preimage, after the 32 bytes of the label. */
  ghost predicate PointStandsAt(bytes: seq<byte>, k: nat, p: Point)
    requires |bytes| == 416 && k < 6
  {
    && BeValue(bytes[32 + 64 * k..64 + 64 * k]) == p.x
    && BeValue(bytes[64 + 64 * k..96 + 64 * k]) == p.y
  }

  lemma PointBytesAre(p: Point)
    requires PointBytes(p).Ok?
    ensures |PointBytes(p).value| == 64
    ensures BeValue(PointBytes(p).value[..32]) == p.x && BeValue(PointBytes(p).value[32..]) == p.y
  {
    hide BeBytes, BeValue, Pow256;
    var b := PointBytes(p).value;
    assert b[..32] == Encoded(p.x, 32).value && b[32..] == Encoded(p.y, 32).value;
    ValueOfBytes(p.x, 32);
    ValueOfBytes(p.y, 32);
  }

  lemma PlacedAt(head: seq<byte>, b: seq<byte>, tail: seq<byte>, bytes: seq<byte>, k: nat, p: Point)
    requires bytes == head + b + tail && |bytes| == 416 && k < 6 && |head| == 32 + 64 * k
    requires PointBytes(p) == Ok(b)
    ensures PointStandsAt(bytes, k, p)
  {
    hide PointBytes, BeValue;
    PointBytesAre(p);
    assert bytes[32 + 64 * k..64 + 64 * k] == b[..32];
    assert bytes[64 + 64 * k..96 + 64 * k] == b[32..];
  }

  /** The hashed bytes: the label's digest, then G, Y, R, D, A and B, each coordinate 32 bytes. */
  lemma PreimageLayout(h: Hashes, c: Curve, s: Statement)
    requires Preimage(h, c, s).Ok?
    ensures var b := Preimage(h, c, s).value;
            && |b| == 416 && b[..32] == Raw(h, "FairProof:dleq:v1")
            && PointStandsAt(b, 0, c.base) && PointStandsAt(b, 1, s.publicShare) && PointStandsAt(b, 2, s.ephemeral)
            && PointStandsAt(b, 3, s.decryptionShare)
            && PointStandsAt(b, 4, s.commitmentA) && PointStandsAt(b, 5, s.commitmentB)
  {
    hide PointBytes, PointStandsAt;
    PointLength(c.base); PointLength(s.publicShare); PointLength(s.ephemeral);
    PointLength(s.decryptionShare); PointLength(s.commitmentA); PointLength(s.commitmentB);
    var tag, g := Raw(h, "FairProof:dleq:v1"), PointBytes(c.base).value;
    var y, r, d, a, b := PointBytes(s.publicShare).value, PointBytes(s.ephemeral).value,
      PointBytes(s.decryptionShare).value, PointBytes(s.commitmentA).value, PointBytes(s.commitmentB).value;
    var bytes := Preimage(h, c, s).value;
    assert bytes == tag + g + y + r + d + a + b;
    assert bytes == tag + g + (y + r + d + a + b);
    PlacedAt(tag, g, y + r + d + a + b, bytes, 0, c.base);
    assert bytes == tag + g + y + (r + d + a + b);
    PlacedAt(tag + g, y, r + d + a + b, bytes, 1, s.publicShare);
    assert bytes == tag + g + y + r + (d + a + b);
    PlacedAt(tag + g + y, r, d + a + b, bytes, 2, s.ephemeral);
    assert bytes == tag + g + y + r + d + (a + b);
    PlacedAt(tag + g + y + r, d, a + b, bytes, 3, s.decryptionShare);
    PlacedAt(tag + g + y + r + d, a, b, bytes, 4, s.commitmentA);
    assert bytes == tag + g + y + r + d + a + b + [];
    PlacedAt(tag + g + y + r + d + a, b, [], bytes, 5, s.commitmentB);
  }

  /** The challenge is the digest of those bytes, reduced; it exists for all curve points. */
  lemma ChallengeIsDigest(h: Hashes, c: Curve, s: Statement)
    requires Lawful(c) && AllInCurve(c, s)
    ensures c.q > 0 && Preimage(h, c, s).Ok?
    ensures Challenge(h, c, s) == Ok(h.keccak(Preimage(h, c, s).value) % c.q)
  {
    hide Preimage, Lawful;
    BaseInSubgroup(c);
    ChallengeDefined(h, c, s);
  }

  /** Two preimages that differ and whose keccak digests agree modulo q. */
  ghost predicate ChallengesCollide(h: Hashes, q: int, x: seq<byte>, y: seq<byte>)
    requires q > 0
  {
    x != y && h.keccak(x) % q == h.keccak(y) % q
  }

  /** Equal challenges come from equal statements and commitments, or two preimages collide. */
  lemma ChallengeBinds(h: Hashes, c: Curve, s: Statement, t: Statement)
    requires c.q > 0 && Challenge(h, c, s).Ok? && Challenge(h, c, s) == Challenge(h, c, t)
    ensures Preimage(h, c, s).Ok? && Preimage(h, c, t).Ok?
    ensures s == t || ChallengesCollide(h, c.q, Preimage(h, c, s).value, Preimage(h, c, t).value)
  {
    hide Preimage;
    if Preimage(h, c, s) == Preimage(h, c, t) {
      PreimageInjective(h, c, s, t);
    }
  }

  // ----- the verifier

  lemma MultiplesDiffer(c: Curve, y: Point, e: nat, e': nat)
    requires Lawful(c) && IsInPrimeSubgroup(c, y) && y != IDENTITY && e < c.q && e' < c.q
    requires Mul(c, e, y) == Mul(c, e', y)
    ensures e == e'
  {
    hide Cong, Mul, Lawful, IsInPrimeSubgroup;
    LawfulPrime(c);
    BaseInSubgroup(c);
    var k := DiscreteLog(c, y);
    MulMul(c, e, k, c.base);
    MulMul(c, e', k, c.base);
    BaseOrder(c, e * k, e' * k);
    if k == 0 {
      MulZero(c, c.base);
    }
    NotCongruent(c.q, k, 0);
    assert e * k == k * e && e' * k == k * e';
    CongCancel(c.q, k, e, e');
    CongUnique(c.q, e, e');
  }

  /**
    A proof cannot be carried over: accepted for one nonzero public share and two
    ciphertexts or decryption shares, it names two colliding preimages.
   */
  lemma ReplayBinds(h: Hashes, c: Curve, y: Point, r: Point, d: Point, r': Point, d': Point, proof: DleqProof)
    requires Lawful(c) && IsInPrimeSubgroup(c, y) && y != IDENTITY
    requires VerifyDleq(h, c, y, r, d, proof) == Ok(true) && VerifyDleq(h, c, y, r', d', proof) == Ok(true)
    ensures var s, t := Statement(y, r, d, proof.a, proof.b), Statement(y, r', d', proof.a, proof.b);
            && Preimage(h, c, s).Ok? && Preimage(h, c, t).Ok?
            && ((r == r' && d == d') || ChallengesCollide(h, c.q, Preimage(h, c, s).value, Preimage(h, c, t).value))
  {
    hide Cong, Mul, Lawful, Challenge, Preimage, IsInPrimeSubgroup, InCurve, ChallengesCollide;
    BaseInSubgroup(c);
    var s, t := Statement(y, r, d, proof.a, proof.b), Statement(y, r', d', proof.a, proof.b);
    var e, e' := Challenge(h, c, s).value, Challenge(h, c, t).value;
    MulInCurve(c, e, y);
    MulInCurve(c, e', y);
    AddLeftCancels(c, proof.a, Mul(c, e, y), Mul(c, e', y));
    MultiplesDiffer(c, y, e, e');
    ChallengeBinds(h, c, s, t);
  }

  /** One response per challenge: with the same commitments at most one z is accepted. */
  lemma ResponseUnique(h: Hashes, c: Curve, y: Point, r: Point, d: Point, proof: DleqProof, proof': DleqProof)
    requires Lawful(c) && proof.a == proof'.a && proof.b == proof'.b
    requires VerifyDleq(h, c, y, r, d, proof) == Ok(true) && VerifyDleq(h, c, y, r, d, proof') == Ok(true)
    ensures proof == proof' && 0 < proof.z < c.q
  {
    hide Cong, Mul, Lawful, Challenge, InCurve;
    BaseInSubgroup(c);
    BaseOrder(c, proof.z, proof'.z);
    CongUnique(c.q, proof.z, proof'.z);
  }

  /** Points off the curve are rejected, whichever of the five it is, before anything is hashed. */
  lemma OffCurveRejected(h: Hashes, c: Curve, y: Point, r: Point, d: Point, proof: DleqProof)
    requires c.q > 0
    requires !(InCurve(c, y) && InCurve(c, r) && InCurve(c, d) && InCurve(c, proof.a) && InCurve(c, proof.b))
             || !(0 < proof.z < c.q)
    ensures VerifyDleq(h, c, y, r, d, proof) == Ok(false)
  {
    hide InCurve, Challenge, Mul;
  }

  /**
    Special soundness at the verifier itself: one pair of commitments answered for
    two hash functions whose challenges differ fixes the member's scalar.
   */
  lemma AcceptedTwice(h: Hashes, h': Hashes, c: Curve, y: Point, r: Point, d: Point, proof: DleqProof, proof': DleqProof)
    returns (x: nat)
    requires Lawful(c) && proof.a == proof'.a && proof.b == proof'.b
    requires VerifyDleq(h, c, y, r, d, proof) == Ok(true) && VerifyDleq(h', c, y, r, d, proof') == Ok(true)
    requires var s := Statement(y, r, d, proof.a, proof.b); Challenge(h, c, s) != Challenge(h', c, s)
    ensures x < c.q
    ensures Mul(c, c.cofactor, y) == Mul(c, c.cofactor, Mul(c, x, c.base))
    ensures Mul(c, c.cofactor, d) == Mul(c, c.cofactor, Mul(c, x, r))
    ensures IsInPrimeSubgroup(c, y) ==> y == Mul(c, x, c.base)
    ensures IsInPrimeSubgroup(c, r) ==> (d == Mul(c, x, r) <==> IsInPrimeSubgroup(c, d))
  {
    hide Mul, Lawful, Challenge, InCurve, IsInPrimeSubgroup, Equations;
    BaseInSubgroup(c);
    var s := Statement(y, r, d, proof.a, proof.b);
    x := SpecialSoundness(c, s, proof.z, Challenge(h, c, s).value, proof'.z, Challenge(h', c, s).value);
  }

  /** proveDleq's refusals, and the commitments it sends. */
  lemma ProveRefusals(h: Hashes, c: Curve, secret: int, r: Point, nonce: int)
    requires Lawful(c) && InCurve(c, r)
    ensures c.q > 0
    ensures ProveDleq(h, c, secret, r, nonce) == Err(SecretOutOfRange) <==> !(0 < secret < c.q)
    ensures ProveDleq(h, c, secret, r, nonce) == Err(NonceOutOfRange) <==> 0 < secret < c.q && !(0 < nonce < c.q)
    ensures ProveDleq(h, c, secret, r, nonce).Ok? <==> 0 < secret < c.q && 0 < nonce < c.q
    ensures ProveDleq(h, c, secret, r, nonce).Ok? ==>
              var proof := ProveDleq(h, c, secret, r, nonce).value;
              proof.a == Mul(c, nonce, c.base) && proof.b == Mul(c, nonce, r)
  {
    hide Mul, Lawful, Challenge, InCurve, TruncMod;
    BaseInSubgroup(c);
    if 0 < secret < c.q && 0 < nonce < c.q {
      MulInCurve(c, secret, c.base);
      MulInCurve(c, nonce, c.base);
      MulInCurve(c, secret, r);
      MulInCurve(c, nonce, r);
      ChallengeDefined(h, c, HonestStatement(c, secret, r, nonce));
    }
  }
}
