/**
  Sealing a bid to the committee key and opening it again:
  packages/crypto/src/elgamal.ts and packages/crypto/src/sealedbid.ts.
 */
module SealedBid {
  import opened Prelude
  import opened Modular
  import opened Polynomials
  import opened Bytes
  import opened Hashing
  import opened CurveGroup
  import opened Sharing
  import opened Dealing
  import opened Opening
  import opened Dleq
  import opened ProvenShares
  import opened Ciphertext
  import opened JsonText
  import opened Jcs
  import opened Payload

  // ----- xor32

  /** Exclusive or of the low n bits. */
  function XorBits(a: nat, b: nat, n: nat): (r: nat)
    ensures r < Pow2(n)
  {
    if n == 0 then 0 else (a + b) % 2 + 2 * XorBits(a / 2, b / 2, n - 1)
  }

  lemma {:induction false} XorTwice(a: nat, b: nat, n: nat)
    requires a < Pow2(n)
    ensures XorBits(XorBits(a, b, n), b, n) == a
  {
    hide XorBits;
    if n > 0 {
      XorTwice(a / 2, b / 2, n - 1);
      XorHead(a, b, n);
      XorHead(XorBits(a, b, n), b, n);
      BitTwice(a, b, XorBits(a, b, n));
    }
  }

  lemma XorHead(a: nat, b: nat, n: nat)
    requires n > 0
    ensures XorBits(a, b, n) / 2 == XorBits(a / 2, b / 2, n - 1) && XorBits(a, b, n) % 2 == (a + b) % 2
  {}

  lemma BitTwice(a: nat, b: nat, x: nat)
    requires x % 2 == (a + b) % 2
    ensures (x + b) % 2 == a % 2
  {}

  function XorByte(a: byte, b: byte): byte {
    assert Pow2(8) == 256;
    XorBits(a, b, 8)
  }

  function Xored(a: seq<byte>, b: seq<byte>): Result<seq<byte>> {
    if |a| != 32 || |b| != 32 then Err(WrongLength)
    else Ok(seq(32, i requires 0 <= i < 32 => XorByte(a[i], b[i])))
  }

  /** xor32: writes its 32-byte buffer one byte at a time. */
  method Xor32(a: seq<byte>, b: seq<byte>) returns (res: Result<seq<byte>>)
    ensures res == Xored(a, b)
  {
    hide XorByte;
    if |a| != 32 || |b| != 32 {
      return Err(WrongLength);
    }
    var out := new byte[32];
    for i := 0 to 32
      invariant forall k :: 0 <= k < i ==> out[k] == XorByte(a[k], b[k])
    {
      out[i] := XorByte(a[i], b[i]);
    }
    assert out[..] == Xored(a, b).value;
    return Ok(out[..]);
  }

  /** The same pad twice is no pad. */
  lemma XoredTwice(a: seq<byte>, b: seq<byte>)
    requires |a| == 32 && |b| == 32
    ensures Xored(Xored(a, b).value, b) == Ok(a)
  {
    hide XorBits;
    var once := Xored(a, b).value;
    forall i | 0 <= i < 32
      ensures XorByte(once[i], b[i]) == a[i]
    {
      assert Pow2(8) == 256;
      XorTwice(a[i], b[i], 8);
    }
    assert Xored(once, b).value == a;
  }

  // ----- encapsulation

  /** deriveWrappingKey: both coordinates enter the hash. */
  function WrappingKey(h: Hashes, shared: Point): Result<seq<byte>> {
    var coordinates :- PointBytes(shared);
    Ok(BeBytes(h.keccak(Raw(h, "FairProof:dek:v1") + coordinates), 32))
  }

  datatype Encapsulation = Encapsulation(ephemeral: Point, wrapped: seq<byte>, shared: Point)

  /** encapsulate; the scalar r is what the source draws. */
  function Encapsulate(h: Hashes, c: Curve, key: Point, dek: seq<byte>, r: int): Result<Encapsulation>
    requires c.q > 0
  {
    if |dek| != 32 then Err(WrongLength)
    else if !IsInPrimeSubgroup(c, key) then Err(KeyNotInSubgroup)
    else if r <= 0 || r >= c.q then Err(EphemeralOutOfRange)
    else
      var shared := Mul(c, r, key);
      var pad :- WrappingKey(h, shared);
      var wrapped :- Xored(dek, pad);
      Ok(Encapsulation(Mul(c, r, c.base), wrapped, shared))
  }

  /** unwrapDek. */
  function UnwrapDek(h: Hashes, wrapped: seq<byte>, shared: Point): Result<seq<byte>> {
    if |wrapped| != 32 then Err(WrongLength)
    else
      var pad :- WrappingKey(h, shared);
      Xored(wrapped, pad)
  }

  /** decryptionShare: D_i = x_i * R. */
  function DecryptionShare(c: Curve, share: int, ephemeral: Point): Result<Point>
    requires c.q > 0
  {
    MulPoint(c, ephemeral, TruncMod(share, c.q))
  }

  lemma EncapsulateUnwraps(h: Hashes, c: Curve, key: Point, dek: seq<byte>, r: int)
    requires c.q > 0 && Encapsulate(h, c, key, dek, r).Ok?
    ensures var e := Encapsulate(h, c, key, dek, r).value;
            |e.wrapped| == 32 && UnwrapDek(h, e.wrapped, e.shared) == Ok(dek)
  {
    hide XorByte, Mul, PointBytes, IsInPrimeSubgroup;
    XoredTwice(dek, WrappingKey(h, Mul(c, r, key)).value);
  }

  // ----- sealBid and openSealedBid

  /** The foreign parts: hashes, curve, text functions, BigInt of a JSON value, AES-256-GCM. */
  datatype Env = Env(
    h: Hashes,
    c: Curve,
    platform: Platform,
    toBigInt: Doc -> Option<int>,
    encrypt: (seq<byte>, seq<byte>, seq<byte>) -> (seq<byte>, seq<byte>),
    decrypt: (seq<byte>, seq<byte>, seq<byte>, seq<byte>) -> Option<seq<byte>>)

  ghost predicate GcmInverts(env: Env, dek: seq<byte>, iv: seq<byte>, text: seq<byte>) {
    var (ct, tag) := env.encrypt(dek, iv, text);
    |dek| == 32 && |iv| == 12 ==> |tag| == 16 && env.decrypt(dek, iv, ct, tag) == Some(text)
  }

  ghost predicate LawfulEnv(env: Env) {
    && Lawful(env.c)
    && LawfulPlatform(env.platform)
    && (forall dek, iv, text :: GcmInverts(env, dek, iv, text))
  }

  datatype Sealed = Sealed(
    ciphertext: CiphertextParts, ciphertextHash: nat, ciphertextHashField: nat,
    canonicalBytes: seq<byte>, bidCommitment: int, dek: seq<byte>)

  function ToInteger(env: Env, d: Doc): Result<int> {
    match env.toBigInt(d)
    case Some(v) => Ok(v)
    case None => Err(MalformedPayload)
  }

  /** sealBid. */
  function SealBid(env: Env, payload: BidPayload, key: Point, tender: int, nullifier: int,
                   dek: seq<byte>, iv: seq<byte>, r: int): Result<Sealed>
    requires env.c.q > 0
  {
    var plaintext :- PayloadBytes(env.platform, payload);
    var (ct, tag) := env.encrypt(dek, iv, plaintext);
    var enc :- Encapsulate(env.h, env.c, key, dek, r);
    var ciphertext := CiphertextParts(enc.ephemeral.x, enc.ephemeral.y, enc.wrapped, iv, ct, tag);
    var amount :- ToInteger(env, DStr(payload.amountMinorUnit));
    var nonce :- ToInteger(env, DStr(payload.bidNonce));
    var commitment :- BidCommitment(env.h, amount, nonce, tender, nullifier);
    var bytes :- Canonical(ciphertext);
    var hash := env.h.keccak(Raw(env.h, "FairProof:ciphertext:v1") + bytes);
    Ok(Sealed(ciphertext, hash, ToField(hash), bytes, commitment, dek))
  }

  /** The payload is what JSON.parse returned: the source's cast checks nothing. */
  datatype Opened = Opened(payload: Doc, bidAmount: int, bidNonce: int)

  /** BigInt of a member; reading it from null, or converting undefined, throws. */
  function IntegerField(env: Env, d: Doc, key: text): Result<int> {
    match Field(d, key)
    case None => Err(MalformedPayload)
    case Some(v) => ToInteger(env, v)
  }

  /** openSealedBid. */
  function OpenSealedBid(env: Env, ciphertext: CiphertextParts, shared: Point,
                         expectedCommitment: int, tender: int, nullifier: int): Result<Opened> {
    var dek :- UnwrapDek(env.h, ciphertext.wrapped, shared);
    match env.decrypt(dek, ciphertext.iv, ciphertext.ct, ciphertext.tag)
    case None => Err(AuthenticationFailed)
    case Some(plaintext) =>
      match env.platform.parseJson(env.platform.decodeText(plaintext))
      case None => Err(MalformedPayload)
      case Some(payload) =>
        var amount :- IntegerField(env, payload, AMOUNT);
        var nonce :- IntegerField(env, payload, NONCE);
        var recomputed :- BidCommitment(env.h, amount, nonce, tender, nullifier);
        if recomputed != expectedCommitment then Err(CommitmentMismatch)
        else Ok(Opened(payload, amount, nonce))
  }

  // ----- end to end

  /** The members of a group compute their decryption shares and combine them. */
  ghost function CombinedShares(c: Curve, group: seq<CommitteeShare>, r: Point): Result<Point>
    requires c.q > 0
  {
    if exists i :: 0 <= i < |group| && DecryptionShare(c, group[i].share, r).Err? then Err(NegativeScalar)
    else Combined(c, Indices(group), seq(|group|, i requires 0 <= i < |group| =>
      DecryptionShare(c, group[i].share, r).value))
  }

  /**
    Any qualifying set of a checked dealing arrives at the point the bidder used,
    unless two of its indices are congruent modulo q: then it is refused.
   */
  lemma GroupFindsShared(c: Curve, d: DealtCommitteeKey, group: seq<CommitteeShare>, r: nat)
    requires Lawful(c) && DealingOk(c, d) && d.size >= d.threshold
    requires Qualifies(d, group)
    ensures DistinctMod(c.q, Indices(group)) ==>
              CombinedShares(c, group, Mul(c, r, c.base)) == Ok(Mul(c, r, d.publicKey))
    ensures !DistinctMod(c.q, Indices(group)) ==> CombinedShares(c, group, Mul(c, r, c.base)).Err?
  {
    hide Cong, Mul, Lawful, DealingOk, IsInPrimeSubgroup, Combined, TruncMod, Reconstruct, InCurve, DistinctMod, Qualifies;
    BaseInSubgroup(c);
    var point := Mul(c, r, c.base);
    MulInSubgroup(c, r, c.base);
    VerifiedDealingOpens(c, d, group, point);
    var secret := TruncMod(d.secret, c.q);
    forall i | 0 <= i < |group|
      ensures DecryptionShare(c, group[i].share, point) == Ok(Mul(c, group[i].share, point))
    {
      SharesInRange(c, d, group, i);
      SmallTruncMod(group[i].share, c.q);
    }
    var points := seq(|group|, i requires 0 <= i < |group| => DecryptionShare(c, group[i].share, point).value);
    assert points == DecryptionShares(c, group, point);
    SwapFactors(c, secret, r);
  }

  lemma SharesInRange(c: Curve, d: DealtCommitteeKey, group: seq<CommitteeShare>, i: nat)
    requires Lawful(c) && DealingOk(c, d) && Qualifies(d, group) && i < |group|
    ensures 0 < group[i].share < c.q
  {
    hide Cong, Mul, Lawful, DealingOk, IsInPrimeSubgroup, InCurve;
    BaseInSubgroup(c);
    assert group[i] in d.shares;
    var j :| 0 <= j < |d.shares| && d.shares[j] == group[i];
    OkAcceptsShare(c, d, j);
    AcceptedPublicShare(c, d.shares[j], d.commitments);
  }

  /**
    The whole path: a bid sealed to a checked committee key, carried as bytes,
    parsed, and opened by any qualifying set of members comes back exactly, and
    no step of it refuses, unless two of the set's indices are congruent modulo q.
   */
  lemma SealedBidOpens(env: Env, d: DealtCommitteeKey, group: seq<CommitteeShare>, payload: BidPayload,
                       tender: int, nullifier: int, dek: seq<byte>, iv: seq<byte>, r: int)
    requires LawfulEnv(env)
    requires DealingOk(env.c, d) && d.size >= d.threshold && Qualifies(d, group)
    requires SealBid(env, payload, d.publicKey, tender, nullifier, dek, iv, r).Ok?
    ensures var sealed := SealBid(env, payload, d.publicKey, tender, nullifier, dek, iv, r).value;
            && Parsed(sealed.canonicalBytes) == Ok(sealed.ciphertext)
            && sealed.ciphertext.rX >= 0 && sealed.ciphertext.rY >= 0
            && var shared := CombinedShares(env.c, group, Point(sealed.ciphertext.rX, sealed.ciphertext.rY));
            && (shared.Ok? <==> DistinctMod(env.c.q, Indices(group)))
            && (shared.Ok? ==>
                  ReturnsBid(env, OpenSealedBid(env, sealed.ciphertext, shared.value, sealed.bidCommitment, tender, nullifier),
                             payload))
  {
    hide Mul, Lawful, LawfulPlatform, DealingOk, IsInPrimeSubgroup, SealBid, OpenSealedBid, Parsed, Qualifies,
         CombinedShares, DistinctMod, ReturnsBid;
    EnvCurve(env);
    OpensWithShared(env, payload, d.publicKey, tender, nullifier, dek, iv, r);
    GroupFindsShared(env.c, d, group, r);
  }

  /** What sealing produced travels as bytes and opens with the bidder's shared point. */
  lemma OpensWithShared(env: Env, payload: BidPayload, key: Point, tender: int, nullifier: int,
                        dek: seq<byte>, iv: seq<byte>, r: int)
    requires LawfulEnv(env) && SealBid(env, payload, key, tender, nullifier, dek, iv, r).Ok?
    ensures var sealed := SealBid(env, payload, key, tender, nullifier, dek, iv, r).value;
            && 0 < r < env.c.q
            && Parsed(sealed.canonicalBytes) == Ok(sealed.ciphertext)
            && sealed.ciphertext.rX >= 0 && sealed.ciphertext.rY >= 0
            && Point(sealed.ciphertext.rX, sealed.ciphertext.rY) == Mul(env.c, r, env.c.base)
            && ReturnsBid(env, OpenSealedBid(env, sealed.ciphertext, Mul(env.c, r, key), sealed.bidCommitment, tender, nullifier),
                          payload)
  {
    hide Mul, Lawful, LawfulPlatform, IsInPrimeSubgroup, Canonical, Parsed, XorByte, PointBytes, InCurve, Carries,
         PayloadBytes;
    EnvCurve(env);
    var sealed := SealBid(env, payload, key, tender, nullifier, dek, iv, r).value;
    ParseOfCanonical(sealed.ciphertext);
    CanonicalDefinedIff(sealed.ciphertext);
    var enc := Encapsulate(env.h, env.c, key, dek, r).value;
    assert Point(sealed.ciphertext.rX, sealed.ciphertext.rY) == enc.ephemeral == Mul(env.c, r, env.c.base);
    assert enc.shared == Mul(env.c, r, key);
    EncapsulateUnwraps(env.h, env.c, key, dek, r);
    PayloadReturns(env.platform, payload);
    assert GcmInverts(env, dek, iv, PayloadBytes(env.platform, payload).value);
    CarriedFields(payload);
  }

  /**
    The same with shares nobody is trusted for: points that two transcripts each
    have tied to the members' public shares open the bid, as long as each of them
    lies in the prime-order subgroup.
   */
  lemma ProvenSharesOpen(env: Env, d: DealtCommitteeKey, group: seq<CommitteeShare>, points: seq<Point>,
                         payload: BidPayload, tender: int, nullifier: int, dek: seq<byte>, iv: seq<byte>, r: int)
    requires LawfulEnv(env)
    requires DealingOk(env.c, d) && d.size >= d.threshold && Qualifies(d, group)
    requires DistinctMod(env.c.q, Indices(group))
    requires SealBid(env, payload, d.publicKey, tender, nullifier, dek, iv, r).Ok? && r >= 0
    requires AllProven(env.c, group, Mul(env.c, r, env.c.base), points)
    requires forall i :: 0 <= i < |points| ==> IsInPrimeSubgroup(env.c, points[i])
    ensures var sealed := SealBid(env, payload, d.publicKey, tender, nullifier, dek, iv, r).value;
            var shared := Combined(env.c, Indices(group), points);
            && shared.Ok?
            && ReturnsBid(env, OpenSealedBid(env, sealed.ciphertext, shared.value, sealed.bidCommitment, tender, nullifier),
                          payload)
  {
    hide Mul, Lawful, LawfulPlatform, DealingOk, IsInPrimeSubgroup, SealBid, OpenSealedBid, Parsed, Qualifies,
         Combined, DistinctMod, ReturnsBid, AllProven, TruncMod;
    EnvCurve(env);
    BaseInSubgroup(env.c);
    OpensWithShared(env, payload, d.publicKey, tender, nullifier, dek, iv, r);
    var point := Mul(env.c, r, env.c.base);
    MulInSubgroup(env.c, r, env.c.base);
    ProvenSharesCombine(env.c, d, group, point, points);
    VerifiedDealingOpens(env.c, d, group, point);
    var secret := TruncMod(d.secret, env.c.q);
    SwapFactors(env.c, secret, r);
  }

  lemma SwapFactors(c: Curve, secret: nat, r: nat)
    requires Lawful(c)
    ensures Mul(c, secret, Mul(c, r, c.base)) == Mul(c, r, Mul(c, secret, c.base))
  {
    hide Mul;
    BaseInSubgroup(c);
    MulMul(c, secret, r, c.base);
    MulMul(c, r, secret, c.base);
    assert secret * r == r * secret;
  }

  /** The outcome is the sealed payload with its amount and nonce as numbers. */
  ghost predicate ReturnsBid(env: Env, outcome: Result<Opened>, payload: BidPayload) {
    && outcome.Ok? && Carries(outcome.value.payload, payload)
    && env.toBigInt(DStr(payload.amountMinorUnit)) == Some(outcome.value.bidAmount)
    && env.toBigInt(DStr(payload.bidNonce)) == Some(outcome.value.bidNonce)
  }

  lemma CarriedFields(p: BidPayload)
    ensures forall d :: Carries(d, p) ==>
              Field(d, AMOUNT) == Some(DStr(p.amountMinorUnit)) && Field(d, NONCE) == Some(DStr(p.bidNonce))
  {}

  lemma EnvCurve(env: Env)
    requires LawfulEnv(env)
    ensures Lawful(env.c) && env.c.q > 0
  {}

  /** Exactly which bids seal; the payload's strings may be anything. */
  lemma SealsIff(env: Env, payload: BidPayload, key: Point, tender: int, nullifier: int,
                 dek: seq<byte>, iv: seq<byte>, r: int)
    requires LawfulEnv(env)
    ensures PayloadBytes(env.platform, payload).Ok?
    ensures var amount := env.toBigInt(DStr(payload.amountMinorUnit));
            SealBid(env, payload, key, tender, nullifier, dek, iv, r).Ok? <==>
              && |dek| == 32 && |iv| == 12 && 0 < r < env.c.q && IsInPrimeSubgroup(env.c, key)
              && amount.Some? && 0 <= amount.value < UINT64
              && env.toBigInt(DStr(payload.bidNonce)).Some?
              && |env.encrypt(dek, iv, PayloadBytes(env.platform, payload).value).0| < 0x1_0000_0000
  {
    hide Mul, Lawful, LawfulPlatform, IsInPrimeSubgroup, Canonical, XorByte, InCurve, PointBytes, PayloadBytes, Carries;
    EnvCurve(env);
    PayloadReturns(env.platform, payload);
    var plaintext := PayloadBytes(env.platform, payload).value;
    assert GcmInverts(env, dek, iv, plaintext);
    if |dek| == 32 && IsInPrimeSubgroup(env.c, key) && 0 < r < env.c.q {
      EncapsulateDefined(env.h, env.c, key, dek, r);
      var enc := Encapsulate(env.h, env.c, key, dek, r).value;
      var (ct, tag) := env.encrypt(dek, iv, plaintext);
      CanonicalDefinedIff(CiphertextParts(enc.ephemeral.x, enc.ephemeral.y, enc.wrapped, iv, ct, tag));
    }
  }

  lemma EncapsulateDefined(h: Hashes, c: Curve, key: Point, dek: seq<byte>, r: int)
    requires Lawful(c) && IsInPrimeSubgroup(c, key) && |dek| == 32 && 0 < r < c.q
    ensures Encapsulate(h, c, key, dek, r).Ok?
    ensures var e := Encapsulate(h, c, key, dek, r).value;
            |e.wrapped| == 32 && e.ephemeral.x < TWO_256 && e.ephemeral.y < TWO_256
  {
    hide Mul, Lawful, XorByte, PointBytes;
    BaseInSubgroup(c);
    MulInCurve(c, r, key);
    MulInCurve(c, r, c.base);
    CurvePointFits(c, Mul(c, r, key));
  }

  /**
    What an accepted opening means: two of them against one on-chain commitment
    report the same amount and, as field elements, the same nonce, tender and
    nullifier, or these inputs collide.
   */
  lemma OpeningBinds(env: Env, x: CiphertextParts, y: CiphertextParts, s: Point, s': Point,
                     expected: int, t: int, t': int, nul: int, nul': int)
    requires OpenSealedBid(env, x, s, expected, t, nul).Ok?
    requires OpenSealedBid(env, y, s', expected, t', nul').Ok?
    ensures var a := OpenSealedBid(env, x, s, expected, t, nul).value;
            var b := OpenSealedBid(env, y, s', expected, t', nul').value;
            || (a.bidAmount == b.bidAmount && Residue(a.bidNonce) == Residue(b.bidNonce)
                && Residue(t) == Residue(t') && Residue(nul) == Residue(nul'))
            || IsCollision(env.h, Collision(CommitmentInput(env.h, a.bidAmount, a.bidNonce, t, nul),
                                            CommitmentInput(env.h, b.bidAmount, b.bidNonce, t', nul')))
  {
    hide UnwrapDek, Residue, IsCollision, Poseidon;
    var a := OpenSealedBid(env, x, s, expected, t, nul).value;
    var b := OpenSealedBid(env, y, s', expected, t', nul').value;
    CommitmentBinds(env.h, a.bidAmount, a.bidNonce, t, nul, b.bidAmount, b.bidNonce, t', nul');
  }

  /** With the right shared point, opening succeeds exactly against the commitment of the sealed values. */
  lemma OpeningDecides(env: Env, payload: BidPayload, key: Point, tender: int, nullifier: int,
                       dek: seq<byte>, iv: seq<byte>, r: int, expected: int, tender': int, nullifier': int)
    requires LawfulEnv(env) && SealBid(env, payload, key, tender, nullifier, dek, iv, r).Ok?
    ensures var sealed := SealBid(env, payload, key, tender, nullifier, dek, iv, r).value;
            var amount, nonce := env.toBigInt(DStr(payload.amountMinorUnit)), env.toBigInt(DStr(payload.bidNonce));
            var outcome := OpenSealedBid(env, sealed.ciphertext, Mul(env.c, r, key), expected, tender', nullifier');
            && amount.Some? && nonce.Some? && BidCommitment(env.h, amount.value, nonce.value, tender', nullifier').Ok?
            && (if BidCommitment(env.h, amount.value, nonce.value, tender', nullifier') == Ok(expected)
                then ReturnsBid(env, outcome, payload) else outcome == Err(CommitmentMismatch))
  {
    hide Mul, Lawful, LawfulPlatform, IsInPrimeSubgroup, Canonical, XorByte, PointBytes, InCurve, Carries, PayloadBytes,
         Poseidon;
    EncapsulateUnwraps(env.h, env.c, key, dek, r);
    CanonicalDefinedIff(SealBid(env, payload, key, tender, nullifier, dek, iv, r).value.ciphertext);
    PayloadReturns(env.platform, payload);
    assert GcmInverts(env, dek, iv, PayloadBytes(env.platform, payload).value);
    CarriedFields(payload);
  }

  // ----- the bits of the wrapped key

  /** Bit i of a number. */
  function Bit(a: nat, i: nat): nat {
    if i == 0 then a % 2 else Bit(a / 2, i - 1)
  }

  lemma {:induction false} XorBitsBit(a: nat, b: nat, n: nat, i: nat)
    requires i < n
    ensures Bit(XorBits(a, b, n), i) == (Bit(a, i) + Bit(b, i)) % 2
  {
    hide XorBits;
    XorHead(a, b, n);
    if i > 0 {
      XorBitsBit(a / 2, b / 2, n - 1, i - 1);
    } else {
      assert (a % 2 + b % 2) % 2 == (a + b) % 2;
    }
  }

  /** xor32 bit by bit: every bit of every byte is the sum of the operands' bits modulo 2. */
  lemma XoredBits(a: seq<byte>, b: seq<byte>, k: nat, i: nat)
    requires |a| == 32 && |b| == 32 && k < 32 && i < 8
    ensures Xored(a, b).Ok? && Bit(Xored(a, b).value[k], i) == (Bit(a[k], i) + Bit(b[k], i)) % 2
  {
    XorBitsBit(a[k], b[k], 8, i);
  }

  /** Operands of any other length are refused, and nothing else is. */
  lemma XorRefusals(a: seq<byte>, b: seq<byte>)
    ensures Xored(a, b) == Err(WrongLength) <==> |a| != 32 || |b| != 32
    ensures Xored(a, b).Ok? <==> |a| == 32 && |b| == 32
    ensures Xored(a, b).Ok? ==> |Xored(a, b).value| == 32
  {}

  lemma {:induction false} XorBitsCommute(a: nat, b: nat, n: nat)
    ensures XorBits(a, b, n) == XorBits(b, a, n)
  {
    if n > 0 {
      XorBitsCommute(a / 2, b / 2, n - 1);
    }
  }

  lemma XoredCommute(a: seq<byte>, b: seq<byte>)
    ensures Xored(a, b) == Xored(b, a)
  {
    hide XorBits;
    if |a| == 32 && |b| == 32 {
      forall i | 0 <= i < 32
        ensures XorByte(a[i], b[i]) == XorByte(b[i], a[i])
      {
        XorBitsCommute(a[i], b[i], 8);
      }
      assert Xored(a, b).value == Xored(b, a).value;
    }
  }

  /** Under another pad a wrapped key is another key. */
  lemma OtherPadOtherKey(w: seq<byte>, p: seq<byte>, t: seq<byte>)
    requires |w| == 32 && |p| == 32 && |t| == 32
    ensures Xored(w, p) == Xored(w, t) <==> p == t
  {
    hide XorByte;
    XoredCommute(w, p);
    XoredCommute(w, t);
    XoredTwice(p, w);
    XoredTwice(t, w);
  }

  /** The bytes deriveWrappingKey hashes: the label's digest, then both coordinates. */
  function WrappingPreimage(h: Hashes, shared: Point): seq<byte>
    requires PointBytes(shared).Ok?
  {
    Raw(h, "FairProof:dek:v1") + PointBytes(shared).value
  }

  lemma WrappingKeyIsDigest(h: Hashes, s: Point)
    ensures WrappingKey(h, s).Ok? <==> PointBytes(s).Ok?
    ensures PointBytes(s).Ok? ==>
              && |WrappingKey(h, s).value| == 32
              && BeValue(WrappingKey(h, s).value) == h.keccak(WrappingPreimage(h, s))
  {
    hide PointBytes, BeValue;
    if PointBytes(s).Ok? {
      Pow256Of32();
      ValueOfBytes(h.keccak(WrappingPreimage(h, s)), 32);
    }
  }

  /** Two shared points unwrap one wrapped key alike only if they are one point or keccak collides. */
  lemma UnwrapBinds(h: Hashes, wrapped: seq<byte>, s: Point, s': Point)
    requires UnwrapDek(h, wrapped, s).Ok? && UnwrapDek(h, wrapped, s) == UnwrapDek(h, wrapped, s')
    ensures PointBytes(s).Ok? && PointBytes(s').Ok?
    ensures s == s' || KeccakCollides(h, WrappingPreimage(h, s), WrappingPreimage(h, s'))
  {
    hide XorByte, PointBytes, BeValue, WrappingKey, Xored;
    WrappingKeyIsDigest(h, s);
    WrappingKeyIsDigest(h, s');
    OtherPadOtherKey(wrapped, WrappingKey(h, s).value, WrappingKey(h, s').value);
    if WrappingPreimage(h, s) == WrappingPreimage(h, s') {
      SplitEqual(Raw(h, "FairProof:dek:v1"), PointBytes(s).value, Raw(h, "FairProof:dek:v1"), PointBytes(s').value);
      PointBytesInjective(s, s');
    }
  }

  /** Only the bidder's shared point recovers the key, or keccak collides. */
  lemma OnlySharedUnwraps(h: Hashes, c: Curve, key: Point, dek: seq<byte>, r: int, s: Point)
    requires c.q > 0 && Encapsulate(h, c, key, dek, r).Ok?
    ensures var e := Encapsulate(h, c, key, dek, r).value;
            && PointBytes(e.shared).Ok?
            && (UnwrapDek(h, e.wrapped, s) == Ok(dek) ==>
                  && PointBytes(s).Ok?
                  && (s == e.shared || KeccakCollides(h, WrappingPreimage(h, s), WrappingPreimage(h, e.shared))))
  {
    hide XorByte, PointBytes, Mul, IsInPrimeSubgroup, UnwrapDek;
    EncapsulateUnwraps(h, c, key, dek, r);
    var e := Encapsulate(h, c, key, dek, r).value;
    WrappingKeyIsDigest(h, e.shared);
    if UnwrapDek(h, e.wrapped, s) == Ok(dek) {
      UnwrapBinds(h, e.wrapped, s, e.shared);
    }
  }

  // ----- refusals and what a sealed bid carries

  /** Which check of encapsulate refuses, in terms of the arguments. */
  lemma EncapsulateRefusals(h: Hashes, c: Curve, key: Point, dek: seq<byte>, r: int)
    requires Lawful(c)
    ensures c.q > 0
    ensures Encapsulate(h, c, key, dek, r) == Err(WrongLength) <==> |dek| != 32
    ensures Encapsulate(h, c, key, dek, r) == Err(KeyNotInSubgroup) <==> |dek| == 32 && !IsInPrimeSubgroup(c, key)
    ensures Encapsulate(h, c, key, dek, r) == Err(EphemeralOutOfRange) <==>
              |dek| == 32 && IsInPrimeSubgroup(c, key) && !(0 < r < c.q)
    ensures Encapsulate(h, c, key, dek, r).Ok? <==> |dek| == 32 && IsInPrimeSubgroup(c, key) && 0 < r < c.q
    ensures Encapsulate(h, c, key, dek, r).Ok? ==>
              var e := Encapsulate(h, c, key, dek, r).value;
              e.ephemeral == Mul(c, r, c.base) && e.shared == Mul(c, r, key)
  {
    hide Mul, Lawful, XorByte, PointBytes, IsInPrimeSubgroup, WrappingKey;
    BaseInSubgroup(c);
    if |dek| == 32 && IsInPrimeSubgroup(c, key) && 0 < r < c.q {
      EncapsulateDefined(h, c, key, dek, r);
    }
  }

  /** The refusals of sealBid after the key is wrapped: amount, nonce, widths, in that order. */
  lemma SealRefusals(env: Env, payload: BidPayload, key: Point, tender: int, nullifier: int,
                     dek: seq<byte>, iv: seq<byte>, r: int)
    requires LawfulEnv(env)
    ensures env.c.q > 0
    ensures var sealed := SealBid(env, payload, key, tender, nullifier, dek, iv, r);
            var wrapped := Encapsulate(env.h, env.c, key, dek, r);
            var amount, nonce := env.toBigInt(DStr(payload.amountMinorUnit)), env.toBigInt(DStr(payload.bidNonce));
            && (wrapped.Err? ==> sealed == Err(wrapped.error))
            && (wrapped.Ok? && (amount.None? || nonce.None?) ==> sealed == Err(MalformedPayload))
            && (wrapped.Ok? && amount.Some? && nonce.Some? && amount.value < 0 ==> sealed == Err(NegativeValue))
            && (wrapped.Ok? && amount.Some? && nonce.Some? && amount.value >= UINT64 ==> sealed == Err(ValueTooWide))
            && (wrapped.Ok? && amount.Some? && nonce.Some? && 0 <= amount.value < UINT64 && |iv| != 12 ==>
                  sealed == Err(WrongLength))
  {
    hide Mul, Lawful, LawfulPlatform, IsInPrimeSubgroup, Encapsulate, PayloadBytes, Poseidon, Carries, Canonical;
    EnvCurve(env);
    PayloadReturns(env.platform, payload);
    if Encapsulate(env.h, env.c, key, dek, r).Ok? {
      var e := Encapsulate(env.h, env.c, key, dek, r).value;
      var (ct, tag) := env.encrypt(dek, iv, PayloadBytes(env.platform, payload).value);
      CanonicalRefusals(CiphertextParts(e.ephemeral.x, e.ephemeral.y, e.wrapped, iv, ct, tag));
    }
  }

  /** The refusals of openSealedBid, each in terms of what the foreign functions answered. */
  lemma OpenRefusals(env: Env, x: CiphertextParts, s: Point, expected: int, tender: int, nullifier: int)
    ensures var outcome := OpenSealedBid(env, x, s, expected, tender, nullifier);
            var dek := UnwrapDek(env.h, x.wrapped, s);
            && (|x.wrapped| != 32 ==> outcome == Err(WrongLength))
            && (dek.Err? ==> outcome == Err(dek.error))
            && (dek.Ok? ==>
                  var text := env.decrypt(dek.value, x.iv, x.ct, x.tag);
                  && (text.None? ==> outcome == Err(AuthenticationFailed))
                  && (text.Some? ==>
                        var parsed := env.platform.parseJson(env.platform.decodeText(text.value));
                        && (parsed.None? ==> outcome == Err(MalformedPayload))
                        && (parsed.Some? && (Field(parsed.value, AMOUNT).None? || Field(parsed.value, NONCE).None?) ==>
                              outcome == Err(MalformedPayload))))
            && (outcome.Ok? ==>
                  BidCommitment(env.h, outcome.value.bidAmount, outcome.value.bidNonce, tender, nullifier) == Ok(expected))
  {
    hide WrappingKey, Xored, Poseidon;
  }

  /** A decryption share is the member's scalar times R, reduced or not; a negative scalar throws. */
  lemma DecryptionShareIs(c: Curve, share: int, r: Point)
    requires Lawful(c) && IsInPrimeSubgroup(c, r)
    ensures share >= 0 ==> DecryptionShare(c, share, r) == Ok(Mul(c, share, r))
    ensures share < 0 && !Cong(c.q, share, 0) ==> DecryptionShare(c, share, r) == Err(NegativeScalar)
  {
    hide Mul, Lawful, Cong, IsInPrimeSubgroup;
    BaseInSubgroup(c);
    CongTruncMod(c.q, share);
    if share >= 0 {
      MulCong(c, TruncMod(share, c.q), share, r);
    } else if TruncMod(share, c.q) == 0 {
      CongSym(c.q, 0, share);
    }
  }

  /** The parts of a sealed bid that the opening does not look at. */
  lemma SealedParts(env: Env, payload: BidPayload, key: Point, tender: int, nullifier: int,
                    dek: seq<byte>, iv: seq<byte>, r: int)
    requires LawfulEnv(env) && SealBid(env, payload, key, tender, nullifier, dek, iv, r).Ok?
    ensures var s := SealBid(env, payload, key, tender, nullifier, dek, iv, r).value;
            && s.dek == dek && s.ciphertext.iv == iv && Canonical(s.ciphertext) == Ok(s.canonicalBytes)
            && s.ciphertextHash == env.h.keccak(Raw(env.h, "FairProof:ciphertext:v1") + s.canonicalBytes)
            && s.ciphertextHashField == s.ciphertextHash / 256
            && env.toBigInt(DStr(payload.amountMinorUnit)).Some? && env.toBigInt(DStr(payload.bidNonce)).Some?
            && BidCommitment(env.h, env.toBigInt(DStr(payload.amountMinorUnit)).value,
                             env.toBigInt(DStr(payload.bidNonce)).value, tender, nullifier) == Ok(s.bidCommitment)
  {
    hide Mul, Lawful, LawfulPlatform, IsInPrimeSubgroup, Canonical, Encapsulate, PayloadBytes, Poseidon;
  }

  /** The published hash fixes the ciphertext, or keccak collides; its field form, the same cut to 248 bits. */
  lemma CiphertextHashBinds(h: Hashes, x: CiphertextParts, y: CiphertextParts)
    requires Canonical(x).Ok? && Canonical(y).Ok?
    ensures var u := Raw(h, "FairProof:ciphertext:v1") + Canonical(x).value;
            var v := Raw(h, "FairProof:ciphertext:v1") + Canonical(y).value;
            && (h.keccak(u) == h.keccak(v) ==> x == y || KeccakCollides(h, u, v))
            && (ToField(h.keccak(u)) == ToField(h.keccak(v)) ==> x == y || TruncatedCollides(h, u, v))
  {
    hide Canonical, Parsed, ToField;
    var u, v := Raw(h, "FairProof:ciphertext:v1") + Canonical(x).value, Raw(h, "FairProof:ciphertext:v1") + Canonical(y).value;
    if u == v {
      SplitEqual(Raw(h, "FairProof:ciphertext:v1"), Canonical(x).value, Raw(h, "FairProof:ciphertext:v1"), Canonical(y).value);
      ParseOfCanonical(x);
      ParseOfCanonical(y);
    }
  }

  // ----- the hypotheses are satisfiable

  /** A cipher that hides nothing, over the integers modulo 8q. */
  function SampleEnv(q: int, h: Hashes, toBigInt: Doc -> Option<int>): Env
    requires q > 0
  {
    Env(h, ResidueCurve(q), SAMPLE, toBigInt,
        (dek: seq<byte>, iv: seq<byte>, text: seq<byte>) => (text, seq(16, _ => 0)),
        (dek: seq<byte>, iv: seq<byte>, ct: seq<byte>, tag: seq<byte>) => Some(ct))
  }

  lemma EnvSatisfiable(q: int, h: Hashes, toBigInt: Doc -> Option<int>)
    requires IsPrime(q) && q > 2 && 4 * q <= CURVE_PRIME
    ensures LawfulEnv(SampleEnv(q, h, toBigInt))
  {
    hide Lawful, LawfulPlatform, IsPrime;
    LawsSatisfiable(q);
    SamplePlatformLawful();
    var env := SampleEnv(q, h, toBigInt);
    forall dek, iv, text
      ensures GcmInverts(env, dek, iv, text)
    {
    }
  }
}
