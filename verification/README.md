# FairProof sealed-bid core: a verified model

This project models the cryptographic core of the sealed-bid tender system in
`packages/crypto`, together with the ciphertext parser of the dashboard, and
proves what the rest of the system relies on: every qualifying set of committee
members opens every bid, the shares of fewer members carry no information, a
published root fixes what it was built from, the cheapest bid wins, and every
encoding can be undone.

`dafny verify dfyconfig.toml` checks everything.

## How it is organised

| files | what they hold |
|---|---|
| `Prelude`, `Modular` | results and errors; congruences, primes, JavaScript's truncating `%` and `/` |
| `Inverse` | `invModSubOrder` against the inverse it computes |
| `Polynomials`, `Interpolation` | finite-field polynomials, the root bound, Lagrange coefficients |
| `Curve` | the group interface of `babyjub.ts` over an abstract curve |
| `Sharing`, `Dealing`, `Opening`, `Hiding` | Feldman sharing: the loops, the check of a dealing, and the theorems |
| `Hashing`, `Bytes` | hashes as parameters, explicit collisions; fixed-width integers |
| `Dleq`, `ProvenShares`, `Payload`, `SealedBid`, `Ciphertext` | Chaum-Pedersen proofs and what a proven share is worth, the bid's plaintext, sealing and opening, the byte layout and its parser |
| `Merkle`, `Revocation`, `Receipts` | the accumulator class, the sparse revocation tree, receipts and the issuer registry |
| `Sorting`, `Award` | sorting by a key, winner selection and the award witness |
| `JsonText`, `Jcs`, `JsonReader`, `Surrogates` | the canonical JSON text, what a value denotes, a JSON reader that gives it back, and the escapes RFC 8785 does not allow |

Loops of the source are methods, each proved against a function; the theorems
are lemmas about those functions. The objects of the source that hold state are
classes. Expressions and recursion of the source are functions.

## Conventions and hypotheses

- The subgroup order `q` is a parameter; the theorems that need it take
  `IsPrime(q)` as a hypothesis. JavaScript's remainder and quotient truncate
  toward zero and are written out as `TruncMod` and `TruncDiv`.
- The curve is a parameter with the laws the source relies on (`Lawful`): a
  commutative group of order `cofactor * q` whose generator generates everything
  killed by `q`. `LawsSatisfiable` exhibits an instance, the integers modulo 8q.
- Keccak and Poseidon are parameters. No result assumes a hash injective:
  binding results compute two colliding inputs. `Poseidon` reduces its inputs
  modulo `FIELD_PRIME` before it hashes, as the library does, and only inputs
  that differ after the reduction are a collision. Binding therefore says equal
  amounts and indices, which are range-checked, and equal field elements for the
  other fields; these are equal numbers when both are reduced.
- `TextEncoder`, `TextDecoder`, `JSON.parse`, `BigInt` of a JSON value and
  AES-256-GCM are parameters. The end-to-end result assumes that decryption
  undoes encryption, that UTF-8 carries every text without a lone surrogate, and
  that `JSON.parse` agrees with the project's reader on compact objects of
  strings. That the printed payload is such a text is proved, not assumed, and
  `EnvSatisfiable` exhibits an environment that meets all hypotheses.
- Random draws (coefficients, ephemeral scalar, nonce, keys) are parameters.
- Error messages are replaced by the constructors of `Error`, and the messages
  of `verifyDealing` by those of `Problem`.

## Where a property fails, and exactly when it holds

- A checked dealing is opened by a qualifying set if and only if no two of the
  set's indices are congruent modulo q; otherwise both ways of opening throw
  (`VerifiedDealingOpens`, `EverySetOpensIff`). `verifyDealing` compares indices
  as numbers, so it accepts the members 1, 2 and q + 1 of an honest dealing
  (`CongruentIndicesPass`). Indices below q, a 251-bit number, always qualify
  (`SmallMembersOpen`). In the source an index is a JavaScript number, a double,
  and q + 1 is none; the model's integers are wider here, and no pair of doubles
  that fails is known.
- A dealing with fewer members than its threshold passes `verifyDealing` with
  any secret whatever (`UnpinnedSecret`; `EmptyCommitteePasses` is an instance).
  The check ties the secret to the public key if and only if
  `size >= threshold` (`SecretPinnedIff`).
- An honest dealing is refused when one member's value happens to be zero
  (`ZeroShareRefused` is an instance). It passes if and only if no member is
  dealt zero (`HonestDealingPassesIff`). It can be opened either way
  (`DealtOpens`).
- An honest equality proof is rejected when its response is zero, for any hash
  if and only if the nonce is congruent to minus the challenge times the secret
  (`HonestProofAcceptedIff`, `HonestProofRejectedIff`). Under a hash with a
  constant answer, not zero modulo q, every secret has exactly one such nonce
  (`HonestProofCanFail`).
- A proof is documented to show that log_G(Y) equals log_R(D). `verifyDleq` asks
  only that D lie on the curve, and the proof shows it up to the cofactor: D is
  x times R if and only if D lies in the prime-order subgroup
  (`SpecialSoundness`). A share off by a curve point T is accepted with the
  honest response if and only if the challenge times T is the identity and the
  response is not zero (`ShiftedShareAcceptedIff`; `ShiftedShareCanPass` is an
  instance, with T of order two and an even challenge).
- Fewer shares than the threshold carry no information about the secret over all
  coefficient vectors: every candidate secret is explained by equally many
  (`PerfectHiding`, `CountExplanations`). `randomScalar` never draws 0, so with
  drawn coefficients t-1 shares do exclude some secrets: exactly the roots of the
  t-1 affine coefficients of their explanation, so at most t-1 of them, whatever
  the threshold (`DrawnDealingExcludesFew`). With threshold 2 the one secret
  excluded is the member's own value (`DrawnDealingExcludesOwnValue`).
- These statements are about shares. The published commitments and the public key
  fix the secret in the exponent (`BaseOrder`); that nobody can read it off them
  is a computational claim and is left out.
- `siblingsFor` is documented for any other credential id. For ids beyond the
  tree's range the siblings lead to the root if and only if the id and the
  revoked id agree above the depth, or a collision is at hand
  (`LeadsToRootIff`).
- A revoked id cannot be shown unrevoked without a collision when the marker is
  not zero in the field (`RevocationBinds`), and otherwise it can
  (`ZeroMarkerRevokesNothing`).
- `jcsCanonicalize` names RFC 8785, whose section 3.2.2.2 makes a lone surrogate
  an error. `JSON.stringify` escapes it instead: the text escapes a surrogate if
  and only if some string of the value holds a lone one (`EscapesSurrogateIff`;
  `LoneSurrogateAccepted` is an instance).

## Model

| member | source | states |
|---|---|---|
| `Inverse.InvModSubOrder` | packages/crypto/src/babyjub.ts:148-158 | Terminates on every integer and returns the one inverse in [0, q), refusing exactly the inputs that have none |
| `Inverse.InverseOfPrime` | packages/crypto/src/babyjub.ts:148-158 | Modulo a prime the refused inputs are exactly the multiples of q, and an inverse lies in [1, q) |
| `Modular.TruncDivision` | packages/crypto/src/babyjub.ts:148-158 | JavaScript's bigint quotient and remainder: they recombine, and the remainder has the sign of the dividend |
| `Inverse.EuclidStep` | packages/crypto/src/babyjub.ts:151-155 | One truncated-division step keeps the Bezout relations, the alternating signs, the balance of the cofactors to q and the common divisors |
| `Inverse.CofactorsBounded` | packages/crypto/src/babyjub.ts:150-155 | The cofactors may go negative but never exceed q in size |
| `Inverse.EuclidEnd` | packages/crypto/src/babyjub.ts:156-157 | A final remainder of 1 makes the cofactor's residue the inverse; any other means there is none |
| `CurveGroup.LawsSatisfiable` | packages/crypto/src/babyjub.ts:87-139 | For every odd prime q with 4q at most the field prime, SUB_ORDER's size included, the group laws have an instance with cofactor 8, so the hypotheses are consistent |
| `CurveGroup.UnreducedOffCurve` | packages/crypto/src/babyjub.ts:122-125 | A coordinate at or above the field prime is off the curve, whatever the equation says |
| `CurveGroup.BaseOrder` | packages/crypto/src/babyjub.ts:113-115 | Two multiples of the generator are equal exactly when the scalars are congruent modulo q |
| `CurveGroup.DiscreteLog` | packages/crypto/src/babyjub.ts:137-140 | Every point that passes the subgroup check is a multiple of the generator by a scalar below q |
| `CurveGroup.ClearCofactor` | packages/crypto/src/babyjub.ts:122-140 | The cofactor multiple of any curve point lies in the prime-order subgroup |
| `CurveGroup.MulMul` | packages/crypto/src/babyjub.ts:102-110 | Unreduced scalar multiplication composes as multiplication of scalars |
| `CurveGroup.MulAdd` | packages/crypto/src/babyjub.ts:87-110 | Scalar multiplication turns sums of scalars into sums of points |
| `CurveGroup.MulCong` | packages/crypto/src/babyjub.ts:102-110 | On points of the prime-order subgroup only the residue of the scalar matters, which is what reducing coefficients and powers modulo q relies on |
| `Polynomials.EvaluatePolynomial` | packages/crypto/src/vss.ts:134-140 | The reducing Horner loop is congruent to the sum of powers |
| `Polynomials.EvalIsPowerSum` | packages/crypto/src/vss.ts:134-140 | Horner's nesting and the ascending sum of powers are one polynomial |
| `Polynomials.EvalModResidue` | packages/crypto/src/vss.ts:134-140 | On the dealer's inputs the value is the residue in [0, q) |
| `Polynomials.RootBound` | packages/crypto/src/vss.ts:111-140 | A polynomial with as many roots modulo a prime as coefficients vanishes |
| `Polynomials.Interpolant` | packages/crypto/src/vss.ts:111-140 | Through any values at separated indices there is a polynomial with as many coefficients |
| `Polynomials.InterpolantUnique` | packages/crypto/src/vss.ts:111-140 | Two reduced coefficient vectors that agree at as many separated points as they have coefficients are equal |
| `Interpolation.LagrangeCoefficient` | packages/crypto/src/vss.ts:241-257 | The loop over reduced products returns the product of the other indices over the product of differences, or the error of the first failing check |
| `Interpolation.CoefficientDefinedIff` | packages/crypto/src/vss.ts:241-257 | It succeeds exactly for members of duplicate-free sets in which no other index is congruent to the member |
| `Interpolation.AllCoefficientsDefinedIff` | packages/crypto/src/vss.ts:241-257 | All coefficients of a set exist exactly when its indices are pairwise incongruent |
| `Interpolation.CoefficientRefusals` | packages/crypto/src/vss.ts:241-257 | Which of the three checks refuses: membership, then duplicates, then the inverse |
| `Interpolation.WeightEquation` | packages/crypto/src/vss.ts:246-256 | The coefficient satisfies its division-free defining equation with an invertible denominator |
| `Interpolation.WeightsSumToOne` | packages/crypto/src/vss.ts:241-257 | Over any separated index set the coefficients at zero sum to one |
| `Interpolation.InterpolatesAtZero` | packages/crypto/src/vss.ts:241-274 | For every polynomial with at most as many coefficients as indices, values times coefficients sum to the constant term |
| `Sharing.ReconstructSecret` | packages/crypto/src/vss.ts:267-274 | The loop is the running weighted sum, or the first coefficient's refusal |
| `Sharing.ReconstructDefinedIff` | packages/crypto/src/vss.ts:241-274 | reconstructSecret returns rather than throws exactly when no two indices are congruent modulo q |
| `Sharing.RecoversScalar` | packages/crypto/src/vss.ts:267-274 | Any sufficiently many values, in any order, reconstruct the polynomial at zero |
| `Sharing.CombineInExponent` | packages/crypto/src/vss.ts:282-291 | The loop is the running weighted sum of points, or the first refusal |
| `Sharing.RecoversPoint` | packages/crypto/src/vss.ts:282-291 | Shares of a subgroup point R combine to f(0) times R |
| `Sharing.ExpectedPublicShare` | packages/crypto/src/vss.ts:151-160 | The loop with a reduced running power is the Feldman sum, refusing indices below 1 |
| `Sharing.ExpectedShareIsValue` | packages/crypto/src/vss.ts:151-160 | The Feldman sum of a dealer's commitments is the generator times the dealer's Horner evaluation, at every index |
| `Sharing.VerifyShareExact` | packages/crypto/src/vss.ts:163-170 | Against honest commitments a share passes exactly when it is the dealt value, nonzero, with its own public share |
| `Sharing.VerifyShareBinding` | packages/crypto/src/vss.ts:163-170 | Against any commitments at most one share passes per index |
| `Sharing.VerifyShareOutcomes` | packages/crypto/src/vss.ts:163-170 | True, false or thrown, for every share: range and public share are looked at before the index |
| `Dealing.DealCommitteeKey` | packages/crypto/src/vss.ts:95-131 | Refuses exactly the listed inputs in the listed order, and otherwise deals commitments to the coefficients and their values at 1..n |
| `Dealing.DealRefusals` | packages/crypto/src/vss.ts:103-121 | In terms of the arguments: nothing is refused exactly when 2 <= threshold <= size, 0 < secret < q, the count fits and no coefficient is negative; and each error exactly when its check is the first to fail |
| `Dealing.DealtParts` | packages/crypto/src/vss.ts:123-131 | The dealing from the coefficients alone: commitments, and the sum of powers at 1 to n with its public share |
| `Dealing.VerifyDealing` | packages/crypto/src/vss.ts:179-231 | Reports a problem if and only if the dealing has it, throws if and only if a check inside throws, and is ok exactly when neither happens |
| `Dealing.CommitmentProblems` | packages/crypto/src/vss.ts:180-203 | The checks before the shares report exactly the static problems |
| `Dealing.ShareProblems` | packages/crypto/src/vss.ts:204-214 | The share loop reports exactly the duplicates and bad shares, and decides whether the indices are usable |
| `Opening.AcceptedShareIsValue` | packages/crypto/src/vss.ts:163-170 | A share accepted against arbitrary curve points is a value of the polynomial behind them, their small-order parts notwithstanding |
| `Opening.OkGivesPolynomial` | packages/crypto/src/vss.ts:179-231 | Every dealing that passes comes from one polynomial with the public key as its constant term in the exponent |
| `Opening.OkPinsSecret` | packages/crypto/src/vss.ts:224-228 | With enough members the dealt secret is that polynomial's constant term, whatever the indices |
| `Opening.GroupRecovers` | packages/crypto/src/vss.ts:267-291 | Every qualifying set with incongruent indices recovers the committed constant term, in the clear and in the exponent |
| `Opening.VerifiedDealingOpens` | packages/crypto/src/vss.ts:179-291 | A dealing that passes with size >= threshold: every t or more distinct members, in any order, reconstruct the secret and combine to secret times R if their indices are incongruent modulo q, and both computations throw if not; the public key is secret times G; commitments beyond the first need not lie in the subgroup |
| `Opening.EverySetOpensIff` | packages/crypto/src/vss.ts:179-274 | All qualifying sets of a checked dealing reconstruct its secret if and only if its indices are pairwise incongruent modulo q |
| `Opening.CongruentIndicesPass` | packages/crypto/src/vss.ts:179-274 | A checked dealing with congruent indices, whose full set of members cannot reconstruct |
| `Opening.SmallMembersOpen` | packages/crypto/src/vss.ts:179-274 | With member numbers below q every qualifying set reconstructs |
| `Opening.UnpinnedSecret` | packages/crypto/src/vss.ts:203-228 | With fewer members than the threshold the check accepts any secret |
| `Opening.SecretPinnedIff` | packages/crypto/src/vss.ts:203-228 | A dealing that passes determines its secret if and only if size >= threshold |
| `Opening.EmptyCommitteePasses` | packages/crypto/src/vss.ts:179-231 | A dealing without members passes with any secret |
| `Opening.DealtOpens` | packages/crypto/src/vss.ts:95-291 | Every honest dealing is opened by every qualifying set in any order, in the clear and in the exponent |
| `Opening.HonestDealingPassesIff` | packages/crypto/src/vss.ts:163-231 | An honest dealing passes the check if and only if no member was dealt zero |
| `Opening.ZeroShareRefused` | packages/crypto/src/vss.ts:163-231 | A dealing that dealCommitteeKey produces and verifyDealing refuses |
| `Hiding.ExplainingDealing` | packages/crypto/src/vss.ts:111-140 | For any t-1 members, values and secret, some reduced coefficient vector yields those values |
| `Hiding.ExplanationUnique` | packages/crypto/src/vss.ts:111-140 | No two reduced coefficient vectors with that secret yield the same t-1 values |
| `Hiding.PerfectHiding` | packages/crypto/src/vss.ts:111-140 | Exactly one coefficient vector fits, for every candidate secret: t-1 shares carry no information |
| `Hiding.CountExplanations` | packages/crypto/src/vss.ts:111-140 | Any k < t members and any values: exactly q^(t-1-k) coefficient vectors fit, listed without repetition, for every candidate secret alike |
| `Hiding.SharesDoNotDetermineSecret` | packages/crypto/src/vss.ts:111-131 | Any t-1 shares of a dealing, with those members' own public shares, are also shares of a dealing of any other secret |
| `Hiding.DrawnExplanationIff` | packages/crypto/src/vss.ts:79-140 | A secret is explained by a dealing without zero coefficients exactly when it is no root of the affine coefficients of its explanation |
| `Hiding.DrawnDealingExcludesFew` | packages/crypto/src/vss.ts:79-140 | For every threshold t, the t-1 shares of a drawn dealing exclude exactly those roots, at most t-1 secrets and never the dealt one; every other secret has a drawn dealing with the same shares |
| `Hiding.DrawnDealingExcludesOwnValue` | packages/crypto/src/vss.ts:79-140 | The case of threshold 2: one share excludes exactly its own value as the secret |
| `Dleq.PreimageInjective` | packages/crypto/src/dleq.ts:49-73 | Different statements or commitments never have the same challenge preimage |
| `Dleq.PreimageLayout` | packages/crypto/src/dleq.ts:56-71 | The 416 hashed bytes: the label, then G, Y, R, D, A and B, each coordinate big-endian in 32 bytes |
| `Dleq.ChallengeIsDigest` | packages/crypto/src/dleq.ts:49-73 | For all curve points the challenge is the digest of exactly those bytes, reduced |
| `Dleq.ChallengeBinds` | packages/crypto/src/dleq.ts:44-73 | Equal challenges come from equal statements and commitments, or two different preimages agree modulo q |
| `Dleq.ReplayBinds` | packages/crypto/src/dleq.ts:40-150 | A proof accepted for one member and two ciphertexts or decryption shares names two such preimages |
| `Dleq.ResponseUnique` | packages/crypto/src/dleq.ts:120-150 | At most one response is accepted per statement and commitments, and it lies in (0, q) |
| `Dleq.OffCurveRejected` | packages/crypto/src/dleq.ts:126-133 | Any of the five points off the curve, or z outside (0, q), is rejected and nothing is thrown |
| `Dleq.ProveRefusals` | packages/crypto/src/dleq.ts:83-112 | Which scalar is refused first, and which commitments are sent otherwise |
| `Dleq.HonestProofAcceptedIff` | packages/crypto/src/dleq.ts:83-150 | For every secret, nonce and subgroup point a proof is produced, and it is accepted exactly when its response is not 0 |
| `Dleq.HonestProofRejectedIff` | packages/crypto/src/dleq.ts:83-150 | For any hash an honest proof is rejected exactly when the nonce is congruent to minus the challenge times the secret |
| `Dleq.HonestProofCanFail` | packages/crypto/src/dleq.ts:83-150 | Under a hash with a constant answer, for every secret: the honest proof is rejected for exactly one nonce, which is in range whenever the challenge is not zero |
| `Dleq.SpecialSoundness` | packages/crypto/src/dleq.ts:120-150 | Two transcripts with equal commitments and different challenges determine one x with Y = xG and D = xR up to the cofactor; Y = xG for Y in the subgroup, and for R in the subgroup D = xR if and only if D is in it |
| `Dleq.AcceptedTwice` | packages/crypto/src/dleq.ts:120-150 | Special soundness stated of verifyDleq: the same commitments accepted under two hash functions with different challenges fix the scalar |
| `ProvenShares.ShiftedShareAcceptedIff` | packages/crypto/src/dleq.ts:120-150 | A decryption share off by a curve point is accepted with the honest response exactly when the challenge kills that point and the response is not 0; it is the right share exactly when the point is the identity |
| `ProvenShares.ShiftedShareCanPass` | packages/crypto/src/dleq.ts:120-150 | An instance: on a curve of order 8q, a wrong share that is accepted under an even challenge |
| `ProvenShares.TranscriptsProveShare` | packages/crypto/src/dleq.ts:120-150 | Two transcripts for a dealt member's public share fix the decryption share up to the cofactor |
| `ProvenShares.ProvenInSubgroup` | packages/crypto/src/dleq.ts:120-150 | Such a share is the member's share times R if and only if it lies in the prime-order subgroup |
| `ProvenShares.ProvenSharesCombine` | packages/crypto/src/vss.ts:282-291 | Proven shares of a qualifying set combine to secret times R up to the cofactor, and exactly when each lies in the subgroup |
| `Bytes.ToBytes` | packages/crypto/src/field.ts:81-93 | The shifting loop fills the big-endian bytes, and throws exactly on negative or too wide values |
| `Bytes.BeByteAt` | packages/crypto/src/field.ts:85-88 | Byte i is the value shifted right by the bytes behind it: big-endian |
| `Bytes.EncodedRefusals` | packages/crypto/src/field.ts:81-93 | Negative values and those with something left after n bytes are refused, each with its error |
| `Bytes.BeBigInt` | apps/dashboard/src/lib/ciphertext.ts:14-18 | The accumulation loop is the big-endian value |
| `Bytes.BeValueFrom` | packages/crypto/src/field.ts:46-48 | The first byte weighs most |
| `Bytes.ValueOfBytes` | packages/crypto/src/field.ts:81-93 | Encoding, then reading, returns the value |
| `Bytes.BytesOfValue` | packages/crypto/src/field.ts:36-49 | Reading, then encoding at the same width, returns the bytes |
| `Bytes.EncodedInjective` | packages/crypto/src/field.ts:81-93 | Equal encodings of one width come from equal values |
| `Bytes.ConcatBytes` | packages/crypto/src/field.ts:96-105 | Filling one buffer at an advancing offset is concatenation |
| `Ciphertext.ParseCiphertextBytes` | apps/dashboard/src/lib/ciphertext.ts:20-58 | The cursor reads the fixed layout, refusing short input, other versions and wrong lengths |
| `Ciphertext.ParseRefusals` | apps/dashboard/src/lib/ciphertext.ts:20-58 | Each refusal in terms of the bytes: below 129 of them, a first byte other than 1, a length that does not add up |
| `Ciphertext.CanonicalLayout` | packages/crypto/src/encoding.ts:56-66 | Which part stands at which offset, and the version byte 1 |
| `Ciphertext.CanonicalRefusals` | packages/crypto/src/encoding.ts:47-62 | Wrong widths are refused before the coordinates are encoded |
| `Ciphertext.ParseOfCanonical` | packages/crypto/src/encoding.ts:47-67 | Parsing an encoding returns the same parts, for all parts that encode |
| `Ciphertext.CanonicalOfParse` | apps/dashboard/src/lib/ciphertext.ts:20-58 | Every accepted byte string re-encodes to itself |
| `Ciphertext.AcceptedIffCanonical` | apps/dashboard/src/lib/ciphertext.ts:20-58 | The accepted strings are exactly the encodings, each of one ciphertext |
| `Ciphertext.CanonicalDefinedIff` | packages/crypto/src/encoding.ts:47-67 | Exactly which parts encode: fixed widths, coordinates of 32 bytes, length of 4 bytes |
| `SealedBid.Xor32` | packages/crypto/src/elgamal.ts:58-65 | The buffer loop is the bytewise exclusive or of `Xored`, refusing other lengths |
| `SealedBid.XoredTwice` | packages/crypto/src/elgamal.ts:58-65 | Applying one pad twice gives the input back |
| `SealedBid.XorRefusals` | packages/crypto/src/elgamal.ts:58-61 | Exactly the operands of other lengths are refused |
| `SealedBid.XoredBits` | packages/crypto/src/elgamal.ts:58-65 | Bit i of byte k is the sum of the operands' bits modulo 2 |
| `SealedBid.OtherPadOtherKey` | packages/crypto/src/elgamal.ts:58-65 | Two pads give the same result exactly when they are the same pad |
| `SealedBid.WrappingKeyIsDigest` | packages/crypto/src/elgamal.ts:46-56 | The wrapping key is the digest of the label and both coordinates |
| `SealedBid.EncapsulateUnwraps` | packages/crypto/src/elgamal.ts:75-113 | Whatever encapsulate wraps, unwrapDek returns under the same shared point |
| `SealedBid.EncapsulateRefusals` | packages/crypto/src/elgamal.ts:75-103 | Each refusal in terms of the arguments, and the two points otherwise |
| `SealedBid.UnwrapBinds` | packages/crypto/src/elgamal.ts:110-113 | Two shared points that unwrap a key alike are one point, or keccak collides |
| `SealedBid.OnlySharedUnwraps` | packages/crypto/src/elgamal.ts:46-113 | A point that recovers the wrapped key is the bidder's shared point, or keccak collides |
| `SealedBid.DecryptionShareIs` | packages/crypto/src/elgamal.ts:122-124 | For a subgroup point the share is the scalar times it, reduced or not; negative scalars throw |
| `SealedBid.GroupFindsShared` | packages/crypto/src/elgamal.ts:122-124 | Decryption shares of any qualifying set with incongruent indices combine to the point the bidder used; with congruent ones the combination throws |
| `SealedBid.SealsIff` | packages/crypto/src/sealedbid.ts:168-214 | Exactly which bids seal; the payload's strings may be anything, lone surrogates included |
| `SealedBid.SealRefusals` | packages/crypto/src/sealedbid.ts:180-214 | Which step refuses first: wrapping, then amount and nonce, then the amount's range, then the widths |
| `SealedBid.OpenRefusals` | packages/crypto/src/sealedbid.ts:220-255 | Each refusal from what unwrapping, decryption and parsing answered; an opening that succeeds reproduces the commitment |
| `SealedBid.SealedBidOpens` | packages/crypto/src/sealedbid.ts:168-255 | Seal, carry as bytes, parse, combine any qualifying shares, open: the combination throws only on congruent indices, and otherwise nothing refuses and payload, amount and nonce come back |
| `SealedBid.ProvenSharesOpen` | packages/crypto/src/sealedbid.ts:168-255 | The same with untrusted shares: points proven up to the cofactor and lying in the subgroup open the bid |
| `SealedBid.OpeningDecides` | packages/crypto/src/sealedbid.ts:220-255 | With the right shared point, opening succeeds exactly against the commitment of the sealed amount and nonce, and reports a mismatch otherwise |
| `SealedBid.SealedParts` | packages/crypto/src/sealedbid.ts:168-214 | What a sealed bid carries besides: key, nonce, the hash of its canonical bytes and its field form, the commitment |
| `SealedBid.CiphertextHashBinds` | packages/crypto/src/encoding.ts:70-81 | The hash, and its 248-bit form, fix the ciphertext, or keccak (cut to 248 bits) collides |
| `SealedBid.OpeningBinds` | packages/crypto/src/sealedbid.ts:220-255 | Two accepted openings of one commitment agree on the amount and, as field elements, on nonce, tender and nullifier, or two inputs that differ as field elements collide |
| `SealedBid.EnvSatisfiable` | packages/crypto/src/sealedbid.ts:168-255 | The hypotheses on curve, text functions and cipher have an instance |
| `Payload.PayloadReturns` | packages/crypto/src/sealedbid.ts:180-238 | Any payload, canonicalized, encoded, decoded and parsed, is the payload again |
| `Payload.PayloadText` | packages/crypto/src/sealedbid.ts:180-182 | The plaintext for every payload, spelled out: the six names in code-unit order with their quoted strings |
| `Hashing.CommitmentBinds` | packages/crypto/src/poseidon.ts:71-85 | Equal commitments have equal amounts and, as field elements, equal nonces, tenders and nullifiers, or inputs that differ as field elements collide |
| `Hashing.CompositeDigests` | packages/crypto/src/poseidon.ts:71-177 | Commitment, leaf, parent and padding with their inputs in the specified order, and the range checks before them, each with its error |
| `Hashing.LabelDigests` | packages/crypto/src/domains.ts:18-47 | A label is hashed as its characters, and its field form is cut from its raw form |
| `Hashing.DomainsSeparate` | packages/crypto/src/domains.ts:1-47 | Field constants of different labels are equal only if the labels' digests collide |
| `Hashing.RawsSeparate` | packages/crypto/src/domains.ts:18-36 | The same of the raw digests |
| `Hashing.ToFieldKeepsHigh` | packages/crypto/src/field.ts:27-33 | toField keeps the first 31 bytes of a digest |
| `Hashing.CommitmentIsNoLeaf` | packages/crypto/src/domains.ts:1-14 | A digest computed as a commitment is not one of a leaf, or two inputs or two labels collide |
| `Merkle.IncrementalMerkleTree.constructor` | packages/crypto/src/merkle.ts:28-32 | A fresh tree is valid and empty |
| `Merkle.IncrementalMerkleTree.Insert` | packages/crypto/src/merkle.ts:39-47 | Appends and returns the position, or refuses at capacity and changes nothing |
| `Merkle.IncrementalMerkleTree.PaddedLeaves` | packages/crypto/src/merkle.ts:50-54 | The leaves followed by padding up to capacity |
| `Merkle.IncrementalMerkleTree.Root` | packages/crypto/src/merkle.ts:57-67 | The level-rebuilding loop computes the root of the full padded tree, and of the tree with empty subtrees replaced by zero hashes |
| `Merkle.IncrementalMerkleTree.Proof` | packages/crypto/src/merkle.ts:70-99 | For every position below capacity a proof that is accepted, whose root is the tree's, whose leaf is the padded leaf there and whose path spells the index; a refusal elsewhere |
| `Merkle.Verify` | packages/crypto/src/merkle.ts:102-111 | Accepts exactly when folding the leaf along the path gives the root |
| `Merkle.FoldDirection` | packages/crypto/src/merkle.ts:102-110 | The sibling goes left where the path says 1 and right for any other entry, or none |
| `Merkle.EmptyRoot` | packages/crypto/src/merkle.ts:114-116 | The zero hash of the depth is the root of a tree nobody inserted into |
| `Merkle.RootFromLeaves` | packages/crypto/src/merkle.ts:123-131 | Inserting leaf by leaf gives the root of the vector, or a refusal when it is too long |
| `Merkle.ZeroHashes` | packages/crypto/src/poseidon.ts:166-172 | Entry d is the root of an all-padding subtree of height d |
| `Merkle.LevelsReachRoot` | packages/crypto/src/merkle.ts:57-67 | Every level of the evaluation has the root of the recursive tree |
| `Merkle.PaddedRootIsSparse` | packages/crypto/src/merkle.ts:57-67 | Replacing empty subtrees by zero hashes does not change the root, at any depth |
| `Merkle.RootBinding` | packages/crypto/src/merkle.ts:57-67 | Equal roots: the leaves are the same field elements, or a computed collision, and never both |
| `Merkle.AccumulatorBinding` | packages/crypto/src/merkle.ts:123-131 | Two leaf vectors with one root have the same padded leaves as field elements, and the same leaves when equally many, or a computed collision |
| `Merkle.ProofAccepted` | packages/crypto/src/merkle.ts:70-111 | Every position's proof is accepted and its path spells the index in binary |
| `Merkle.BitsValueIs` | packages/crypto/src/merkle.ts:79-92 | Below the capacity the path digits are the index |
| `Merkle.PathBinding` | packages/crypto/src/merkle.ts:102-111 | Two claims along one path to one root agree on leaf and siblings as field elements, or a computed collision, and never both |
| `Revocation.EmptyRevocationTree` | packages/crypto/src/witness.ts:82-93 | Root and siblings of the all-zero tree |
| `Revocation.EmptyTreeServesAll` | packages/crypto/src/witness.ts:82-93 | With nothing revoked one sibling list leads every id to the root |
| `Revocation.RevocationTree.constructor` | packages/crypto/src/witness.ts:101-134 | The stored nodes are the nodes above the revoked leaf, the last one being the root |
| `Revocation.RevocationTree.SiblingsFor` | packages/crypto/src/witness.ts:148-157 | One sibling per level, chosen by the block rule |
| `Revocation.SiblingRule` | packages/crypto/src/witness.ts:136-155 | One level of the rule is right for every pair of block numbers |
| `Revocation.FoldIsNode` | packages/crypto/src/witness.ts:136-157 | Folding the supplied siblings gives, at every level and for every id, the node the tree has there |
| `Revocation.SiblingsLeadToRoot` | packages/crypto/src/witness.ts:101-159 | Ids that agree with the revoked one above the depth are led to the root |
| `Revocation.InRangeLeadsToRoot` | packages/crypto/src/witness.ts:101-159 | For every depth and all ids below 2^depth, revoked or not, the supplied siblings lead to the root |
| `Revocation.RootIsMarkedTree` | packages/crypto/src/witness.ts:112-133 | The root is that of the full 2^depth-leaf tree with the marker at one leaf |
| `Revocation.SiblingsAreTreeSiblings` | packages/crypto/src/witness.ts:148-157 | In range the siblings are those of the full tree's inclusion proof |
| `Revocation.LeadsToRootIff` | packages/crypto/src/witness.ts:107-154 | Beyond the range, with a marker that is not zero in the field: to the root if and only if the ids agree above the depth, or a computed collision |
| `Revocation.RevocationBinds` | packages/crypto/src/witness.ts:112-133 | With a marker that is not zero in the field, any siblings that show a revoked id unrevoked yield a computed collision |
| `Revocation.ZeroMarkerRevokesNothing` | packages/crypto/src/witness.ts:112-133 | With a marker that is zero in the field, at any positive depth, the supplied siblings show the revoked id unrevoked |
| `Receipts.IssuerRegistryRoot` | packages/crypto/src/witness.ts:56-58 | The root over both coordinates of every key, or a refusal of too many |
| `Receipts.IssuerLeafIs` | packages/crypto/src/witness.ts:51-53 | The leaf hashes x and then y |
| `Receipts.IssuerRegistryPath` | packages/crypto/src/witness.ts:64-72 | Every registered key folds along its path to the registry root; the path spells the index |
| `Receipts.StorageReceiptRoot` | packages/crypto/src/sealedbid.ts:293-307 | Padding by hand gives the accumulator's root over the receipts in replica order, with the source's refusals |
| `Receipts.ReceiptSetRefusals` | packages/crypto/src/sealedbid.ts:293-302 | More than three receipts are refused first, then a replica named twice |
| `Receipts.ReceiptRootIs` | packages/crypto/src/sealedbid.ts:303-307 | In ascending replica order the root is that of the leaves, padding after them, over four slots |
| `Receipts.ReceiptLayout` | packages/crypto/src/encoding.ts:93-106 | The hashed bytes of a receipt, part by part, and the leaf as their digest cut to 248 bits |
| `Receipts.ReceiptRefusals` | packages/crypto/src/encoding.ts:93-106 | Which receipts have a leaf |
| `Receipts.ReceiptOrderIrrelevant` | packages/crypto/src/sealedbid.ts:284-307 | Every permutation of the receipts gives the same root or the same refusal |
| `Receipts.QuorumIff` | packages/crypto/src/sealedbid.ts:316-318 | A quorum exists exactly when two receipts name different replicas |
| `Receipts.ReceiptPreimageInjective` | packages/crypto/src/encoding.ts:93-106 | Different receipts never share a leaf preimage, although one field has no fixed width |
| `Receipts.ReceiptRootBinds` | packages/crypto/src/sealedbid.ts:284-307 | Equal roots, no count given: the same receipts, or a computed collision of Poseidon or of keccak cut to 248 bits |
| `Receipts.RegistryRootBinds` | packages/crypto/src/witness.ts:47-58 | Equal registry roots: the same keys as field elements, a computed collision, or a key whose leaf is the padding value |
| `Sorting.SortContents` | packages/crypto/src/award.ts:110-110 | Sorting keeps the multiset and orders by the key |
| `Sorting.SortForgetsOrder` | packages/crypto/src/award.ts:110-110 | With distinct keys, permuted inputs sort to one sequence |
| `Award.BestIsLeast` | packages/crypto/src/award.ts:63-72 | The reduction returns a bid that no bid beats on price, then submission order |
| `Award.WinnerUnique` | packages/crypto/src/award.ts:63-72 | With distinct indices it is the only such bid |
| `Award.FillSlots` | packages/crypto/src/award.ts:119-154 | The slot loop fills four columns with zeros and the leaves with padding beyond the bids, stopping at the first amount out of range |
| `Award.BuildAwardWitness` | packages/crypto/src/award.ts:83-192 | Slots, root, winner and the refusals in the source's order |
| `Award.WitnessRefusals` | packages/crypto/src/award.ts:83-170 | In terms of the arguments: which check refuses first, and exactly which bid sets, policies, overrides and hashes give a witness |
| `Award.InOrderIff` | packages/crypto/src/award.ts:109-118 | The gap check passes exactly when the indices are 0 to n-1, each once |
| `Award.WitnessFields` | packages/crypto/src/award.ts:119-192 | Every published number from the bids: the limbs recombine to the rules hash, each bid's four fields stand at its index, zeros beyond, count, tender, policy, commitment and price |
| `Award.BidsIncluded` | packages/crypto/src/award.ts:119-157 | Every bid's own leaf has an accepted inclusion proof against the published root at its index |
| `Award.AwardsLowest` | packages/crypto/src/award.ts:83-192 | The published index, price and commitment are those of the cheapest bid of the whole set, the earliest among equals |
| `Award.ArrivalOrderIrrelevant` | packages/crypto/src/award.ts:109-164 | Every permutation of the bids gives the same witness or the same refusal |
| `Award.RootDeterminesBids` | packages/crypto/src/award.ts:119-157 | The root alone fixes the bids, amounts and indices exactly and other fields as field elements, up to a computed collision or a bid whose leaf is the padding value |
| `Award.AwardCompleteness` | packages/crypto/src/award.ts:83-192 | Equal root and count: the same bids in every slot and the same winner, price and commitment, or a computed collision of inputs that differ as field elements; with reduced fields the whole witness but the rules hash is equal |
| `JsonText.UnescapeEscape` | packages/crypto/src/encoding.ts:138-138 | Every string of code units, lone surrogates included, is read back from its escape by a reader that refuses raw control units, unknown escapes and non-hexadecimal digits |
| `JsonText.PlainIsUnchanged` | packages/crypto/src/encoding.ts:138-138 | A string without control units, quotes, backslashes and lone surrogates is printed as it is |
| `JsonText.EscapeForms` | packages/crypto/src/encoding.ts:138-138 | A unit that needs no escape stands for itself, surrogates apart; control units without a short escape and lone surrogates are a backslash, a u and four lower-case hexadecimal digits, spelled out |
| `JsonText.PairIsUnchanged` | packages/crypto/src/encoding.ts:138-138 | A surrogate pair is printed as it is, and either half alone as its hexadecimal escape |
| `JsonText.ShortForms` | packages/crypto/src/encoding.ts:138-138 | The seven short escapes, spelled out |
| `JsonText.EscapeAppend` | packages/crypto/src/encoding.ts:138-138 | Strings are escaped part by part, wherever no surrogate pair is split |
| `JsonText.ReadDecimal` | packages/crypto/src/encoding.ts:125-136 | Every integer is read back from its decimal text, which has no superfluous zero |
| `JsonText.DecimalDigits` | packages/crypto/src/encoding.ts:125-136 | Decimal notation, one digit at a time, the minus sign in front |
| `JsonText.Punctuation` | packages/crypto/src/encoding.ts:120-160 | The punctuation, spelled out |
| `Jcs.MembersAscend` | packages/crypto/src/encoding.ts:144-149 | Printed keys strictly ascend by UTF-16 code unit, as section 3.2.3 of RFC 8785 asks |
| `JsonText.LessIff` | packages/crypto/src/encoding.ts:149-149 | The order of keys is decided at the first differing code unit, a prefix coming first |
| `Jcs.Literals` | packages/crypto/src/encoding.ts:121-136 | The literals and one-digit integers, spelled out |
| `Jcs.AscendingListPrints` | packages/crypto/src/encoding.ts:144-157 | An object prints the ascending list of its defined entries, whatever order they came in |
| `Jcs.SameDocSameText` | packages/crypto/src/encoding.ts:120-162 | Values that differ only in key order, at any depth, have the same text |
| `Jcs.TextPaired` | packages/crypto/src/encoding.ts:120-162 | No surrogate stands alone in a canonical text, whatever the value, so encoding it as UTF-8 loses nothing |
| `JsonReader.CanonicalReads` | packages/crypto/src/encoding.ts:120-162 | The text is JSON in the grammar of RFC 8259: a strict reader takes it, completely, for the document the value denotes |
| `JsonReader.CanonicalIffSameDocument` | packages/crypto/src/encoding.ts:120-162 | Two values have the same text if and only if they denote the same document |
| `Surrogates.EscapesSurrogateIff` | packages/crypto/src/encoding.ts:120-162 | The text escapes a surrogate if and only if a string or printed key of the value holds a lone one |
| `Surrogates.LoneSurrogateAccepted` | packages/crypto/src/encoding.ts:138-138 | The string of one lone surrogate is accepted, where section 3.2.2.2 of RFC 8785 asks for an error |

## Left out

- The insides of Poseidon, keccak, AES-256-GCM, EdDSA and the curve arithmetic: foreign calls, parameters here.
- Coordinates of points as negative bigints: points hold naturals.
- `OpeningBinds`: speaks of amount and nonce, the fields the commitment covers, the nonce as a field element; the rest of the payload is protected by AES-256-GCM, whose integrity is a computational claim.
- `SealedBidOpens`: opens with honest decryption shares, and `ProvenSharesOpen` with shares that two transcripts have proven; that one accepted proof implies such transcripts is a claim about the hash.
- Computational secrecy of any kind, and zero knowledge of the equality proofs.
- `LeadsToRootIff`: asks for a marker that is not zero in the field; any other leaves the tree empty.
- `RevocationBinds`: asks for a marker that is not zero in the field, since any other revokes nothing (`ZeroMarkerRevokesNothing`).
- Textual forms of hashes: `rulesHash` is a natural, content hashes and signatures are byte strings, and their hexadecimal parsing is not modelled.
- The insides of `TextEncoder`, `TextDecoder`, `JSON.parse` and `BigInt`: parameters of `Env`.
- Canonical JSON of numbers beyond the exact integers, array holes, and values that are neither data nor undefined (functions, symbols).
- `randomScalar`, `generateDek`, `generateIv`: the drawn values are parameters.
- `fromLimbs`, `toHex32`, `assertField`, `credDigest`, `nullifier`, `subjectCommitment`, `receiptSigDigest`, `identity.ts`, `eddsa.ts`: thin wrappers.
- `buildEligibilityWitness`, `awardCircuitInput`, `awardPublicSignals`: field copying.
- Solidity contracts, Circom circuits, storage and RPC plumbing, user interface and scripts.
