/** The error-carrying result used wherever the source throws, and stock facts. */
module Prelude {

  /** Why an operation of the source throws. */
  datatype Error =
    | NegativeScalar            // mulPoint with a negative scalar
    | NotInvertible             // invModSubOrder
    | IndexNotInSet             // lagrangeCoefficient
    | DuplicateIndices
    | BadMemberIndex            // expectedPublicShare with an index below 1
    | ThresholdTooSmall         // dealCommitteeKey
    | ThresholdExceedsSize
    | SecretOutOfRange
    | WrongCoefficientCount
    | NoCommitments             // verifyDealing reads commitments[0]
    | NonceOutOfRange           // proveDleq
    | ValueTooWide              // toBytes, toField, toLimbs, assertUint
    | NegativeValue
    | WrongLength               // fixed-width byte fields
    | TooShort                  // parseCiphertextBytes
    | BadVersion
    | LengthMismatch
    | CapacityExhausted         // Merkle tree
    | IndexOutOfRange
    | TooManyLeaves
    | TooManyBids               // award
    | BadPolicy
    | IndexGap
    | NoBids
    | InactiveWinner
    | TooManyReceipts           // storage receipts
    | DuplicateReplica
    | KeyNotInSubgroup          // encapsulate
    | EphemeralOutOfRange
    | AuthenticationFailed      // aesGcmDecrypt
    | MalformedPayload          // JSON.parse, BigInt(string)
    | CommitmentMismatch        // openSealedBid
    | UnsupportedValue          // jcsCanonicalize

  datatype Option<+T> = None | Some(value: T)

  datatype Result<+T> = Ok(value: T) | Err(error: Error) {
    predicate IsFailure() { Err? }

    function PropagateFailure<U>(): Result<U>
      requires Err?
    {
      Err(error)
    }

    function Extract(): T
      requires Ok?
    {
      value
    }
  }

  function Pow2(n: nat): (p: nat)
    ensures p > 0
  {
    if n == 0 then 1 else 2 * Pow2(n - 1)
  }

  lemma SplitEqual<T>(a: seq<T>, b: seq<T>, u: seq<T>, v: seq<T>)
    requires |a| == |u|
    ensures a + b == u + v <==> a == u && b == v
  {
    assert (a + b)[..|a|] == a && (u + v)[..|u|] == u;
    assert (a + b)[|a|..] == b && (u + v)[|u|..] == v;
  }
}
