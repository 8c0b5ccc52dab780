/**
  The foreign hash functions as parameters, the domain constants of
  packages/crypto/src/domains.ts, and what it means to exhibit a collision.
  Nothing assumes a hash injective: results name the colliding inputs.
 */
module Hashing {
  import opened Prelude
  import opened Bytes

  /** A 256-bit digest. */
  type digest = d: nat | d < TWO_256

  /** FIELD_PRIME. */
  const FIELD_PRIME: nat := 21888242871839275222246405745257275088548364400416034343698204186575808495617

  /** A reduced field element. */
  type element = e: nat | e < FIELD_PRIME

  /** Keccak on bytes, and Poseidon's permutation on reduced field elements. */
  datatype Hashes = Hashes(keccak: seq<byte> -> digest, permutation: seq<element> -> element)

  function Residue(x: int): element {
    x % FIELD_PRIME
  }

  function Residues(xs: seq<int>): (rs: seq<element>)
    ensures |rs| == |xs| && forall i :: 0 <= i < |rs| ==> rs[i] == Residue(xs[i])
  {
    seq(|xs|, i requires 0 <= i < |xs| => Residue(xs[i]))
  }

  /** poseidon: the library reduces its inputs before it hashes them. */
  function Poseidon(h: Hashes, inputs: seq<int>): element {
    h.permutation(Residues(inputs))
  }

  function Ascii(s: string): seq<byte> {
    seq(|s|, i requires 0 <= i < |s| => s[i] as int % 256)
  }

  /** The raw 32-byte digest of a label. */
  function Raw(h: Hashes, tag: string): (bs: seq<byte>)
    ensures |bs| == 32
  {
    BeBytes(h.keccak(Ascii(tag)), 32)
  }

  /** toField: the high 248 bits of a digest. */
  function ToField(d: digest): nat { d / 256 }

  function Domain(h: Hashes, tag: string): int {
    ToField(h.keccak(Ascii(tag)))
  }

  function Padding(h: Hashes): int { Domain(h, "FairProof:padding:v1") }

  /** merkleParent. */
  function Parent(h: Hashes, left: int, right: int): element {
    Poseidon(h, [left, right])
  }

  /** Two inputs that differ as field elements and have one Poseidon digest. */
  datatype Collision = Collision(first: seq<int>, second: seq<int>)

  ghost predicate IsCollision(h: Hashes, x: Collision) {
    Residues(x.first) != Residues(x.second) && Poseidon(h, x.first) == Poseidon(h, x.second)
  }

  // ----- the composite digests of packages/crypto/src/poseidon.ts

  const UINT64: int := 0x1_0000_0000_0000_0000

  /** assertUint on the value, as a refusal. */
  function AssertUint(value: int, limit: int): Result<int> {
    if value < 0 then Err(NegativeValue)
    else if value >= limit then Err(ValueTooWide)
    else Ok(value)
  }

  function CommitmentInput(h: Hashes, amount: int, nonce: int, tender: int, nullifier: int): seq<int> {
    [Domain(h, "FairProof:bidCommitment:v1"), amount, nonce, tender, nullifier]
  }

  /** bidCommitment. */
  function BidCommitment(h: Hashes, amount: int, nonce: int, tender: int, nullifier: int): Result<int> {
    var _ :- AssertUint(amount, UINT64);
    Ok(Poseidon(h, CommitmentInput(h, amount, nonce, tender, nullifier)))
  }

  function LeafInput(h: Hashes, nullifier: int, commitment: int, ciphertextHash: int, index: int): seq<int> {
    [Domain(h, "FairProof:leaf:v1"), nullifier, commitment, ciphertextHash, index]
  }

  /** bidLeaf. */
  function BidLeaf(h: Hashes, nullifier: int, commitment: int, ciphertextHash: int, index: int): Result<int> {
    var _ :- AssertUint(index, 256);
    Ok(Poseidon(h, LeafInput(h, nullifier, commitment, ciphertextHash, index)))
  }

  /**
    A commitment binds its amount, and as field elements its nonce, its tender and
    its nullifier, or these two inputs collide.
   */
  lemma CommitmentBinds(h: Hashes, a: int, n: int, t: int, nul: int, a': int, n': int, t': int, nul': int)
    requires BidCommitment(h, a, n, t, nul).Ok?
    requires BidCommitment(h, a, n, t, nul) == BidCommitment(h, a', n', t', nul')
    ensures || (a == a' && Residue(n) == Residue(n') && Residue(t) == Residue(t') && Residue(nul) == Residue(nul'))
            || IsCollision(h, Collision(CommitmentInput(h, a, n, t, nul), CommitmentInput(h, a', n', t', nul')))
  {
    var x, y := CommitmentInput(h, a, n, t, nul), CommitmentInput(h, a', n', t', nul');
    if Residues(x) == Residues(y) {
      assert Residues(x)[1] == Residues(y)[1] && Residues(x)[2] == Residues(y)[2];
      assert Residues(x)[3] == Residues(y)[3] && Residues(x)[4] == Residues(y)[4];
      SmallResidue(a);
      SmallResidue(a');
    }
  }

  /** A field element is its own residue, 64-bit amounts and 248-bit digests among them. */
  lemma SmallResidue(x: int)
    requires 0 <= x < FIELD_PRIME
    ensures Residue(x) == x
  {}

  lemma PaddingReduced(h: Hashes)
    ensures Residue(Padding(h)) == Padding(h)
  {
    SmallResidue(Padding(h));
  }

  // ----- the digests, written out

  /** toField drops the last byte of a digest and keeps the other 31. */
  lemma ToFieldKeepsHigh(bs: seq<byte>)
    requires |bs| == 32
    ensures BeValue(bs) < TWO_256 && ToField(BeValue(bs)) == BeValue(bs[..31])
  {
    BeValueBound(bs);
    Pow256Of32();
  }

  /** The composite digests with their inputs in the order the specification lists them. */
  lemma CompositeDigests(h: Hashes, amount: int, nonce: int, tender: int, nullifier: int, commitment: int,
                         ciphertextHash: int, index: int)
    ensures 0 <= amount < 0x1_0000_0000_0000_0000 ==>
              BidCommitment(h, amount, nonce, tender, nullifier)
              == Ok(h.permutation(Residues([Domain(h, "FairProof:bidCommitment:v1"), amount, nonce, tender, nullifier])))
    ensures amount < 0 ==> BidCommitment(h, amount, nonce, tender, nullifier) == Err(NegativeValue)
    ensures amount >= 0x1_0000_0000_0000_0000 ==> BidCommitment(h, amount, nonce, tender, nullifier) == Err(ValueTooWide)
    ensures 0 <= index < 256 ==>
              BidLeaf(h, nullifier, commitment, ciphertextHash, index)
              == Ok(h.permutation(Residues([Domain(h, "FairProof:leaf:v1"), nullifier, commitment, ciphertextHash, index])))
    ensures index < 0 ==> BidLeaf(h, nullifier, commitment, ciphertextHash, index) == Err(NegativeValue)
    ensures index >= 256 ==> BidLeaf(h, nullifier, commitment, ciphertextHash, index) == Err(ValueTooWide)
    ensures Parent(h, amount, nonce) == h.permutation([Residue(amount), Residue(nonce)])
    ensures Padding(h) == h.keccak(Ascii("FairProof:padding:v1")) / 256
  {
    assert Residues([amount, nonce]) == [Residue(amount), Residue(nonce)];
  }

  /** A label is hashed as its characters; the field form of its digest is cut from the raw form. */
  lemma LabelDigests(h: Hashes, tag: string, i: nat)
    requires i < |tag| && tag[i] as int < 128
    ensures |Ascii(tag)| == |tag| && Ascii(tag)[i] == tag[i] as int
    ensures BeValue(Raw(h, tag)) == h.keccak(Ascii(tag))
    ensures Domain(h, tag) == BeValue(Raw(h, tag)[..31])
  {
    hide BeBytes, BeValue, Pow256, ToField;
    Pow256Of32();
    ValueOfBytes(h.keccak(Ascii(tag)), 32);
    ToFieldKeepsHigh(Raw(h, tag));
  }

  /** Two byte strings that differ and have one keccak digest. */
  ghost predicate KeccakCollides(h: Hashes, x: seq<byte>, y: seq<byte>) {
    x != y && h.keccak(x) == h.keccak(y)
  }

  /** The same with the digests cut to 248 bits, as toField cuts them. */
  ghost predicate TruncatedCollides(h: Hashes, x: seq<byte>, y: seq<byte>) {
    x != y && ToField(h.keccak(x)) == ToField(h.keccak(y))
  }

  /** A label of seven-bit characters is its own bytes. */
  lemma AsciiInjective(s: string, t: string)
    requires forall i :: 0 <= i < |s| ==> s[i] as int < 128
    requires forall i :: 0 <= i < |t| ==> t[i] as int < 128
    ensures Ascii(s) == Ascii(t) <==> s == t
  {
    if Ascii(s) == Ascii(t) {
      forall i | 0 <= i < |s|
        ensures s[i] == t[i]
      {
        assert Ascii(s)[i] == Ascii(t)[i];
        assert s[i] as int == t[i] as int;
      }
    }
  }

  /** Two domain constants of different labels are equal only if the labels' digests collide. */
  lemma DomainsSeparate(h: Hashes, s: string, t: string)
    requires s != t && Domain(h, s) == Domain(h, t)
    requires forall i :: 0 <= i < |s| ==> s[i] as int < 128
    requires forall i :: 0 <= i < |t| ==> t[i] as int < 128
    ensures TruncatedCollides(h, Ascii(s), Ascii(t))
  {
    AsciiInjective(s, t);
  }

  /** The same of the raw digests that prefix hashed bytes. */
  lemma RawsSeparate(h: Hashes, s: string, t: string)
    requires s != t && Raw(h, s) == Raw(h, t)
    requires forall i :: 0 <= i < |s| ==> s[i] as int < 128
    requires forall i :: 0 <= i < |t| ==> t[i] as int < 128
    ensures KeccakCollides(h, Ascii(s), Ascii(t))
  {
    hide BeBytes, BeValue, Pow256;
    AsciiInjective(s, t);
    Pow256Of32();
    ValueOfBytes(h.keccak(Ascii(s)), 32);
    ValueOfBytes(h.keccak(Ascii(t)), 32);
  }

  /** No bid commitment is a leaf digest: the inputs collide, or the two labels do. */
  lemma CommitmentIsNoLeaf(h: Hashes, x: seq<int>, y: seq<int>, amount: int, nonce: int, tender: int, nul: int,
                           nullifier: int, commitment: int, hash: int, index: int)
    requires x == CommitmentInput(h, amount, nonce, tender, nul) && y == LeafInput(h, nullifier, commitment, hash, index)
    requires Poseidon(h, x) == Poseidon(h, y)
    ensures || IsCollision(h, Collision(x, y))
            || TruncatedCollides(h, Ascii("FairProof:bidCommitment:v1"), Ascii("FairProof:leaf:v1"))
  {
    hide Residue;
    if Residues(x) == Residues(y) {
      assert Residues(x)[0] == Residues(y)[0];
      SmallResidue(x[0]);
      SmallResidue(y[0]);
      DomainsSeparate(h, "FairProof:bidCommitment:v1", "FairProof:leaf:v1");
    }
  }
}
