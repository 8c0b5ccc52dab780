/**
  The canonical ciphertext bytes (packages/crypto/src/encoding.ts:26-67) and
  their parser (apps/dashboard/src/lib/ciphertext.ts).
 */
module Ciphertext {
  import opened Prelude
  import opened Bytes

  datatype CiphertextParts = CiphertextParts(
    rX: int, rY: int, wrapped: seq<byte>, iv: seq<byte>, ct: seq<byte>, tag: seq<byte>)

  const CIPHERTEXT_VERSION: byte := 0x01

  /** 1 version, 32 rX, 32 rY, 32 wrapped, 12 iv, 4 length, 16 tag. */
  const FIXED := 129

  /** canonicalCiphertextBytes. */
  function Canonical(p: CiphertextParts): Result<seq<byte>> {
    if |p.wrapped| != 32 || |p.iv| != 12 || |p.tag| != 16 then Err(WrongLength)
    else
      var x :- Encoded(p.rX, 32);
      var y :- Encoded(p.rY, 32);
      var length :- Encoded(|p.ct|, 4);
      Ok(Flatten([[CIPHERTEXT_VERSION], x, y, p.wrapped, p.iv, length, p.ct, p.tag]))
  }

  /** What the parser reads at its fixed offsets. */
  function Parsed(bytes: seq<byte>): Result<CiphertextParts> {
    if |bytes| < FIXED then Err(TooShort)
    else if bytes[0] != CIPHERTEXT_VERSION then Err(BadVersion)
    else
      var n := BeValue(bytes[109..113]);
      if 113 + n + 16 != |bytes| then Err(LengthMismatch)
      else Ok(CiphertextParts(BeValue(bytes[1..33]), BeValue(bytes[33..65]), bytes[65..97], bytes[97..109],
                              bytes[113..113 + n], bytes[113 + n..]))
  }

  /** subarray: both ends clamped to the buffer. */
  function Subarray(bytes: seq<byte>, from: nat, to: nat): seq<byte>
    requires from <= to
  {
    var lo := if from > |bytes| then |bytes| else from;
    var hi := if to > |bytes| then |bytes| else to;
    bytes[lo..hi]
  }

  /** parseCiphertextBytes: one cursor advanced through the buffer. */
  method ParseCiphertextBytes(bytes: seq<byte>) returns (res: Result<CiphertextParts>)
    ensures res == Parsed(bytes)
  {
    if |bytes| < FIXED {
      return Err(TooShort);
    }
    if bytes[0] != CIPHERTEXT_VERSION {
      return Err(BadVersion);
    }
    var at := 1;
    var slice := Subarray(bytes, at, at + 32);
    at := at + 32;
    var rX := BeBigInt(slice);
    slice := Subarray(bytes, at, at + 32);
    at := at + 32;
    var rY := BeBigInt(slice);
    var wrapped := Subarray(bytes, at, at + 32);
    at := at + 32;
    var iv := Subarray(bytes, at, at + 12);
    at := at + 12;
    slice := Subarray(bytes, at, at + 4);
    at := at + 4;
    var ctLength := BeBigInt(slice);
    if at + ctLength + 16 != |bytes| {
      return Err(LengthMismatch);
    }
    var ct := Subarray(bytes, at, at + ctLength);
    at := at + ctLength;
    var tag := Subarray(bytes, at, at + 16);
    assert tag == bytes[113 + ctLength..];
    return Ok(CiphertextParts(rX, rY, wrapped, iv, ct, tag));
  }

  lemma FlattenSnoc(parts: seq<seq<byte>>, p: seq<byte>)
    ensures Flatten(parts + [p]) == Flatten(parts) + p
  {
    assert (parts + [p])[..|parts|] == parts;
  }

  lemma FlattenNothing()
    ensures Flatten([]) == []
  {}

  lemma FlattenEight(a: seq<byte>, b: seq<byte>, c: seq<byte>, d: seq<byte>,
                     e: seq<byte>, f: seq<byte>, g: seq<byte>, h: seq<byte>)
    ensures Flatten([a, b, c, d, e, f, g, h]) == a + b + c + d + e + f + g + h
  {
    hide Flatten;
    assert Flatten([]) + a == a by {
      FlattenNothing();
    }
    FlattenSnoc([], a);
    assert [] + [a] == [a];
    FlattenSnoc([a], b);
    assert [a] + [b] == [a, b];
    FlattenSnoc([a, b], c);
    assert [a, b] + [c] == [a, b, c];
    FlattenSnoc([a, b, c], d);
    assert [a, b, c] + [d] == [a, b, c, d];
    FlattenSnoc([a, b, c, d], e);
    assert [a, b, c, d] + [e] == [a, b, c, d, e];
    FlattenSnoc([a, b, c, d, e], f);
    assert [a, b, c, d, e] + [f] == [a, b, c, d, e, f];
    FlattenSnoc([a, b, c, d, e, f], g);
    assert [a, b, c, d, e, f] + [g] == [a, b, c, d, e, f, g];
    FlattenSnoc([a, b, c, d, e, f, g], h);
    assert [a, b, c, d, e, f, g] + [h] == [a, b, c, d, e, f, g, h];
  }

  /** Where each part of the layout lands. */
  lemma Layout(v: byte, x: seq<byte>, y: seq<byte>, w: seq<byte>, iv: seq<byte>, n: seq<byte>,
               ct: seq<byte>, tag: seq<byte>)
    requires |x| == |y| == |w| == 32 && |iv| == 12 && |n| == 4
    ensures var b := Flatten([[v], x, y, w, iv, n, ct, tag]);
            && |b| == 113 + |ct| + |tag| && b[0] == v
            && b[1..33] == x && b[33..65] == y && b[65..97] == w && b[97..109] == iv && b[109..113] == n
            && b[113..113 + |ct|] == ct && b[113 + |ct|..] == tag
  {
    FlattenEight([v], x, y, w, iv, n, ct, tag);
    var s1 := [v] + x;
    var s2 := s1 + y;
    var s3 := s2 + w;
    var s4 := s3 + iv;
    var s5 := s4 + n;
    var s6 := s5 + ct;
    var b := s6 + tag;
    assert b[..|s6|] == s6 && b[|s6|..] == tag;
    assert b[..|s5|] == s5 && b[|s5|..|s6|] == ct;
    assert b[..|s4|] == s4 && b[|s4|..|s5|] == n;
    assert b[..|s3|] == s3 && b[|s3|..|s4|] == iv;
    assert b[..|s2|] == s2 && b[|s2|..|s3|] == w;
    assert b[..|s1|] == s1 && b[|s1|..|s2|] == y;
    assert b[1..33] == x;
  }

  /** Parsing what was encoded returns the same parts. */
  lemma ParseOfCanonical(p: CiphertextParts)
    requires Canonical(p).Ok?
    ensures Parsed(Canonical(p).value) == Ok(p)
  {
    hide Flatten, BeBytes, BeValue, Pow256;
    var x, y, n := Encoded(p.rX, 32).value, Encoded(p.rY, 32).value, Encoded(|p.ct|, 4).value;
    Layout(CIPHERTEXT_VERSION, x, y, p.wrapped, p.iv, n, p.ct, p.tag);
    ValueOfBytes(p.rX, 32);
    ValueOfBytes(p.rY, 32);
    ValueOfBytes(|p.ct|, 4);
  }

  /** Encoding what was parsed returns the same bytes: nothing accepted is non-canonical. */
  lemma CanonicalOfParse(bytes: seq<byte>)
    requires Parsed(bytes).Ok?
    ensures Canonical(Parsed(bytes).value) == Ok(bytes)
  {
    hide BeBytes, BeValue, Pow256;
    var p := Parsed(bytes).value;
    var x, y, n := bytes[1..33], bytes[33..65], bytes[109..113];
    BytesOfValue(x);
    BytesOfValue(y);
    BytesOfValue(n);
    BeValueBound(x);
    BeValueBound(y);
    BeValueBound(n);
    FlattenEight([CIPHERTEXT_VERSION], x, y, p.wrapped, p.iv, n, p.ct, p.tag);
    assert bytes == [bytes[0]] + x + y + p.wrapped + p.iv + n + p.ct + p.tag;
  }

  /** Exactly the canonical encodings parse, and each from one ciphertext only. */
  lemma AcceptedIffCanonical(bytes: seq<byte>)
    ensures Parsed(bytes).Ok? <==> exists p :: Canonical(p) == Ok(bytes)
    ensures forall p, r :: Canonical(p) == Ok(bytes) && Canonical(r) == Ok(bytes) ==> p == r
  {
    hide Canonical, Parsed;
    if Parsed(bytes).Ok? {
      CanonicalOfParse(bytes);
    }
    forall p | Canonical(p) == Ok(bytes)
      ensures Parsed(bytes) == Ok(p)
    {
      ParseOfCanonical(p);
    }
  }

  /** Which parts encode: fixed widths, coordinates of 32 bytes, a length of 4 bytes. */
  lemma CanonicalDefinedIff(p: CiphertextParts)
    ensures Canonical(p).Ok? <==>
              && |p.wrapped| == 32 && |p.iv| == 12 && |p.tag| == 16
              && 0 <= p.rX < TWO_256 && 0 <= p.rY < TWO_256 && |p.ct| < 0x1_0000_0000
  {
    hide Flatten, BeBytes;
    Pow256Of32();
    assert Pow256(4) == 0x1_0000_0000;
  }

  /** The bytes themselves: which part stands where, and that the version is 1. */
  lemma CanonicalLayout(p: CiphertextParts)
    requires Canonical(p).Ok?
    ensures var b := Canonical(p).value;
            && |b| == 129 + |p.ct| && b[0] == 1
            && BeValue(b[1..33]) == p.rX && BeValue(b[33..65]) == p.rY
            && b[65..97] == p.wrapped && b[97..109] == p.iv && BeValue(b[109..113]) == |p.ct|
            && b[113..113 + |p.ct|] == p.ct && b[113 + |p.ct|..] == p.tag
  {
    hide Flatten, BeBytes, BeValue, Pow256;
    var x, y, n := Encoded(p.rX, 32).value, Encoded(p.rY, 32).value, Encoded(|p.ct|, 4).value;
    Layout(CIPHERTEXT_VERSION, x, y, p.wrapped, p.iv, n, p.ct, p.tag);
    ValueOfBytes(p.rX, 32);
    ValueOfBytes(p.rY, 32);
    ValueOfBytes(|p.ct|, 4);
  }

  /** The parser's refusals, in the order it checks. */
  lemma ParseRefusals(bytes: seq<byte>)
    ensures Parsed(bytes) == Err(TooShort) <==> |bytes| < 129
    ensures Parsed(bytes) == Err(BadVersion) <==> |bytes| >= 129 && bytes[0] != 1
    ensures Parsed(bytes) == Err(LengthMismatch) <==>
              |bytes| >= 129 && bytes[0] == 1 && |bytes| != 129 + BeValue(bytes[109..113])
    ensures Parsed(bytes).Ok? <==> |bytes| >= 129 && bytes[0] == 1 && |bytes| == 129 + BeValue(bytes[109..113])
  {
    hide BeValue;
  }

  /** The encoder's refusals. */
  lemma CanonicalRefusals(p: CiphertextParts)
    ensures Canonical(p) == Err(WrongLength) <==> !(|p.wrapped| == 32 && |p.iv| == 12 && |p.tag| == 16)
    ensures Canonical(p) == Err(NegativeValue) <==>
              && |p.wrapped| == 32 && |p.iv| == 12 && |p.tag| == 16
              && (p.rX < 0 || (p.rX < TWO_256 && p.rY < 0))
  {
    hide Flatten, BeBytes;
    Pow256Of32();
  }
}
