/** Byte strings and the fixed-width integers of packages/crypto/src/field.ts. */
module Bytes {
  import opened Prelude

  type byte = b: int | 0 <= b < 256

  const TWO_256: nat := 0x1_0000_0000_0000_0000_0000_0000_0000_0000_0000_0000_0000_0000_0000_0000_0000_0000

  function Pow256(n: nat): nat {
    if n == 0 then 1 else 256 * Pow256(n - 1)
  }

  lemma Pow256Of32()
    ensures Pow256(32) == TWO_256
  {
    assert Pow256(8) == 0x1_0000_0000_0000_0000;
    assert Pow256(16) == 0x1_0000_0000_0000_0000_0000_0000_0000_0000;
    assert Pow256(24) == 0x1_0000_0000_0000_0000_0000_0000_0000_0000_0000_0000_0000_0000;
  }

  /** The big-endian value of a byte string. */
  function BeValue(bs: seq<byte>): nat {
    if bs == [] then 0 else BeValue(bs[..|bs| - 1]) * 256 + bs[|bs| - 1]
  }

  /** The low n bytes of a value, big-endian. */
  function BeBytes(v: nat, n: nat): (bs: seq<byte>)
    ensures |bs| == n
  {
    if n == 0 then [] else BeBytes(v / 256, n - 1) + [v % 256]
  }

  lemma {:induction false} BeValueBound(bs: seq<byte>)
    ensures BeValue(bs) < Pow256(|bs|)
  {
    if bs != [] {
      BeValueBound(bs[..|bs| - 1]);
    }
  }

  lemma {:induction false} ValueOfBytes(v: nat, n: nat)
    ensures v < Pow256(n) ==> BeValue(BeBytes(v, n)) == v
  {
    if n > 0 && v < Pow256(n) {
      ValueOfBytes(v / 256, n - 1);
      assert BeBytes(v, n)[..n - 1] == BeBytes(v / 256, n - 1);
    }
  }

  lemma {:induction false} BytesOfValue(bs: seq<byte>)
    ensures BeBytes(BeValue(bs), |bs|) == bs
  {
    if bs != [] {
      var n := |bs| - 1;
      BytesOfValue(bs[..n]);
      assert BeValue(bs) / 256 == BeValue(bs[..n]) && BeValue(bs) % 256 == bs[n];
    }
  }

  /** Byte i of the encoding: the value shifted right by the bytes behind it, cut to eight bits. */
  lemma {:induction false} BeByteAt(v: nat, n: nat, i: nat)
    requires i < n
    ensures BeBytes(v, n)[i] == ShiftBytes(v, n - 1 - i) % 256
  {
    if i < n - 1 {
      BeByteAt(v / 256, n - 1, i);
    }
  }

  /** The first byte weighs most. */
  lemma {:induction false} BeValueFrom(bs: seq<byte>)
    requires bs != []
    ensures BeValue(bs) == bs[0] * Pow256(|bs| - 1) + BeValue(bs[1..])
  {
    var n := |bs| - 1;
    if n == 0 {
      assert bs[..0] == [] && bs[1..] == [];
    } else {
      BeValueFrom(bs[..n]);
      assert bs[..n][1..] == bs[1..][..n - 1] && bs[1..][n - 1] == bs[n];
      assert Pow256(n) == 256 * Pow256(n - 1);
      Shift(bs[0], Pow256(n - 1), BeValue(bs[..n][1..]), bs[n]);
    }
  }

  lemma Shift(a: int, p: int, v: int, d: int)
    ensures (a * p + v) * 256 + d == a * (256 * p) + (v * 256 + d)
  {}

  /** What toBytes produces, or why it throws. */
  function Encoded(value: int, n: nat): Result<seq<byte>> {
    if value < 0 then Err(NegativeValue)
    else if value >= Pow256(n) then Err(ValueTooWide)
    else Ok(BeBytes(value, n))
  }

  /** toBytes throws on exactly the negative values and those of more than n bytes. */
  lemma EncodedRefusals(value: int, n: nat)
    ensures Encoded(value, n) == Err(NegativeValue) <==> value < 0
    ensures Encoded(value, n) == Err(ValueTooWide) <==> value >= 0 && ShiftBytes(value, n) != 0
    ensures Encoded(value, n).Ok? ==> BeValue(Encoded(value, n).value) == value && |Encoded(value, n).value| == n
  {
    if value >= 0 {
      ShiftedOutIff(value, n);
      ValueOfBytes(value, n);
    }
  }

  /** Fixed-width encoding loses nothing: equal bytes come from equal values. */
  lemma EncodedInjective(a: int, b: int, n: nat)
    requires Encoded(a, n).Ok? && Encoded(a, n) == Encoded(b, n)
    ensures a == b
  {
    ValueOfBytes(a, n);
    ValueOfBytes(b, n);
  }

  /** What is left of a value after k bytes are shifted out. */
  function ShiftBytes(v: nat, k: nat): nat {
    if k == 0 then v else ShiftBytes(v / 256, k - 1)
  }

  lemma {:induction false} ShiftOneMore(v: nat, k: nat)
    ensures ShiftBytes(v, k + 1) == ShiftBytes(v, k) / 256
  {
    if k > 0 {
      ShiftOneMore(v / 256, k - 1);
    }
  }

  lemma {:induction false} ShiftedOutIff(v: nat, k: nat)
    ensures ShiftBytes(v, k) == 0 <==> v < Pow256(k)
  {
    if k > 0 {
      ShiftedOutIff(v / 256, k - 1);
    }
  }

  /** toBytes: fills the buffer from its last byte, shifting the value right. */
  method ToBytes(value: int, byteLength: nat) returns (res: Result<seq<byte>>)
    ensures res == Encoded(value, byteLength)
  {
    if value < 0 {
      return Err(NegativeValue);
    }
    var out := new byte[byteLength];
    var v: nat := value;
    var i := byteLength - 1;
    while i >= 0
      invariant -1 <= i < byteLength
      invariant v == ShiftBytes(value, byteLength - 1 - i)
      invariant BeBytes(value, byteLength) == BeBytes(v, i + 1) + out[i + 1..]
    {
      assert BeBytes(v, i + 1) == BeBytes(v / 256, i) + [v % 256];
      out[i] := v % 256;
      v := v / 256;
      assert out[i..] == [out[i]] + out[i + 1..];
      ShiftOneMore(value, byteLength - 1 - i);
      i := i - 1;
    }
    ShiftedOutIff(value, byteLength);
    if v != 0 {
      return Err(ValueTooWide);
    }
    assert i == -1 && BeBytes(v, 0) == [];
    assert [] + out[0..] == out[..];
    assert out[..] == BeBytes(value, byteLength);
    return Ok(out[..]);
  }

  /** toBigInt on bytes, and beBigInt of the dashboard: one accumulation loop. */
  method BeBigInt(bytes: seq<byte>) returns (v: nat)
    ensures v == BeValue(bytes)
  {
    v := 0;
    for i := 0 to |bytes|
      invariant v == BeValue(bytes[..i])
    {
      assert bytes[..i + 1][..i] == bytes[..i];
      v := v * 256 + bytes[i];
    }
    assert bytes[..|bytes|] == bytes;
  }

  function Flatten(parts: seq<seq<byte>>): seq<byte> {
    if parts == [] then [] else Flatten(parts[..|parts| - 1]) + parts[|parts| - 1]
  }

  lemma {:induction false} FlattenPrefix(parts: seq<seq<byte>>, k: nat)
    requires k <= |parts|
    ensures |Flatten(parts[..k])| <= |Flatten(parts)|
  {
    if k < |parts| {
      var n := |parts| - 1;
      assert parts[..n][..k] == parts[..k];
      FlattenPrefix(parts[..n], k);
    } else {
      assert parts[..k] == parts;
    }
  }

  /** concatBytes: one buffer of the total length, filled part by part. */
  method ConcatBytes(parts: seq<seq<byte>>) returns (res: seq<byte>)
    ensures res == Flatten(parts)
  {
    var total := 0;
    for i := 0 to |parts|
      invariant total == |Flatten(parts[..i])|
    {
      assert parts[..i + 1][..i] == parts[..i];
      total := total + |parts[i]|;
    }
    assert parts[..|parts|] == parts;
    var out := new byte[total];
    var offset := 0;
    for i := 0 to |parts|
      invariant offset == |Flatten(parts[..i])| <= total
      invariant out[..offset] == Flatten(parts[..i])
    {
      var part := parts[i];
      assert parts[..i + 1][..i] == parts[..i];
      assert Flatten(parts[..i + 1]) == Flatten(parts[..i]) + part;
      FlattenPrefix(parts, i + 1);
      ghost var before := out[..offset];
      forall k | 0 <= k < |part| {
        out[offset + k] := part[k];
      }
      assert out[..offset] == before;
      assert out[offset..offset + |part|] == part;
      assert out[..offset + |part|] == out[..offset] + out[offset..offset + |part|];
      offset := offset + |part|;
    }
    assert out[..] == out[..offset];
    res := out[..];
  }
}
