/**
 * The byte-level reads the packet decoder makes: a bounds-checked cursor
 * position into an immutable byte buffer, unsigned bytes, little-endian
 * 16-bit integers, length-delimited byte runs, and base-128 varints with
 * their ZigZag signed variant (the "Base 128 Varints" and "ZigZag" encodings
 * of the Protocol Buffers encoding guide). Every read returns the value and
 * the position just past it, or OutOfBounds when the buffer is too short.
 * The encoders are the inverses the round-trip lemmas are stated with.
 */
module Wire {
  import opened Wrappers

  newtype byte = b: int | 0 <= b < 256

  /** A value read from the buffer and the position just past it. */
  datatype Read<+T> = Read(got: T, next: nat)

  /** The most 7-bit groups a varint may have. */
  const MaxVarIntGroups: nat := 5

  /** 128^k: one more than the largest value k varint groups can carry. */
  function Pow128(k: nat): (p: nat)
    ensures p >= 1
  {
    if k == 0 then 1 else 128 * Pow128(k - 1)
  }

  /** `data` holds the bytes of `s` starting at `pos`. */
  predicate Holds(data: seq<byte>, pos: nat, s: seq<byte>) {
    pos + |s| <= |data| && data[pos..pos + |s|] == s
  }

  lemma HoldsConcat(data: seq<byte>, pos: nat, s: seq<byte>, t: seq<byte>)
    requires Holds(data, pos, s + t)
    ensures Holds(data, pos, s) && Holds(data, pos + |s|, t)
  {
    assert data[pos..pos + |s|] == (s + t)[..|s|];
    assert data[pos + |s|..pos + |s| + |t|] == (s + t)[|s|..];
  }

  /** HoldsConcat with the position after `s` given as `mid`. */
  lemma HoldsSplit(data: seq<byte>, pos: nat, s: seq<byte>, t: seq<byte>, mid: nat)
    requires Holds(data, pos, s + t) && mid == pos + |s|
    ensures Holds(data, pos, s) && Holds(data, mid, t)
  {
    HoldsConcat(data, pos, s, t);
  }

  function ReadByte(data: seq<byte>, pos: nat): (r: Result<Read<nat>>)
    ensures r.Ok? <==> pos < |data|
    ensures r.Ok? ==> r.value.got == data[pos] as nat && r.value.next == pos + 1
  {
    if pos < |data| then Ok(Read(data[pos] as nat, pos + 1)) else Err(OutOfBounds)
  }

  function ReadU16LE(data: seq<byte>, pos: nat): (r: Result<Read<nat>>)
    ensures r.Ok? <==> pos + 2 <= |data|
    ensures r.Ok? ==> r.value.got < 0x1_0000 && r.value.next == pos + 2
  {
    if pos + 2 <= |data| then Ok(Read(data[pos] as nat + 256 * data[pos + 1] as nat, pos + 2))
    else Err(OutOfBounds)
  }

  /** The next `n` bytes. */
  function ReadBytes(data: seq<byte>, pos: nat, n: nat): (r: Result<Read<seq<byte>>>)
    ensures r.Ok? <==> pos + n <= |data|
    ensures r.Ok? ==> r.value.got == data[pos..pos + n] && r.value.next == pos + n
  {
    if pos + n <= |data| then Ok(Read(data[pos..pos + n], pos + n)) else Err(OutOfBounds)
  }

  /**
   * A varint of at most `budget` groups: each byte carries seven value bits,
   * least significant group first, and its high bit says whether another
   * group follows.
   */
  function ReadGroups(data: seq<byte>, pos: nat, budget: nat): (r: Result<Read<nat>>)
    ensures r.Ok? ==> pos < r.value.next <= |data| && r.value.next <= pos + budget
    ensures r.Ok? ==> r.value.got < Pow128(r.value.next - pos)
    decreases budget
  {
    if budget == 0 then Err(VarIntOverflow)
    else if pos >= |data| then Err(OutOfBounds)
    else if data[pos] < 128 then Ok(Read(data[pos] as nat, pos + 1))
    else
      var rest :- ReadGroups(data, pos + 1, budget - 1);
      Ok(Read((data[pos] as nat - 128) + 128 * rest.got, rest.next))
  }

  /** An unsigned varint of at most five groups. */
  function ReadVarInt(data: seq<byte>, pos: nat): (r: Result<Read<nat>>)
    ensures r.Ok? ==> pos < r.value.next <= |data| && r.value.next <= pos + MaxVarIntGroups
    ensures r.Ok? ==> r.value.got < Pow128(MaxVarIntGroups)
  {
    var r := ReadGroups(data, pos, MaxVarIntGroups);
    if r.Ok? then
      PowMonotonic(r.value.next - pos, MaxVarIntGroups);
      r
    else r
  }

  lemma {:induction false} PowMonotonic(j: nat, k: nat)
    requires j <= k
    ensures Pow128(j) <= Pow128(k)
    decreases k
  {
    if j < k {
      PowMonotonic(j, k - 1);
    }
  }

  /** ZigZag decoding, `(raw >> 1) ^ -(raw & 1)`: even codes are the non-negative numbers, odd ones the negative. */
  function ZigZagDecode(raw: nat): (v: int)
    ensures v >= 0 <==> raw % 2 == 0
    ensures raw == if v >= 0 then 2 * v else -2 * v - 1
  {
    if raw % 2 == 0 then raw / 2 else -(raw / 2) - 1
  }

  /** A signed varint: an unsigned varint, ZigZag-decoded. */
  function ReadSignedVarInt(data: seq<byte>, pos: nat): (r: Result<Read<int>>)
    ensures r.Ok? ==> pos < r.value.next <= |data|
  {
    var raw :- ReadVarInt(data, pos);
    Ok(Read(ZigZagDecode(raw.got), raw.next))
  }

  function ZigZagEncode(v: int): (raw: nat)
    ensures ZigZagDecode(raw) == v
  {
    if v >= 0 then 2 * v else -2 * v - 1
  }

  /** ZigZag is a bijection: every code is the encoding of its decoding. */
  lemma ZigZagEncodeDecode(raw: nat)
    ensures ZigZagEncode(ZigZagDecode(raw)) == raw
  {
  }

  /** The shortest varint for `v`. */
  function EncodeVarInt(v: nat): (s: seq<byte>)
    ensures |s| >= 1
    decreases v
  {
    if v < 128 then [v as byte] else [(v % 128 + 128) as byte] + EncodeVarInt(v / 128)
  }

  function EncodeU16LE(v: nat): (s: seq<byte>)
    requires v < 0x1_0000
    ensures |s| == 2
  {
    [(v % 256) as byte, (v / 256) as byte]
  }

  lemma ReadEncodedU16LE(data: seq<byte>, pos: nat, v: nat)
    requires v < 0x1_0000 && Holds(data, pos, EncodeU16LE(v))
    ensures ReadU16LE(data, pos) == Ok(Read(v, pos + 2))
  {
    assert data[pos] == EncodeU16LE(v)[0] && data[pos + 1] == EncodeU16LE(v)[1];
  }

  lemma {:induction false} ReadEncodedGroups(data: seq<byte>, pos: nat, budget: nat, v: nat)
    requires budget >= 1 && v < Pow128(budget) && Holds(data, pos, EncodeVarInt(v))
    ensures ReadGroups(data, pos, budget) == Ok(Read(v, pos + |EncodeVarInt(v)|))
    decreases v
  {
    var s := EncodeVarInt(v);
    assert data[pos] == s[0];
    if v >= 128 {
      assert budget > 1 && v / 128 < Pow128(budget - 1);
      assert s == [(v % 128 + 128) as byte] + EncodeVarInt(v / 128);
      assert data[pos] >= 128;
      HoldsConcat(data, pos, [(v % 128 + 128) as byte], EncodeVarInt(v / 128));
      ReadEncodedGroups(data, pos + 1, budget - 1, v / 128);
      assert (data[pos] as nat - 128) + 128 * (v / 128) == v;
      assert ReadGroups(data, pos, budget) == Ok(Read(v, pos + 1 + |EncodeVarInt(v / 128)|));
    }
  }

  /** Reading a varint back from the bytes of its encoding gives the value and the position after it. */
  lemma ReadEncodedVarInt(data: seq<byte>, pos: nat, v: nat)
    requires v < Pow128(MaxVarIntGroups) && Holds(data, pos, EncodeVarInt(v))
    ensures ReadVarInt(data, pos) == Ok(Read(v, pos + |EncodeVarInt(v)|))
  {
    ReadEncodedGroups(data, pos, MaxVarIntGroups, v);
  }

  lemma ReadEncodedSignedVarInt(data: seq<byte>, pos: nat, v: int)
    requires ZigZagEncode(v) < Pow128(MaxVarIntGroups) && Holds(data, pos, EncodeVarInt(ZigZagEncode(v)))
    ensures ReadSignedVarInt(data, pos) == Ok(Read(v, pos + |EncodeVarInt(ZigZagEncode(v))|))
  {
    ReadEncodedVarInt(data, pos, ZigZagEncode(v));
  }

  /** A varint at the front of `s + t` reads as its value up to `next`, where `t` follows. */
  lemma ReadVarIntBefore(data: seq<byte>, pos: nat, v: nat, t: seq<byte>, next: nat)
    requires v < Pow128(MaxVarIntGroups) && Holds(data, pos, EncodeVarInt(v) + t)
    requires next == pos + |EncodeVarInt(v)|
    ensures ReadVarInt(data, pos) == Ok(Read(v, next))
    ensures Holds(data, next, t)
  {
    HoldsConcat(data, pos, EncodeVarInt(v), t);
    ReadEncodedVarInt(data, pos, v);
  }

  lemma ReadSignedVarIntBefore(data: seq<byte>, pos: nat, v: int, t: seq<byte>, next: nat)
    requires ZigZagEncode(v) < Pow128(MaxVarIntGroups) && Holds(data, pos, EncodeVarInt(ZigZagEncode(v)) + t)
    requires next == pos + |EncodeVarInt(ZigZagEncode(v))|
    ensures ReadSignedVarInt(data, pos) == Ok(Read(v, next))
    ensures Holds(data, next, t)
  {
    HoldsConcat(data, pos, EncodeVarInt(ZigZagEncode(v)), t);
    ReadEncodedSignedVarInt(data, pos, v);
  }

  lemma ReadU16LEBefore(data: seq<byte>, pos: nat, v: nat, t: seq<byte>, next: nat)
    requires v < 0x1_0000 && Holds(data, pos, EncodeU16LE(v) + t)
    requires next == pos + 2
    ensures ReadU16LE(data, pos) == Ok(Read(v, next))
    ensures Holds(data, next, t)
  {
    HoldsConcat(data, pos, EncodeU16LE(v), t);
    ReadEncodedU16LE(data, pos, v);
  }

  lemma ReadHeldBytes(data: seq<byte>, pos: nat, s: seq<byte>)
    requires Holds(data, pos, s)
    ensures ReadBytes(data, pos, |s|) == Ok(Read(s, pos + |s|))
  {
  }

  /** Every signed 32-bit number has a ZigZag code that fits a five-group varint. */
  lemma Int32FitsVarInt(v: int)
    requires -0x8000_0000 <= v < 0x8000_0000
    ensures ZigZagEncode(v) < 0x1_0000_0000 < Pow128(MaxVarIntGroups)
  {
  }

  /** Five bytes with the continuation bit set are rejected without reading a sixth. */
  lemma FiveContinuationsOverflow(data: seq<byte>, pos: nat)
    requires pos + 5 <= |data|
    requires forall k | pos <= k < pos + 5 :: data[k] >= 128
    ensures ReadVarInt(data, pos) == Err(VarIntOverflow)
  {
    assert data[pos] >= 128 && data[pos + 1] >= 128 && data[pos + 2] >= 128;
    assert data[pos + 3] >= 128 && data[pos + 4] >= 128;
  }
}
