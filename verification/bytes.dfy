/**
 * Byte-level helpers the codec relies on (kabomu/misc_utils_internal.py, whose
 * behaviour is pinned by tests/test_misc_utils_internal.py): the big-endian
 * two's-complement int32 codec, and the ASCII view of strings as bytes.
 */
module Bytes {
  import opened Wrappers
  import opened Errors

  type byte = b: int | 0 <= b < 0x100

  const INT32_MIN: int := -0x8000_0000
  const INT32_MAX: int := 0x7FFF_FFFF
  const TWO_32: int := 0x1_0000_0000

  predicate IsInt32(v: int) {
    INT32_MIN <= v <= INT32_MAX
  }

  /** The unsigned 32-bit pattern of a two's-complement int32. */
  function ToUnsigned(v: int): (u: nat)
    requires IsInt32(v)
    ensures u < TWO_32
  {
    if v < 0 then v + TWO_32 else v
  }

  /** The unsigned value of four bytes read most significant first. */
  function BigEndianValue(b0: byte, b1: byte, b2: byte, b3: byte): (u: nat)
    ensures u < TWO_32
  {
    b0 * 0x100_0000 + b1 * 0x1_0000 + b2 * 0x100 + b3
  }

  /** The four bytes of a 32-bit pattern, most significant first, recombine to it. */
  lemma SplitRecombines(u: nat)
    requires u < TWO_32
    ensures u / 0x100_0000 < 0x100
    ensures BigEndianValue(u / 0x100_0000, (u / 0x1_0000) % 0x100, (u / 0x100) % 0x100, u % 0x100) == u
  {
    var a := u / 0x100;
    var b := a / 0x100;
    var c := b / 0x100;
    assert u == a * 0x100 + u % 0x100;
    assert a == b * 0x100 + a % 0x100;
    assert b == c * 0x100 + b % 0x100;
    assert u / 0x1_0000 == b;
    assert u / 0x100_0000 == c;
  }

  /**
   * serialize_int32_be: four bytes, most significant first, two's complement.
   * A value outside the int32 range cannot be represented and is refused.
   */
  function SerializeInt32BE(v: int): (r: ErrorOr<seq<byte>>)
    ensures r.Ok? <==> IsInt32(v)
    ensures r.Ok? ==> |r.value| == 4
    ensures r.Ok? ==> BigEndianValue(r.value[0], r.value[1], r.value[2], r.value[3]) == ToUnsigned(v)
    ensures r.Ok? ==> (r.value[0] >= 0x80 <==> v < 0)
  {
    if !IsInt32(v) then
      Err(ValueError("value does not fit in 32 bits"))
    else
      var u := ToUnsigned(v);
      SplitRecombines(u);
      Ok([u / 0x100_0000, (u / 0x1_0000) % 0x100, (u / 0x100) % 0x100, u % 0x100])
  }

  /**
   * deserialize_int32_be: the int32 whose two's-complement pattern is the four
   * bytes at `offset`; fails when fewer than four bytes are there.
   */
  function DeserializeInt32BE(data: seq<byte>, offset: int): (r: ErrorOr<int>)
    ensures r.Ok? <==> 0 <= offset && offset + 4 <= |data|
    ensures r.Ok? ==> IsInt32(r.value)
    ensures r.Ok? ==> (r.value < 0 <==> data[offset] >= 0x80)
    ensures r.Ok? ==> ToUnsigned(r.value) == BigEndianValue(data[offset], data[offset + 1], data[offset + 2], data[offset + 3])
  {
    if offset < 0 || offset + 4 > |data| then
      Err(IllegalArgument("invalid byte buffer slice"))
    else
      var u := BigEndianValue(data[offset], data[offset + 1], data[offset + 2], data[offset + 3]);
      Ok(if u > INT32_MAX then u - TWO_32 else u)
  }

  /** Two byte quadruples with the same big-endian value are equal. */
  lemma BigEndianInjective(a0: byte, a1: byte, a2: byte, a3: byte, b0: byte, b1: byte, b2: byte, b3: byte)
    requires BigEndianValue(a0, a1, a2, a3) == BigEndianValue(b0, b1, b2, b3)
    ensures a0 == b0 && a1 == b1 && a2 == b2 && a3 == b3
  {
  }

  /** Deserializing what was serialized gives the value back, wherever it sits in a buffer. */
  lemma SerializeDeserialize(v: int, prefix: seq<byte>, suffix: seq<byte>)
    requires IsInt32(v)
    ensures DeserializeInt32BE(prefix + SerializeInt32BE(v).value + suffix, |prefix|) == Ok(v)
  {
    var data := prefix + SerializeInt32BE(v).value + suffix;
    var r := DeserializeInt32BE(data, |prefix|);
    assert r.Ok?;
    assert ToUnsigned(r.value) == ToUnsigned(v);
  }

  /** Serializing what was deserialized gives the four bytes back. */
  lemma DeserializeSerialize(b: seq<byte>)
    requires |b| == 4
    ensures DeserializeInt32BE(b, 0).Ok?
    ensures SerializeInt32BE(DeserializeInt32BE(b, 0).value) == Ok(b)
  {
    var v := DeserializeInt32BE(b, 0).value;
    var r := SerializeInt32BE(v);
    assert r.Ok?;
    var s := r.value;
    assert BigEndianValue(s[0], s[1], s[2], s[3]) == ToUnsigned(v) == BigEndianValue(b[0], b[1], b[2], b[3]);
    BigEndianInjective(s[0], s[1], s[2], s[3], b[0], b[1], b[2], b[3]);
    assert s == b;
  }

  /** The bytes of a sequence of fragments, in order. */
  function Flatten(pieces: seq<seq<byte>>): (r: seq<byte>)
  {
    if |pieces| == 0 then [] else pieces[0] + Flatten(pieces[1..])
  }

  lemma FlattenAppend(a: seq<seq<byte>>, b: seq<seq<byte>>)
    ensures Flatten(a + b) == Flatten(a) + Flatten(b)
  {
    if |a| == 0 {
      assert a + b == b;
    } else {
      assert (a + b)[1..] == a[1..] + b;
      FlattenAppend(a[1..], b);
    }
  }

  predicate IsAscii(s: string) {
    forall i :: 0 <= i < |s| ==> s[i] as int < 0x80
  }

  /** string_to_bytes on ASCII text: one byte per character. */
  function StringToBytes(s: string): (r: seq<byte>)
    requires IsAscii(s)
    ensures |r| == |s|
    ensures forall i :: 0 <= i < |s| ==> r[i] == s[i] as int
  {
    seq(|s|, i requires 0 <= i < |s| => s[i] as int)
  }

  /** bytes_to_string, with each byte read as the character of that code. */
  function BytesToString(b: seq<byte>): (r: string)
    ensures |r| == |b|
    ensures forall i :: 0 <= i < |b| ==> r[i] as int == b[i]
  {
    seq(|b|, i requires 0 <= i < |b| => b[i] as char)
  }

  /** Reading back the bytes of ASCII text gives the text. */
  lemma AsciiRoundTrip(s: string)
    requires IsAscii(s)
    ensures BytesToString(StringToBytes(s)) == s
  {
  }

  lemma StringToBytesAppend(a: string, b: string)
    requires IsAscii(a) && IsAscii(b)
    ensures IsAscii(a + b)
    ensures StringToBytes(a + b) == StringToBytes(a) + StringToBytes(b)
  {
  }
}
