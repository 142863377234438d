/**
 * The tag-length-value framing primitive (kabomu/tlv/tlv_utils.py, pinned by
 * tests/tlv/test_tlv_utils.py and tests/tlv/test_BodyChunkDecodingStreamInternal.py).
 * A record is a 4-byte big-endian tag, a 4-byte big-endian length and that many
 * payload bytes. Chunked bodies are a run of records under one tag ended by a
 * record of length zero.
 */
module Tlv {
  import opened Wrappers
  import opened Errors
  import opened Bytes
  import opened Numbers
  import opened Streams

  /** "hdrs": the header-section record. */
  const TAG_FOR_QUASI_HTTP_HEADERS: int := 0x68647273
  /** "bdta": a body-chunk record. */
  const TAG_FOR_QUASI_HTTP_BODY_CHUNK: int := 0x62647461
  /** "bext": an extension record that body decoders skip. */
  const TAG_FOR_QUASI_HTTP_BODY_CHUNK_EXT: int := 0x62657874

  /** A tag the codec can write: positive and within 32 signed bits. */
  predicate ValidTag(tag: int) {
    0 < tag <= INT32_MAX
  }

  /**
   * decode_tag: the int32 at `offset`, which must be positive; zero and negative
   * patterns are invalid tags, and fewer than four bytes cannot be decoded.
   */
  function DecodeTag(data: seq<byte>, offset: int): (r: ErrorOr<int>)
    ensures r.Ok? ==> ValidTag(r.value)
    ensures r.Ok? ==> DeserializeInt32BE(data, offset) == Ok(r.value)
    ensures DeserializeInt32BE(data, offset).Ok? && DeserializeInt32BE(data, offset).value > 0 ==> r.Ok?
  {
    var tag :- DeserializeInt32BE(data, offset);
    if tag <= 0 then Err(IoError("invalid tag: " + IntToString(tag))) else Ok(tag)
  }

  /** decode_length: the int32 at `offset`, which must not be negative. */
  function DecodeLength(data: seq<byte>, offset: int): (r: ErrorOr<int>)
    ensures r.Ok? ==> 0 <= r.value <= INT32_MAX
    ensures r.Ok? ==> DeserializeInt32BE(data, offset) == Ok(r.value)
    ensures DeserializeInt32BE(data, offset).Ok? && DeserializeInt32BE(data, offset).value >= 0 ==> r.Ok?
  {
    var length :- DeserializeInt32BE(data, offset);
    if length < 0 then Err(IoError("invalid tag value length: " + IntToString(length))) else Ok(length)
  }

  /**
   * encode_tag_and_length: the 8-byte record prefix. A tag that is not positive or
   * a negative length is an argument error.
   */
  function EncodeTagAndLength(tag: int, length: int): (r: ErrorOr<seq<byte>>)
    ensures r.Ok? <==> ValidTag(tag) && 0 <= length <= INT32_MAX
    ensures r.Ok? ==> |r.value| == 8
    ensures r.Ok? ==> DecodeTag(r.value, 0) == Ok(tag) && DecodeLength(r.value, 4) == Ok(length)
  {
    if tag <= 0 then
      Err(IllegalArgument("invalid tag: " + IntToString(tag)))
    else if length < 0 then
      Err(IllegalArgument("invalid tag value length: " + IntToString(length)))
    else
      var t :- SerializeInt32BE(tag);
      var l :- SerializeInt32BE(length);
      SerializeDeserialize(tag, [], l);
      SerializeDeserialize(length, t, []);
      assert [] + t + l == t + l + [];
      Ok(t + l)
  }

  /** The record prefix of a valid tag and length. */
  function Prefix(tag: int, length: int): (p: seq<byte>)
    requires ValidTag(tag) && 0 <= length <= INT32_MAX
  {
    EncodeTagAndLength(tag, length).value
  }

  // ---------------------------------------------------------------- encoding

  /** One send_all on the chunk-encoding stream: nothing for an empty write, otherwise one record. */
  function EncodeChunk(tag: int, payload: seq<byte>): (r: ErrorOr<seq<byte>>)
    ensures |payload| == 0 ==> r == Ok([])
    ensures |payload| > 0 ==> (r.Ok? <==> ValidTag(tag) && |payload| <= INT32_MAX)
  {
    if |payload| == 0 then
      Ok([])
    else
      var prefix :- EncodeTagAndLength(tag, |payload|);
      Ok(prefix + payload)
  }

  /** send_eof on the chunk-encoding stream: the zero-length terminator record. */
  function EncodeEnd(tag: int): (r: ErrorOr<seq<byte>>)
    ensures r.Ok? <==> ValidTag(tag)
  {
    EncodeTagAndLength(tag, 0)
  }

  /** A body written through the chunk-encoding stream in the given writes, then ended. */
  function EncodeChunks(tag: int, writes: seq<seq<byte>>): (r: ErrorOr<seq<byte>>)
    ensures r.Ok? <==> ValidTag(tag) && forall i :: 0 <= i < |writes| ==> |writes[i]| <= INT32_MAX
    decreases |writes|
  {
    if |writes| == 0 then
      EncodeEnd(tag)
    else
      var first :- EncodeChunk(tag, writes[0]);
      var rest :- EncodeChunks(tag, writes[1..]);
      assert forall i :: 1 <= i < |writes| ==> writes[i] == writes[1..][i - 1];
      Ok(first + rest)
  }

  // ---------------------------------------------------------------- decoding

  /** Reads four bytes (read_bytes_fully) and decodes them as a tag. */
  function ReadTag(s: seq<byte>): (r: ErrorOr<(int, seq<byte>)>)
    ensures r.Ok? ==> ValidTag(r.value.0) && |s| >= 4 && r.value.1 == s[4..]
  {
    if |s| < 4 then Err(EndOfRead) else
    var tag :- DecodeTag(s, 0);
    Ok((tag, s[4..]))
  }

  /** Reads four bytes (read_bytes_fully) and decodes them as a length. */
  function ReadLength(s: seq<byte>): (r: ErrorOr<(int, seq<byte>)>)
    ensures r.Ok? ==> 0 <= r.value.0 <= INT32_MAX && |s| >= 4 && r.value.1 == s[4..]
  {
    if |s| < 4 then Err(EndOfRead) else
    var length :- DecodeLength(s, 0);
    Ok((length, s[4..]))
  }

  /**
   * After a record under the ignorable tag, its payload is skipped and the tag of
   * the record after it is read; any other tag is passed through unchanged.
   */
  function SkipIgnored(tag: int, s: seq<byte>, ignore: int): (r: ErrorOr<(int, seq<byte>)>)
    ensures r.Ok? ==> |r.value.1| <= |s|
    ensures tag != ignore ==> r == Ok((tag, s))
  {
    if tag == ignore then
      var len :- ReadLength(s);
      var skipped :- ReadExactly(len.1, len.0);
      ReadTag(skipped.1)
    else
      Ok((tag, s))
  }

  /** The tag of the next record that is not skipped, and the bytes after that tag. */
  function NextTag(s: seq<byte>, ignore: int): (r: ErrorOr<(int, seq<byte>)>)
    ensures r.Ok? ==> |r.value.1| + 4 <= |s| && r.value.1 == s[|s| - |r.value.1|..]
  {
    var first :- ReadTag(s);
    SkipIgnored(first.0, first.1, ignore)
  }

  /**
   * The body-chunk decoding stream read to its end: the concatenated payloads of
   * the records under `expected` up to its zero-length record, and the bytes after
   * that record. One record under `ignore` may precede each expected record and is
   * skipped; any other tag is refused.
   */
  function DecodeChunked(s: seq<byte>, expected: int, ignore: int): (r: ErrorOr<(seq<byte>, seq<byte>)>)
    ensures r.Ok? ==> |r.value.1| + 8 <= |s| && r.value.1 == s[|s| - |r.value.1|..]
    decreases |s|
  {
    var found :- NextTag(s, ignore);
    if found.0 != expected then
      Err(IoError("unexpected tag: " + IntToString(found.0)))
    else
      var len :- ReadLength(found.1);
      if len.0 == 0 then
        Ok(([], len.1))
      else
        var payload :- ReadExactly(len.1, len.0);
        var more :- DecodeChunked(payload.1, expected, ignore);
        Ok((payload.0 + more.0, more.1))
  }

  // ---------------------------------------------------------------- properties

  /** Decoding looks only at the four bytes at the offset. */
  lemma DecodeSameBytes(a: seq<byte>, i: int, b: seq<byte>, j: int)
    requires 0 <= i && i + 4 <= |a| && 0 <= j && j + 4 <= |b|
    requires a[i..i + 4] == b[j..j + 4]
    ensures DecodeTag(a, i) == DecodeTag(b, j)
    ensures DecodeLength(a, i) == DecodeLength(b, j)
  {
    assert a[i] == b[j] && a[i + 1] == b[j + 1] && a[i + 2] == b[j + 2] && a[i + 3] == b[j + 3] by {
      assert a[i..i + 4][0] == a[i] && a[i..i + 4][3] == a[i + 3];
      assert a[i..i + 4][1] == a[i + 1] && a[i..i + 4][2] == a[i + 2];
    }
  }

  /** Any four bytes that decode as a tag read back as that tag, whatever follows them. */
  lemma ReadTagOf(p: seq<byte>, tag: int, t: seq<byte>)
    requires |p| >= 4 && DecodeTag(p, 0) == Ok(tag)
    ensures ReadTag(p + t) == Ok((tag, p[4..] + t))
  {
    var s := p + t;
    assert s[0..4] == p[0..4];
    DecodeSameBytes(s, 0, p, 0);
    assert s[4..] == p[4..] + t;
  }

  /** Any four bytes that decode as a length read back as that length, whatever follows them. */
  lemma ReadLengthOf(p: seq<byte>, length: int, t: seq<byte>)
    requires |p| == 4 && DecodeLength(p, 0) == Ok(length)
    ensures ReadLength(p + t) == Ok((length, t))
  {
    var s := p + t;
    assert s[0..4] == p[0..4];
    DecodeSameBytes(s, 0, p, 0);
    assert s[4..] == t;
  }

  /** A record prefix reads back as its tag. */
  lemma PrefixTagReadsBack(tag: int, length: int, t: seq<byte>)
    requires ValidTag(tag) && 0 <= length <= INT32_MAX
    ensures ReadTag(Prefix(tag, length) + t) == Ok((tag, Prefix(tag, length)[4..] + t))
  {
    ReadTagOf(Prefix(tag, length), tag, t);
  }

  /** After its tag, a record prefix reads back as its length. */
  lemma PrefixLengthReadsBack(tag: int, length: int, t: seq<byte>)
    requires ValidTag(tag) && 0 <= length <= INT32_MAX
    ensures ReadLength(Prefix(tag, length)[4..] + t) == Ok((length, t))
  {
    var p := Prefix(tag, length);
    DecodeSameBytes(p[4..], 0, p, 4);
    ReadLengthOf(p[4..], length, t);
  }

  /** A record prefix reads back as its tag, then its length. */
  lemma PrefixReadsBack(tag: int, length: int, t: seq<byte>)
    requires ValidTag(tag) && 0 <= length <= INT32_MAX
    ensures ReadTag(Prefix(tag, length) + t) == Ok((tag, Prefix(tag, length)[4..] + t))
    ensures ReadLength(Prefix(tag, length)[4..] + t) == Ok((length, t))
  {
    PrefixTagReadsBack(tag, length, t);
    PrefixLengthReadsBack(tag, length, t);
  }

  /** The test vector (0x15c0, 2): tag then length, both big-endian. */
  lemma EncodeTagAndLengthVector()
    ensures EncodeTagAndLength(0x15c0, 2) == Ok([0, 0, 0x15, 0xc0, 0, 0, 0, 2])
  {
    SerializeVectors();
    assert [0, 0, 0x15, 0xc0] + [0, 0, 0, 2] == [0, 0, 0x15, 0xc0, 0, 0, 0, 2];
  }

  lemma SerializeVectors()
    ensures SerializeInt32BE(0x15c0) == Ok([0, 0, 0x15, 0xc0])
    ensures SerializeInt32BE(2) == Ok([0, 0, 0, 2])
  {
  }

  /** A zero-length record under the expected tag ends the body at once. */
  lemma DecodeEmptyBody(expected: int, ignore: int, t: seq<byte>)
    requires ValidTag(expected) && expected != ignore
    ensures DecodeChunked(Prefix(expected, 0) + t, expected, ignore) == Ok(([], t))
  {
    PrefixReadsBack(expected, 0, t);
  }

  /** A non-empty record under the expected tag contributes its payload, then decoding goes on after it. */
  lemma DecodeExpectedRecord(expected: int, ignore: int, p: seq<byte>, rest: seq<byte>)
    requires ValidTag(expected) && expected != ignore && 0 < |p| <= INT32_MAX
    ensures DecodeChunked(Prefix(expected, |p|) + p + rest, expected, ignore)
         == (match DecodeChunked(rest, expected, ignore)
             case Ok(more) => Ok((p + more.0, more.1))
             case Err(e) => Err(e))
  {
    var s := Prefix(expected, |p|) + p + rest;
    assert s == Prefix(expected, |p|) + (p + rest);
    PrefixReadsBack(expected, |p|, p + rest);
    assert ReadExactly(p + rest, |p|) == Ok((p, rest)) by {
      assert (p + rest)[..|p|] == p && (p + rest)[|p|..] == rest;
    }
  }

  /** Skipping an ignorable record leaves the tag of whatever follows it. */
  lemma SkipIgnoredRecord(ignore: int, p: seq<byte>, rest: seq<byte>)
    requires ValidTag(ignore) && |p| <= INT32_MAX
    ensures SkipIgnored(ignore, Prefix(ignore, |p|)[4..] + (p + rest), ignore) == ReadTag(rest)
  {
    PrefixLengthReadsBack(ignore, |p|, p + rest);
    assert ReadExactly(p + rest, |p|) == Ok((p, rest)) by {
      assert (p + rest)[..|p|] == p && (p + rest)[|p|..] == rest;
    }
  }

  /** Decoding depends on the input only through its next unskipped tag and what follows it. */
  lemma DecodeFollowsNextTag(s1: seq<byte>, s2: seq<byte>, expected: int, ignore: int)
    requires NextTag(s1, ignore) == NextTag(s2, ignore)
    ensures DecodeChunked(s1, expected, ignore) == DecodeChunked(s2, expected, ignore)
  {
  }

  /** After an ignorable record, the next unskipped tag is the one that follows it, if that is not ignorable too. */
  lemma NextTagAfterIgnored(ignore: int, p: seq<byte>, rest: seq<byte>)
    requires ValidTag(ignore) && |p| <= INT32_MAX
    ensures NextTag(Prefix(ignore, |p|) + p + rest, ignore) == ReadTag(rest)
  {
    var s := Prefix(ignore, |p|) + p + rest;
    assert s == Prefix(ignore, |p|) + (p + rest);
    PrefixTagReadsBack(ignore, |p|, p + rest);
    SkipIgnoredRecord(ignore, p, rest);
  }

  /** A single record under the ignorable tag is skipped with its payload, whatever its length. */
  lemma SkipsOneIgnoredRecord(expected: int, ignore: int, p: seq<byte>, rest: seq<byte>)
    requires ValidTag(ignore) && ignore != expected && |p| <= INT32_MAX
    requires !(ReadTag(rest).Ok? && ReadTag(rest).value.0 == ignore)
    ensures DecodeChunked(Prefix(ignore, |p|) + p + rest, expected, ignore) == DecodeChunked(rest, expected, ignore)
  {
    NextTagAfterIgnored(ignore, p, rest);
    DecodeFollowsNextTag(Prefix(ignore, |p|) + p + rest, rest, expected, ignore);
  }

  /** A first tag (after at most one ignorable record) other than the expected one is refused. */
  lemma UnexpectedNextTag(s: seq<byte>, expected: int, ignore: int)
    requires NextTag(s, ignore).Ok? && NextTag(s, ignore).value.0 != expected
    ensures DecodeChunked(s, expected, ignore) == Err(IoError("unexpected tag: " + IntToString(NextTag(s, ignore).value.0)))
  {
  }

  /** Two ignorable records in a row are refused as an unexpected tag. */
  lemma TwoIgnoredRecordsFail(expected: int, ignore: int, p: seq<byte>, q: seq<byte>, rest: seq<byte>)
    requires ValidTag(ignore) && ignore != expected && |p| <= INT32_MAX && |q| <= INT32_MAX
    ensures DecodeChunked(Prefix(ignore, |p|) + p + Prefix(ignore, |q|) + q + rest, expected, ignore)
         == Err(IoError("unexpected tag: " + IntToString(ignore)))
  {
    IgnoredTwiceNextTag(ignore, p, q, rest);
    UnexpectedNextTag(Prefix(ignore, |p|) + p + Prefix(ignore, |q|) + q + rest, expected, ignore);
  }

  /** After one ignorable record, the next tag read is that of the following record, even if it is ignorable too. */
  lemma IgnoredTwiceNextTag(ignore: int, p: seq<byte>, q: seq<byte>, rest: seq<byte>)
    requires ValidTag(ignore) && |p| <= INT32_MAX && |q| <= INT32_MAX
    ensures NextTag(Prefix(ignore, |p|) + p + Prefix(ignore, |q|) + q + rest, ignore).Ok?
    ensures NextTag(Prefix(ignore, |p|) + p + Prefix(ignore, |q|) + q + rest, ignore).value.0 == ignore
  {
    var tail := Prefix(ignore, |q|) + (q + rest);
    assert Prefix(ignore, |p|) + p + Prefix(ignore, |q|) + q + rest == Prefix(ignore, |p|) + p + tail;
    NextTagAfterIgnored(ignore, p, tail);
    PrefixTagReadsBack(ignore, |q|, q + rest);
  }

  /** A record whose tag is neither expected nor ignorable is refused. */
  lemma UnknownTagFails(expected: int, ignore: int, tag: int, length: int, rest: seq<byte>)
    requires ValidTag(tag) && tag != expected && tag != ignore && 0 <= length <= INT32_MAX
    ensures DecodeChunked(Prefix(tag, length) + rest, expected, ignore)
         == Err(IoError("unexpected tag: " + IntToString(tag)))
  {
    PrefixReadsBack(tag, length, rest);
  }

  /** A record whose payload is cut short fails with the end-of-read error. */
  lemma TruncatedPayloadFails(expected: int, ignore: int, p: seq<byte>, length: int)
    requires ValidTag(expected) && expected != ignore && |p| < length <= INT32_MAX
    ensures DecodeChunked(Prefix(expected, length) + p, expected, ignore) == Err(EndOfRead)
  {
    PrefixReadsBack(expected, length, p);
  }

  /** A zero tag is refused as an invalid tag. */
  lemma ZeroTagFails(expected: int, ignore: int, rest: seq<byte>)
    ensures DecodeChunked([0, 0, 0, 0] + rest, expected, ignore) == Err(IoError("invalid tag: " + IntToString(0)))
  {
    var s := [0, 0, 0, 0] + rest;
    assert s[0..4] == [0, 0, 0, 0];
    DecodeSameBytes(s, 0, [0, 0, 0, 0], 0);
  }

  /** The test vector with length bytes ff ff ff ec is refused as an invalid length of -20. */
  lemma NegativeLengthFails(rest: seq<byte>)
    ensures DecodeChunked([0, 0, 0, 14, 0xff, 0xff, 0xff, 0xec] + rest, 14, 15)
         == Err(IoError("invalid tag value length: " + IntToString(-20)))
  {
    var s := [0, 0, 0, 14, 0xff, 0xff, 0xff, 0xec] + rest;
    assert s[0..4] == [0, 0, 0, 14];
    DecodeSameBytes(s, 0, [0, 0, 0, 14], 0);
    assert DecodeTag([0, 0, 0, 14], 0) == Ok(14);
    var t := s[4..];
    assert t[0..4] == [0xff, 0xff, 0xff, 0xec];
    DecodeSameBytes(t, 0, [0xff, 0xff, 0xff, 0xec], 0);
    assert DeserializeInt32BE([0xff, 0xff, 0xff, 0xec], 0) == Ok(-20);
  }

  /** The encoding of a non-empty write followed by more writes is its record, then theirs. */
  lemma EncodeChunksCons(tag: int, writes: seq<seq<byte>>)
    requires ValidTag(tag) && |writes| > 0 && 0 < |writes[0]| <= INT32_MAX
    requires EncodeChunks(tag, writes[1..]).Ok?
    ensures EncodeChunks(tag, writes) == Ok(Prefix(tag, |writes[0]|) + writes[0] + EncodeChunks(tag, writes[1..]).value)
  {
  }

  lemma ChunkStep(tag: int, ignore: int, w: seq<byte>, rest: seq<byte>, tail: seq<byte>, more: seq<byte>)
    requires ValidTag(tag) && tag != ignore && 0 < |w| <= INT32_MAX
    requires DecodeChunked(rest + tail, tag, ignore) == Ok((more, tail))
    ensures DecodeChunked(Prefix(tag, |w|) + w + rest + tail, tag, ignore) == Ok((w + more, tail))
  {
    assert Prefix(tag, |w|) + w + rest + tail == Prefix(tag, |w|) + w + (rest + tail);
    DecodeExpectedRecord(tag, ignore, w, rest + tail);
  }

  /**
   * Chunk codec round trip: decoding what the encoding stream produced for any
   * writes (including none, and including empty ones) under any valid tag gives
   * back exactly the written bytes, and leaves whatever followed untouched.
   */
  lemma {:induction false} ChunkRoundTrip(tag: int, ignore: int, writes: seq<seq<byte>>, tail: seq<byte>)
    requires ValidTag(tag) && tag != ignore
    requires forall i :: 0 <= i < |writes| ==> |writes[i]| <= INT32_MAX
    ensures EncodeChunks(tag, writes).Ok?
    ensures DecodeChunked(EncodeChunks(tag, writes).value + tail, tag, ignore) == Ok((Flatten(writes), tail))
    decreases |writes|
  {
    if |writes| == 0 {
      assert EncodeChunks(tag, writes).value == Prefix(tag, 0);
      assert Flatten(writes) == [];
      DecodeEmptyBody(tag, ignore, tail);
    } else {
      var w := writes[0];
      assert forall i :: 1 <= i < |writes| ==> writes[i] == writes[1..][i - 1];
      ChunkRoundTrip(tag, ignore, writes[1..], tail);
      var rest := EncodeChunks(tag, writes[1..]).value;
      assert Flatten(writes) == w + Flatten(writes[1..]);
      if |w| == 0 {
        assert w == [];
        assert EncodeChunks(tag, writes).value == rest;
        assert Flatten(writes) == Flatten(writes[1..]);
      } else {
        EncodeChunksCons(tag, writes);
        ChunkStep(tag, ignore, w, rest, tail, Flatten(writes[1..]));
      }
    }
  }
}
