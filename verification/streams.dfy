/**
 * Readable byte streams and the two stream helpers of kabomu/io_utils_internal.py
 * (pinned by tests/test_io_utils_internal.py): read_bytes_fully and copy.
 *
 * A stream is modelled by the bytes it still holds, split into the fragments that
 * successive reads deliver. Any partition into non-empty fragments is allowed, which
 * is how "a source that fragments its reads arbitrarily" is expressed; the contracts
 * below say what the helpers produce independently of that partition.
 */
module Streams {
  import opened Wrappers
  import opened Errors
  import opened Bytes

  datatype Source = Source(pieces: seq<seq<byte>>)

  /** Every fragment holds at least one byte: an empty read means end of stream. */
  predicate WellFormed(src: Source) {
    forall i :: 0 <= i < |src.pieces| ==> |src.pieces[i]| > 0
  }

  /** All bytes the stream still holds. */
  function Contents(src: Source): seq<byte> {
    Flatten(src.pieces)
  }

  lemma EmptyContents(src: Source)
    requires WellFormed(src)
    ensures |Contents(src)| == 0 <==> |src.pieces| == 0
  {
    if |src.pieces| > 0 {
      assert |src.pieces[0]| > 0;
    }
  }

  /**
   * receive_some(max): at most `max` bytes from the front of the stream, taken
   * from its next fragment; an empty result only at end of stream.
   */
  function ReceiveSome(src: Source, max: nat): (r: (seq<byte>, Source))
    requires WellFormed(src) && max > 0
    ensures WellFormed(r.1)
    ensures r.0 + Contents(r.1) == Contents(src)
    ensures |r.0| <= max
    ensures |r.0| == 0 <==> |Contents(src)| == 0
  {
    EmptyContents(src);
    if |src.pieces| == 0 then
      ([], src)
    else
      var p := src.pieces[0];
      if |p| <= max then
        (p, Source(src.pieces[1..]))
      else
        var rest := Source([p[max..]] + src.pieces[1..]);
        assert Contents(rest) == p[max..] + Flatten(src.pieces[1..]);
        (p[..max], rest)
  }

  /** read_bytes_fully over the plain bytes of a stream: the next n bytes and what follows them. */
  function ReadExactly(s: seq<byte>, n: nat): (r: ErrorOr<(seq<byte>, seq<byte>)>)
    ensures r.Ok? <==> n <= |s|
    ensures r.Ok? ==> |r.value.0| == n && r.value.0 + r.value.1 == s
    ensures r.Err? ==> r.error == EndOfRead
  {
    if n <= |s| then Ok((s[..n], s[n..])) else Err(EndOfRead)
  }

  /**
   * read_bytes_fully(src, n): exactly the next n bytes, however the stream
   * fragments them, leaving the stream positioned right after them; fails with
   * the end-of-read error when fewer than n bytes remain. n = 0 reads nothing.
   */
  method ReadBytesFully(src: Source, n: nat) returns (r: ErrorOr<seq<byte>>, rest: Source)
    requires WellFormed(src)
    ensures WellFormed(rest)
    ensures r.Ok? <==> n <= |Contents(src)|
    ensures r.Ok? ==> r.value == Contents(src)[..n] && Contents(rest) == Contents(src)[n..]
    ensures r.Err? ==> r.error == EndOfRead
    ensures n == 0 ==> rest == src
  {
    var got: seq<byte> := [];
    rest := src;
    while |got| < n
      invariant WellFormed(rest)
      invariant got + Contents(rest) == Contents(src)
      invariant |got| <= n
      invariant n == 0 ==> rest == src
      decreases n - |got|
    {
      var chunk, next := ReceiveSome(rest, n - |got|).0, ReceiveSome(rest, n - |got|).1;
      if |chunk| == 0 {
        assert |Contents(src)| == |got| < n;
        return Err(EndOfRead), next;
      }
      got := got + chunk;
      rest := next;
    }
    assert Contents(src) == got + Contents(rest);
    assert Contents(src)[..n] == got;
    r := Ok(got);
  }

  /**
   * copy(src, sink): the successive writes made to the sink. Their bytes, in order,
   * are exactly the bytes of the source, and no write is empty.
   */
  method Copy(src: Source) returns (writes: seq<seq<byte>>)
    requires WellFormed(src)
    ensures Flatten(writes) == Contents(src)
    ensures forall i :: 0 <= i < |writes| ==> |writes[i]| > 0
  {
    writes := [];
    var rest := src;
    while true
      invariant WellFormed(rest)
      invariant Flatten(writes) + Contents(rest) == Contents(src)
      invariant forall i :: 0 <= i < |writes| ==> |writes[i]| > 0
      decreases |Contents(rest)|
    {
      var chunk, next := ReceiveSome(rest, |Contents(rest)| + 1).0, ReceiveSome(rest, |Contents(rest)| + 1).1;
      if |chunk| == 0 {
        return;
      }
      FlattenAppend(writes, [chunk]);
      assert Flatten([chunk]) == chunk + Flatten([]);
      writes := writes + [chunk];
      rest := next;
    }
  }
}
