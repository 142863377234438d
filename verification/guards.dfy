/**
 * The two body guards of kabomu/tlv/tlv_utils.py (not part of this model; their
 * behaviour is pinned by tests/tlv/test_ContentLengthEnforcingStreamInternal.py
 * and tests/tlv/test_MaxLengthEnforcingStreamInternal.py).
 *
 * Each guard is a readable stream over another one. A guard's state is the
 * underlying Source plus its own counter; `Read` is one receive_some call on the
 * guard, and `ReadAll` drains it the way read_all_bytes does. The flat functions
 * ExactBody and CappedBody say what a full drain yields, independently of how the
 * underlying source fragments its reads.
 */
module Guards {
  import opened Wrappers
  import opened Errors
  import opened Bytes
  import opened Numbers
  import opened Streams

  // ---------------------------------------------------------------- content-length guard

  /** A content-length enforcing stream with `remaining` bytes still owed. */
  datatype ExactStream = ExactStream(src: Source, remaining: nat)

  /** What a full drain of a content-length guard over `s` yields: exactly the first n bytes. */
  function ExactBody(s: seq<byte>, n: nat): (r: ErrorOr<seq<byte>>)
  {
    if n <= |s| then Ok(s[..n]) else Err(EndOfRead)
  }

  /**
   * One read of at most `max` bytes: nothing once the owed bytes are delivered
   * (or when zero bytes are asked for), never more than is still owed, and the
   * end-of-read error when the underlying stream ends early.
   */
  function ExactRead(st: ExactStream, max: nat): (r: ErrorOr<(seq<byte>, ExactStream)>)
    requires WellFormed(st.src)
    ensures r.Err? <==> max > 0 && st.remaining > 0 && |Contents(st.src)| == 0
    ensures r.Err? ==> r.error == EndOfRead
    ensures r.Ok? ==> WellFormed(r.value.1.src)
    ensures r.Ok? ==> r.value.0 + Contents(r.value.1.src) == Contents(st.src)
    ensures r.Ok? ==> |r.value.0| <= max && r.value.1.remaining + |r.value.0| == st.remaining
    ensures r.Ok? ==> (|r.value.0| == 0 <==> max == 0 || st.remaining == 0)
  {
    if max == 0 || st.remaining == 0 then
      Ok(([], st))
    else
      var got := ReceiveSome(st.src, if max < st.remaining then max else st.remaining);
      if |got.0| == 0 then Err(EndOfRead) else Ok((got.0, ExactStream(got.1, st.remaining - |got.0|)))
  }

  /**
   * Draining the guard with reads of `bufferSize` bytes yields exactly the first n
   * bytes under any fragmentation, leaves the bytes after them unread in the
   * underlying stream, and fails with the end-of-read error when fewer are there.
   */
  method ExactReadAll(st: ExactStream, bufferSize: nat) returns (r: ErrorOr<seq<byte>>, rest: Source)
    requires WellFormed(st.src) && bufferSize > 0
    ensures r == ExactBody(Contents(st.src), st.remaining)
    ensures r.Ok? ==> Contents(rest) == Contents(st.src)[st.remaining..]
  {
    var got: seq<byte> := [];
    var cur := st;
    while true
      invariant WellFormed(cur.src)
      invariant got + Contents(cur.src) == Contents(st.src)
      invariant |got| + cur.remaining == st.remaining
      decreases cur.remaining
    {
      var step := ExactRead(cur, bufferSize);
      if step.Err? {
        assert |Contents(st.src)| == |got| < st.remaining;
        return Err(step.error), cur.src;
      }
      if |step.value.0| == 0 {
        assert cur.remaining == 0;
        assert Contents(st.src)[..st.remaining] == got;
        return Ok(got), cur.src;
      }
      got := got + step.value.0;
      cur := step.value.1;
    }
  }

  /** A zero-byte read returns nothing and leaves the guard as it was. */
  lemma ExactZeroRead(st: ExactStream)
    requires WellFormed(st.src)
    ensures ExactRead(st, 0) == Ok(([], st))
  {
  }

  // ---------------------------------------------------------------- max-length guard

  /** A max-length enforcing stream that has delivered `consumed` bytes so far. */
  datatype CappedStream = CappedStream(src: Source, cap: Option<int>, consumed: nat)

  /** Only a positive cap is enforced; an absent, zero or negative one lets everything through. */
  predicate Enforced(cap: Option<int>) {
    cap.Some? && cap.value > 0
  }

  function LimitExceeded(cap: int): Error {
    IoError("stream size exceeds limit of " + IntToString(cap) + " bytes")
  }

  /** What a full drain of a max-length guard over `s` yields: all of s, unless that is more than an enforced cap. */
  function CappedBody(s: seq<byte>, cap: Option<int>): (r: ErrorOr<seq<byte>>)
  {
    if Enforced(cap) && |s| > cap.value then Err(LimitExceeded(cap.value)) else Ok(s)
  }

  /** One read: the next fragment of the underlying stream, refused once the running total passes an enforced cap. */
  function CappedRead(st: CappedStream, max: nat): (r: ErrorOr<(seq<byte>, CappedStream)>)
    requires WellFormed(st.src)
    ensures r.Err? <==> Enforced(st.cap) && st.consumed + |ReceiveSome(st.src, if max == 0 then 1 else max).0| > st.cap.value && max > 0
    ensures r.Err? ==> r.error == LimitExceeded(st.cap.value)
    ensures r.Ok? ==> WellFormed(r.value.1.src) && r.value.1.cap == st.cap
    ensures r.Ok? ==> r.value.0 + Contents(r.value.1.src) == Contents(st.src)
    ensures r.Ok? ==> |r.value.0| <= max && r.value.1.consumed == st.consumed + |r.value.0|
    ensures r.Ok? ==> (|r.value.0| == 0 <==> max == 0 || |Contents(st.src)| == 0)
    ensures r.Ok? && Enforced(st.cap) ==> r.value.1.consumed <= st.cap.value || st.consumed > st.cap.value
  {
    if max == 0 then
      Ok(([], st))
    else
      var got := ReceiveSome(st.src, max);
      if Enforced(st.cap) && st.consumed + |got.0| > st.cap.value then
        Err(LimitExceeded(st.cap.value))
      else
        Ok((got.0, CappedStream(got.1, st.cap, st.consumed + |got.0|)))
  }

  /**
   * Draining a fresh guard yields the whole underlying stream when it is within
   * an enforced cap (equality included) or when no cap is enforced, and fails with
   * the limit error otherwise, under any fragmentation.
   */
  method CappedReadAll(src: Source, cap: Option<int>, bufferSize: nat) returns (r: ErrorOr<seq<byte>>)
    requires WellFormed(src) && bufferSize > 0
    ensures r == CappedBody(Contents(src), cap)
  {
    var got: seq<byte> := [];
    var cur := CappedStream(src, cap, 0);
    while true
      invariant WellFormed(cur.src) && cur.cap == cap
      invariant got + Contents(cur.src) == Contents(src)
      invariant cur.consumed == |got|
      invariant Enforced(cap) ==> |got| <= cap.value
      decreases |Contents(cur.src)|
    {
      var step := CappedRead(cur, bufferSize);
      if step.Err? {
        var chunk := ReceiveSome(cur.src, bufferSize).0;
        assert |Contents(src)| >= |got| + |chunk|;
        return Err(step.error);
      }
      if |step.value.0| == 0 {
        assert Contents(src) == got;
        return Ok(got);
      }
      got := got + step.value.0;
      cur := step.value.1;
    }
  }

  /** A zero-byte read returns nothing and leaves the guard as it was. */
  lemma CappedZeroRead(st: CappedStream)
    requires WellFormed(st.src)
    ensures CappedRead(st, 0) == Ok(([], st))
  {
  }

  /** The guard never changes the bytes it lets through: a passing drain is the identity. */
  lemma CappedIsIdentity(s: seq<byte>, cap: Option<int>)
    ensures CappedBody(s, cap).Ok? <==> !Enforced(cap) || |s| <= cap.value
    ensures CappedBody(s, cap).Ok? ==> CappedBody(s, cap).value == s
  {
  }

  /** The content-length guard delivers a prefix of the stream, of exactly the owed length. */
  lemma ExactIsPrefix(s: seq<byte>, n: nat)
    ensures ExactBody(s, n).Ok? <==> n <= |s|
    ensures ExactBody(s, n).Ok? ==> |ExactBody(s, n).value| == n && ExactBody(s, n).value + s[n..] == s
    ensures ExactBody(s, n) == (match ReadExactly(s, n) case Ok(p) => Ok(p.0) case Err(e) => Err(e))
  {
  }
}
