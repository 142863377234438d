/**
 * Writing and reading whole quasi-HTTP entities (kabomu/protocol_utils_internal.py,
 * write_entity_to_transport and read_entity_from_transport).
 *
 * An entity is a request or a response whose body has representation B. A written
 * entity carries its body as a Source (so that the chunk records follow the
 * source's fragmentation); a read entity carries a BodyReader, the stack of guards
 * the reader wraps around the transport, which ReadBody then drains. The transport
 * itself is the byte sequence written or still to be read.
 */
module Entity {
  import opened Wrappers
  import opened Errors
  import opened Bytes
  import opened Numbers
  import opened Streams
  import opened Tlv
  import opened Headers
  import opened Guards
  import Options
  import Csv

  /** A connection's environment: opaque key/value data handed to requests read off it. */
  type Environment = map<string, string>

  /** What the codec reads from a connection: its environment and its resolved processing options. */
  datatype Connection = Connection(environment: Option<Environment>, processingOptions: Option<Options.ProcessingOptions>)

  datatype Entity<B> =
    | Request(httpMethod: Option<string>, target: Option<string>, httpVersion: Option<string>,
              contentLength: int, headers: HeaderList, body: Option<B>, environment: Option<Environment>)
    | Response(httpVersion: Option<string>, statusCode: int, httpStatusMessage: Option<string>,
               contentLength: int, headers: HeaderList, body: Option<B>)

  /** How a read body is obtained from the bytes after the header section. */
  datatype BodyReader =
    | Exact(length: nat)
    | Chunked
    | Capped(inner: BodyReader, cap: Option<int>)

  const NO_WRITABLE_STREAM: string := "no writable stream found for transport"
  const NO_READABLE_STREAM: string := "no readable stream found for transport"
  const BAD_REQUEST_CONTENT_LENGTH: string := "invalid quasi http request content length"
  const BAD_RESPONSE_CONTENT_LENGTH: string := "invalid quasi http response content length"
  const BAD_STATUS_CODE: string := "invalid quasi http response status code"
  const UNBOUND_BODY: string := "local variable 'body' referenced before assignment"

  // ---------------------------------------------------------------- writing

  function Field(v: Option<string>): LineField {
    if v.Some? then Text(v.value) else Absent
  }

  /** The four values of the request line (method, target, version, length) or status line (version, code, message, length). */
  function Line<B>(e: Entity<B>): (line: seq<LineField>)
    ensures |line| == 4
  {
    match e
    case Request(m, t, v, n, _, _, _) => [Field(m), Field(t), Field(v), Number(n)]
    case Response(v, c, msg, n, _, _) => [Field(v), Number(c), Field(msg), Number(n)]
  }

  /** max_headers_size of the connection's processing options, if any. */
  function MaxHeadersSize(conn: Connection): Option<int> {
    if conn.processingOptions.Some? then conn.processingOptions.value.maxHeadersSize else None
  }

  /**
   * The body part of a written entity: nothing without a body, whatever length is
   * declared; the raw bytes, unchecked, for a positive length; otherwise the
   * "bdta" chunk records of the source's fragments and the terminating record.
   */
  function BodyBytes(contentLength: int, body: Option<Source>): (r: ErrorOr<seq<byte>>)
    ensures body.None? ==> r == Ok([])
    ensures body.Some? && contentLength > 0 ==> r == Ok(Contents(body.value))
    ensures body.Some? && contentLength <= 0 ==> r == EncodeChunks(TAG_FOR_QUASI_HTTP_BODY_CHUNK, body.value.pieces)
  {
    if body.None? then Ok([])
    else if contentLength > 0 then Ok(Contents(body.value))
    else EncodeChunks(TAG_FOR_QUASI_HTTP_BODY_CHUNK, body.value.pieces)
  }

  /**
   * write_entity_to_transport: with no writable stream, a missing-dependency error;
   * otherwise the header section (capped by the connection's max_headers_size),
   * then the body part.
   */
  function WriteEntity(hasSink: bool, e: Entity<Source>, conn: Connection): (r: ErrorOr<seq<byte>>)
    ensures !hasSink ==> r == Err(MissingDependency(NO_WRITABLE_STREAM))
    ensures r.Ok? <==> hasSink && WriteHeaders(e.Response?, Line(e), e.headers, MaxHeadersSize(conn)).Ok?
                       && BodyBytes(e.contentLength, e.body).Ok?
    ensures r.Ok? ==> r.value == WriteHeaders(e.Response?, Line(e), e.headers, MaxHeadersSize(conn)).value
                                 + BodyBytes(e.contentLength, e.body).value
  {
    if !hasSink then
      Err(MissingDependency(NO_WRITABLE_STREAM))
    else
      var head :- WriteHeaders(e.Response?, Line(e), e.headers, MaxHeadersSize(conn));
      var body :- BodyBytes(e.contentLength, e.body);
      Ok(head + body)
  }

  // ---------------------------------------------------------------- reading

  /** The body reader for a declared length: none for 0, the exact-length guard for a positive one, the chunk decoder otherwise. */
  function BodyFraming(contentLength: int): (b: Option<BodyReader>)
    ensures b.None? <==> contentLength == 0
    ensures contentLength > 0 ==> b == Some(Exact(contentLength))
    ensures contentLength < 0 ==> b == Some(Chunked)
  {
    if contentLength == 0 then None
    else if contentLength > 0 then Some(Exact(contentLength))
    else Some(Chunked)
  }

  /**
   * The same choice as written: `body` is bound only inside `if content_length:`,
   * so a zero length reaches a read of an unbound local.
   */
  function BodyFramingAsWritten(contentLength: int): (r: ErrorOr<Option<BodyReader>>)
  {
    if contentLength == 0 then Err(Foreign(UNBOUND_BODY)) else Ok(BodyFraming(contentLength))
  }

  /**
   * Draining a body reader over the bytes after the header section: the body and
   * the bytes left after it. The max-length guard is applied to the inner body.
   */
  function ReadBody(b: BodyReader, s: seq<byte>): (r: ErrorOr<(seq<byte>, seq<byte>)>)
    ensures b.Exact? ==> r == ReadExactly(s, b.length)
    ensures b.Chunked? ==> r == DecodeChunked(s, TAG_FOR_QUASI_HTTP_BODY_CHUNK, TAG_FOR_QUASI_HTTP_BODY_CHUNK_EXT)
    ensures r.Ok? ==> |r.value.1| <= |s| && r.value.1 == s[|s| - |r.value.1|..]
    decreases b
  {
    match b
    case Exact(n) => ReadExactly(s, n)
    case Chunked => DecodeChunked(s, TAG_FOR_QUASI_HTTP_BODY_CHUNK, TAG_FOR_QUASI_HTTP_BODY_CHUNK_EXT)
    case Capped(inner, cap) =>
      var got :- ReadBody(inner, s);
      var body :- CappedBody(got.0, cap);
      Ok((body, got.1))
  }

  /**
   * A response body is wrapped in the max-length guard when the connection has
   * processing options whose max_response_body_size is absent, zero or positive.
   */
  function ResponseBody(body: Option<BodyReader>, options: Option<Options.ProcessingOptions>): (r: Option<BodyReader>)
    ensures body.None? ==> r.None?
    ensures body.Some? && options.Some? && !(options.value.maxResponseBodySize.Some? && options.value.maxResponseBodySize.value < 0)
      ==> r == Some(Capped(body.value, options.value.maxResponseBodySize))
    ensures options.None? || (options.value.maxResponseBodySize.Some? && options.value.maxResponseBodySize.value < 0) ==> r == body
  {
    if body.Some? && options.Some? then
      var limit := options.value.maxResponseBodySize;
      if limit.None? || limit.value == 0 || limit.value > 0 then Some(Capped(body.value, limit)) else body
    else body
  }

  /** The content length of a read line: parse_int_48, a failure re-raised as a protocol violation naming the entity. */
  function ContentLength(isResponse: bool, text: string): (r: ErrorOr<int>)
    ensures r.Ok? <==> ParseInt48(text).Ok?
    ensures r.Ok? ==> r.value == ParseInt48(text).value
    ensures r.Err? ==> r.error == QuasiHttp(ProtocolViolation,
      if isResponse then BAD_RESPONSE_CONTENT_LENGTH else BAD_REQUEST_CONTENT_LENGTH, Some(ParseInt48(text).error))
  {
    match ParseInt48(text)
    case Ok(n) => Ok(n)
    case Err(e) => Err(QuasiHttp(ProtocolViolation, if isResponse then BAD_RESPONSE_CONTENT_LENGTH else BAD_REQUEST_CONTENT_LENGTH, Some(e)))
  }

  /** The status code of a read status line: parse_int_32, a failure re-raised as a protocol violation. */
  function StatusCode(text: string): (r: ErrorOr<int>)
    ensures r.Ok? <==> ParseInt32(text).Ok?
    ensures r.Ok? ==> r.value == ParseInt32(text).value
    ensures r.Err? ==> r.error == QuasiHttp(ProtocolViolation, BAD_STATUS_CODE, Some(ParseInt32(text).error))
  {
    match ParseInt32(text)
    case Ok(n) => Ok(n)
    case Err(e) => Err(QuasiHttp(ProtocolViolation, BAD_STATUS_CODE, Some(e)))
  }

  /**
   * read_entity_from_transport: the header section (capped by the connection's
   * max_headers_size), then the content length, then, for a response, the status
   * code; the body reader follows the sign of the length. Returns the entity and
   * the bytes after the header section, from which its body is read.
   */
  function ReadEntity(isResponse: bool, hasSource: bool, s: seq<byte>, conn: Connection): (r: ErrorOr<(Entity<BodyReader>, seq<byte>)>)
    ensures !hasSource ==> r == Err(MissingDependency(NO_READABLE_STREAM))
    ensures r.Ok? ==> r.value.0.Response? == isResponse
    ensures r.Ok? ==> ReadHeaders(isResponse, s, MaxHeadersSize(conn)).Ok? && r.value.1 == ReadHeaders(isResponse, s, MaxHeadersSize(conn)).value.1
  {
    if !hasSource then
      Err(MissingDependency(NO_READABLE_STREAM))
    else
      var section :- ReadHeaders(isResponse, s, MaxHeadersSize(conn));
      var line, headers, rest := section.0.0, section.0.1, section.1;
      var contentLength :- ContentLength(isResponse, line[3]);
      var body := BodyFraming(contentLength);
      if isResponse then
        var statusCode :- StatusCode(line[1]);
        Ok((Response(Some(line[0]), statusCode, Some(line[2]), contentLength, headers,
                     ResponseBody(body, conn.processingOptions)), rest))
      else
        Ok((Request(Some(line[0]), Some(line[1]), Some(line[2]), contentLength, headers, body, conn.environment), rest))
  }

  // ---------------------------------------------------------------- properties: bodies

  /**
   * Body round trip: a chunk-encoded body (non-positive declared length) is
   * decoded back to the source's bytes under any fragmentation; a raw body
   * (positive length) is read back exactly when it holds the declared number of
   * bytes. Either way the bytes after it are left.
   */
  lemma WrittenBodyReadsBack(contentLength: int, src: Source, t: seq<byte>)
    requires contentLength != 0
    requires contentLength < 0 ==> forall i :: 0 <= i < |src.pieces| ==> |src.pieces[i]| <= INT32_MAX
    requires contentLength > 0 ==> |Contents(src)| == contentLength
    ensures BodyBytes(contentLength, Some(src)).Ok?
    ensures ReadBody(BodyFraming(contentLength).value, BodyBytes(contentLength, Some(src)).value + t) == Ok((Contents(src), t))
  {
    if contentLength < 0 {
      ChunkRoundTrip(TAG_FOR_QUASI_HTTP_BODY_CHUNK, TAG_FOR_QUASI_HTTP_BODY_CHUNK_EXT, src.pieces, t);
    } else {
      var s := Contents(src) + t;
      assert s[..contentLength] == Contents(src) && s[contentLength..] == t;
    }
  }

  /**
   * A raw body is written without a length check, so one shorter than its
   * declared length runs the reader into the bytes that follow it.
   */
  lemma ShortRawBodyOverreads(n: nat, b: seq<byte>, t: seq<byte>)
    requires |b| < n <= |b| + |t|
    ensures ReadBody(Exact(n), b + t) == Ok((b + t[..n - |b|], t[n - |b|..]))
  {
    var s := b + t;
    assert s[..n] == b + t[..n - |b|];
    assert s[n..] == t[n - |b|..];
  }

  /**
   * The max-length guard around any body reader: the inner body when it is within
   * an enforced cap (equality included) or no cap is enforced, the limit error when
   * it is larger, and the inner reader's own error when that fails.
   */
  lemma CappedReadBody(inner: BodyReader, cap: Option<int>, s: seq<byte>)
    ensures ReadBody(inner, s).Err? ==> ReadBody(Capped(inner, cap), s) == ReadBody(inner, s)
    ensures ReadBody(inner, s).Ok? && Enforced(cap) && |ReadBody(inner, s).value.0| > cap.value
      ==> ReadBody(Capped(inner, cap), s) == Err(LimitExceeded(cap.value))
    ensures ReadBody(inner, s).Ok? && !(Enforced(cap) && |ReadBody(inner, s).value.0| > cap.value)
      ==> ReadBody(Capped(inner, cap), s) == ReadBody(inner, s)
  {
  }

  /** The cap a read response body is held to: its options' max_response_body_size, unless that is negative. */
  function ResponseLimit(options: Option<Options.ProcessingOptions>): Option<int> {
    if options.Some? && !(options.value.maxResponseBodySize.Some? && options.value.maxResponseBodySize.value < 0)
    then options.value.maxResponseBodySize else None
  }

  /** Reading a response body is reading the plain body and then holding it to ResponseLimit. */
  lemma ResponseBodyIsCapped(body: BodyReader, options: Option<Options.ProcessingOptions>, s: seq<byte>)
    ensures ReadBody(ResponseBody(Some(body), options).value, s)
         == (match ReadBody(body, s)
             case Err(e) => Err(e)
             case Ok(got) => if CappedBody(got.0, ResponseLimit(options)).Ok? then Ok(got) else Err(CappedBody(got.0, ResponseLimit(options)).error))
  {
    CappedReadBody(body, ResponseLimit(options), s);
  }

  /**
   * As written, a declared length of 0 leaves the body unbound and the read
   * fails; the corrected reader gives such an entity no body. Every other length
   * is framed the same way by both.
   */
  lemma UnboundBodyAsWritten(contentLength: int)
    ensures contentLength == 0 ==> BodyFramingAsWritten(contentLength).Err? && BodyFraming(contentLength).None?
    ensures contentLength != 0 ==> BodyFramingAsWritten(contentLength) == Ok(BodyFraming(contentLength))
  {
  }

  // ---------------------------------------------------------------- properties: entities

  /** What a written line field reads back as: the text, or "" for an absent one. */
  lemma LineReadsBack<B>(e: Entity<B>)
    ensures LineTexts(Line(e))[3] == IntToString(e.contentLength)
    ensures e.Request? ==> LineTexts(Line(e))[..3] == [e.httpMethod.GetOr(""), e.target.GetOr(""), e.httpVersion.GetOr("")]
    ensures e.Response? ==> LineTexts(Line(e))[..3] == [e.httpVersion.GetOr(""), IntToString(e.statusCode), e.httpStatusMessage.GetOr("")]
  {
  }

  /** The header section of a written entity is read back, leaving exactly its body part and what follows. */
  lemma SectionReadsBack(e: Entity<Source>, conn: Connection, readConn: Connection, t: seq<byte>)
    requires WriteEntity(true, e, conn).Ok?
    requires |EncodeHeaders(e.Response?, Line(e), e.headers).value| <= EffectiveMaxHeadersSize(MaxHeadersSize(readConn))
    ensures ReadHeaders(e.Response?, WriteEntity(true, e, conn).value + t, MaxHeadersSize(readConn))
         == Ok((DecodeHeaders(e.Response?, EncodeHeaders(e.Response?, Line(e), e.headers).value).value,
                BodyBytes(e.contentLength, e.body).value + t))
  {
    FramedRoundTripBefore(e.Response?, Line(e), e.headers, MaxHeadersSize(conn), MaxHeadersSize(readConn),
      BodyBytes(e.contentLength, e.body).value, t);
  }

  /**
   * Request round trip: what write_entity_to_transport wrote for a request is
   * read back by read_entity_from_transport as the same request line (absent
   * fields as ""), the same declared length, the receiving connection's
   * environment, every header under its lower-cased name with the values given
   * under it, and the body reader the length calls for, positioned at the body.
   */
  lemma RequestRoundTrip(e: Entity<Source>, conn: Connection, readConn: Connection, t: seq<byte>, k: string)
    requires e.Request?
    requires WriteEntity(true, e, conn).Ok?
    requires INT48_MIN <= e.contentLength <= INT48_MAX
    requires |EncodeHeaders(false, Line(e), e.headers).value| <= EffectiveMaxHeadersSize(MaxHeadersSize(readConn))
    ensures ReadEntity(false, true, WriteEntity(true, e, conn).value + t, readConn).Ok?
    ensures ReadEntity(false, true, WriteEntity(true, e, conn).value + t, readConn).value.0
         == Request(Some(e.httpMethod.GetOr("")), Some(e.target.GetOr("")), Some(e.httpVersion.GetOr("")), e.contentLength,
                    ReadEntity(false, true, WriteEntity(true, e, conn).value + t, readConn).value.0.headers,
                    BodyFraming(e.contentLength), readConn.environment)
    ensures Lookup(ReadEntity(false, true, WriteEntity(true, e, conn).value + t, readConn).value.0.headers, k).Some? <==> Gives(e.headers, k)
    ensures Lookup(ReadEntity(false, true, WriteEntity(true, e, conn).value + t, readConn).value.0.headers, k).GetOr([]) == GivenValuesFor(e.headers, k)
    ensures ReadEntity(false, true, WriteEntity(true, e, conn).value + t, readConn).value.1 == BodyBytes(e.contentLength, e.body).value + t
  {
    SectionReadsBack(e, conn, readConn, t);
    HeadersRoundTrip(false, Line(e), e.headers, k);
    LineReadsBack(e);
    FieldTextReadsBack(e.contentLength);
    var line := LineTexts(Line(e));
    assert line[0] == LineTexts(Line(e))[..3][0];
    assert line[1] == LineTexts(Line(e))[..3][1];
    assert line[2] == LineTexts(Line(e))[..3][2];
  }

  /**
   * Request body round trip: the body reader of the request read back yields the
   * written body's bytes, for a chunked body under any fragmentation and for a
   * raw body holding its declared length, and leaves what followed.
   */
  lemma RequestBodyRoundTrip(e: Entity<Source>, conn: Connection, readConn: Connection, t: seq<byte>)
    requires e.Request? && e.body.Some? && e.contentLength != 0
    requires WriteEntity(true, e, conn).Ok?
    requires INT48_MIN <= e.contentLength <= INT48_MAX
    requires e.contentLength > 0 ==> |Contents(e.body.value)| == e.contentLength
    requires |EncodeHeaders(false, Line(e), e.headers).value| <= EffectiveMaxHeadersSize(MaxHeadersSize(readConn))
    ensures ReadEntity(false, true, WriteEntity(true, e, conn).value + t, readConn).Ok?
    ensures ReadEntity(false, true, WriteEntity(true, e, conn).value + t, readConn).value.0.body.Some?
    ensures ReadBody(ReadEntity(false, true, WriteEntity(true, e, conn).value + t, readConn).value.0.body.value,
                     ReadEntity(false, true, WriteEntity(true, e, conn).value + t, readConn).value.1)
         == Ok((Contents(e.body.value), t))
  {
    RequestRoundTrip(e, conn, readConn, t, "");
    if e.contentLength < 0 {
      WrittenPiecesFit(e.contentLength, e.body.value);
    }
    WrittenBodyReadsBack(e.contentLength, e.body.value, t);
  }

  /** A chunked body part that could be written has no fragment too long for a record. */
  lemma WrittenPiecesFit(contentLength: int, src: Source)
    requires contentLength <= 0 && BodyBytes(contentLength, Some(src)).Ok?
    ensures forall i :: 0 <= i < |src.pieces| ==> |src.pieces[i]| <= INT32_MAX
  {
    assert EncodeChunks(TAG_FOR_QUASI_HTTP_BODY_CHUNK, src.pieces).Ok?;
  }

  /**
   * Response round trip: the status line, status code (an int32) and declared
   * length are read back, the headers as for requests, and the body reader is the
   * one the length calls for, held to the reading connection's response size limit.
   */
  lemma ResponseRoundTrip(e: Entity<Source>, conn: Connection, readConn: Connection, t: seq<byte>, k: string)
    requires e.Response?
    requires WriteEntity(true, e, conn).Ok?
    requires INT48_MIN <= e.contentLength <= INT48_MAX && IsInt32(e.statusCode)
    requires |EncodeHeaders(true, Line(e), e.headers).value| <= EffectiveMaxHeadersSize(MaxHeadersSize(readConn))
    ensures ReadEntity(true, true, WriteEntity(true, e, conn).value + t, readConn).Ok?
    ensures ReadEntity(true, true, WriteEntity(true, e, conn).value + t, readConn).value.0
         == Response(Some(e.httpVersion.GetOr("")), e.statusCode, Some(e.httpStatusMessage.GetOr("")), e.contentLength,
                     ReadEntity(true, true, WriteEntity(true, e, conn).value + t, readConn).value.0.headers,
                     ResponseBody(BodyFraming(e.contentLength), readConn.processingOptions))
    ensures Lookup(ReadEntity(true, true, WriteEntity(true, e, conn).value + t, readConn).value.0.headers, k).Some? <==> Gives(e.headers, k)
    ensures Lookup(ReadEntity(true, true, WriteEntity(true, e, conn).value + t, readConn).value.0.headers, k).GetOr([]) == GivenValuesFor(e.headers, k)
    ensures ReadEntity(true, true, WriteEntity(true, e, conn).value + t, readConn).value.1 == BodyBytes(e.contentLength, e.body).value + t
  {
    SectionReadsBack(e, conn, readConn, t);
    HeadersRoundTrip(true, Line(e), e.headers, k);
    LineReadsBack(e);
    FieldTextReadsBack(e.contentLength);
    ParseInt32RoundTrip(e.statusCode);
    var line := LineTexts(Line(e));
    assert line[0] == line[..3][0];
    assert line[1] == line[..3][1];
    assert line[2] == line[..3][2];
  }

  // ---------------------------------------------------------------- properties: errors

  /** Missing streams are missing-dependency errors, raised before anything else. */
  lemma MissingStreams(isResponse: bool, e: Entity<Source>, s: seq<byte>, conn: Connection)
    ensures WriteEntity(false, e, conn) == Err(MissingDependency(NO_WRITABLE_STREAM))
    ensures ReadEntity(isResponse, false, s, conn) == Err(MissingDependency(NO_READABLE_STREAM))
  {
  }

  /**
   * A header section whose length field does not parse is a protocol violation
   * naming the entity, with the parse error as its cause; for a response it is
   * reported before the status code is looked at.
   */
  lemma ReadEntityRejectsLength(isResponse: bool, s: seq<byte>, conn: Connection)
    requires ReadHeaders(isResponse, s, MaxHeadersSize(conn)).Ok?
    requires ParseInt48(ReadHeaders(isResponse, s, MaxHeadersSize(conn)).value.0.0[3]).Err?
    ensures ReadEntity(isResponse, true, s, conn)
         == Err(QuasiHttp(ProtocolViolation, if isResponse then BAD_RESPONSE_CONTENT_LENGTH else BAD_REQUEST_CONTENT_LENGTH,
                          Some(ParseInt48(ReadHeaders(isResponse, s, MaxHeadersSize(conn)).value.0.0[3]).error)))
  {
  }

  /** A response whose length parses but whose status code does not is the status-code violation. */
  lemma ReadEntityRejectsStatusCode(s: seq<byte>, conn: Connection)
    requires ReadHeaders(true, s, MaxHeadersSize(conn)).Ok?
    requires ParseInt48(ReadHeaders(true, s, MaxHeadersSize(conn)).value.0.0[3]).Ok?
    requires ParseInt32(ReadHeaders(true, s, MaxHeadersSize(conn)).value.0.0[1]).Err?
    ensures ReadEntity(true, true, s, conn)
         == Err(QuasiHttp(ProtocolViolation, BAD_STATUS_CODE, Some(ParseInt32(ReadHeaders(true, s, MaxHeadersSize(conn)).value.0.0[1]).error)))
  {
  }

  /** A header-section failure is passed on unchanged. */
  lemma ReadEntityPassesHeaderErrors(isResponse: bool, s: seq<byte>, conn: Connection)
    requires ReadHeaders(isResponse, s, MaxHeadersSize(conn)).Err?
    ensures ReadEntity(isResponse, true, s, conn) == Err(ReadHeaders(isResponse, s, MaxHeadersSize(conn)).error)
  {
  }
}
