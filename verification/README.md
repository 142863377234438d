# Quasi-HTTP wire codec and standard client, in Dafny

This project models the core of kabomu, a Python library for quasi-HTTP, which
is HTTP's request/response semantics carried over any ordered byte stream. It
covers two parts of the library.

**The wire codec** (`kabomu/protocol_utils_internal.py`) reads and writes an
entity, meaning a request or a response:

- The header section is a CSV document. Its first row is the four-field request
  or status line. Each later row is meant to be a header name followed by that
  header's values; the code as written leaves the name out (see Findings), and
  the model uses the corrected rows.
- The header section goes out as one tag-length-value record whose size is
  capped.
- The body follows the header section:
  - raw, when the declared content length is positive;
  - as a sequence of tag-length-value chunk records, when it is negative, and
    also when it is zero and a body is given to the writer;
  - absent on reading, when it is zero.
- On the reading side, a response body is wrapped in a length cap.

**The client** (`kabomu/StandardQuasiHttpClient.py`) allocates a connection and
establishes it. It obtains the request, writes it, reads the response and
releases the connection, all through the transport. Failures are classified
into quasi-HTTP errors.

The codec depends on helper layers: big-endian 32-bit integers, decimal parsing,
tag-length-value records, the content-length and max-length body guards,
stream reading and copying, and the option-merge rules. The source of these
layers is not part of this model. Each one is modelled from the behaviour its
test files fix.

Modules, in dependency order:

- `Wrappers` (wrappers.dfy): the `Option` and `Result` types.
- `Errors` (errors.dfy): the error taxonomy of kabomu/errors.py.
- `Bytes` (bytes.dfy): the byte type, big-endian 32-bit integers, ASCII strings and bytes.
- `Numbers` (numbers.dfy): decimal text, and parse_int_48 and parse_int_32.
- `Streams` (streams.dfy): a readable stream as a sequence of non-empty fragments.
  - `ReceiveSome` models one receive call.
  - `ReadBytesFully` and `Copy` are loop methods.
- `Tlv` (tlv.dfy): tag and length encoding, the chunked body encoder, and the chunk decoder.
- `Guards` (guards.dfy): the content-length and max-length enforcing streams, one read at a time, and their drain loops.
- `Csv` (csv.dfy): the CSV writer and reader, as used for header sections.
- `Headers` (headers.dfy): header-section validation, encoding, decoding with header merging, and the framed write and read with the size cap.
- `Options` (options.dfy): the processing-option rules and their merge.
- `Timeout` (timeout.dfy): run_timeout_scheduler and wrap_timeout_task.
- `Entity` (entity.dfy): write_entity_to_transport and read_entity_from_transport.
- `Client` (client.dfy): send, send2, _send_internal, _process_send and _abort.

How the byte streams are modelled:

- A transport stream is the sequence of bytes written to it, or still to be read from it.
- A read entity's body is a `BodyReader`. This is the stack of guards the reader would wrap around the stream, and `Entity.ReadBody` drains it.
- The client's transport is an oracle. It records what each transport operation returns or raises for one exchange.
- A send yields a trace of the events it causes, together with its result.

Each codec layer is paired with a partner and a lemma over all inputs:

- the decoder, for a round trip;
- a flat reference definition, for the loop methods;
- the event order and the release count, for the client.

## Model

| member | source | states |
|---|---|---|
| Bytes.SerializeInt32BE | tests/test_misc_utils_internal.py:7-17 | Serialization succeeds exactly for 32-bit signed values. It gives 4 bytes whose big-endian unsigned value is the two's-complement encoding of the input, and the top bit is the sign. |
| Bytes.DeserializeInt32BE | tests/test_misc_utils_internal.py:19-37 | Deserialization succeeds exactly when 4 bytes are available at the offset. The result is a 32-bit value that is negative exactly when the first byte's top bit is set, and whose two's-complement bytes are the ones read. |
| Bytes.SerializeDeserialize | tests/test_misc_utils_internal.py:7-37 | Every 32-bit value serialized in the middle of any byte sequence deserializes back to itself at its offset. |
| Bytes.DeserializeSerialize | tests/test_misc_utils_internal.py:7-37 | Every 4 bytes deserialize, and re-serializing the result gives the same 4 bytes back. |
| Bytes.AsciiRoundTrip | tests/test_misc_utils_internal.py:118-156 | An ASCII string converted to bytes and back is unchanged. |
| Numbers.ParseInt48RoundTrip | tests/test_misc_utils_internal.py:39-67 | parse_int_48 reads back the decimal text of every value in the signed 48-bit range. It refuses the decimal text of every value outside that range. |
| Numbers.ParseInt32RoundTrip | tests/test_misc_utils_internal.py:69-98 | parse_int_32 reads back exactly the decimal text of values in the signed 32-bit range. |
| Numbers.ParseRejectsNonNumeric | tests/test_misc_utils_internal.py:59-67 | Text holding any character that is not a digit, a minus sign or white space is not a number. Both parsers refuse it. |
| Streams.ReceiveSome | tests/test_io_utils_internal.py:9-38 | One receive returns at most the asked-for count of bytes. It returns nothing only at the end of the stream, and what it returns followed by what remains is the original contents. |
| Streams.ReadBytesFully | tests/test_io_utils_internal.py:9-58 | Reading n bytes fully returns exactly the first n bytes of the stream and leaves the rest unread. It fails with the end-of-read error exactly when fewer than n bytes are there. |
| Streams.Copy | tests/test_io_utils_internal.py:60-74 | A copy writes non-empty fragments that concatenate to exactly the source's contents. |
| Tlv.EncodeTagAndLength | tests/tlv/test_tlv_utils.py:8-29 | Encoding succeeds exactly for a positive 32-bit tag and a non-negative 32-bit length. It gives 8 bytes from which the tag and the length decode back. |
| Tlv.DecodeTag | tests/tlv/test_tlv_utils.py:31-49 | A decoded tag is the big-endian 32-bit value at the offset. It succeeds exactly when that value is positive. |
| Tlv.DecodeLength | tests/tlv/test_tlv_utils.py:51-68 | A decoded length is the big-endian 32-bit value at the offset. It succeeds exactly when that value is not negative. |
| Tlv.EncodeChunks | tests/tlv/test_tlv_utils.py:70-93 | Chunk encoding of a body succeeds exactly when the tag is valid and every fragment fits a 32-bit length. |
| Tlv.ChunkRoundTrip | tests/tlv/test_tlv_utils.py:95-123 | The chunk records of any fragmented body, followed by any bytes, decode to the whole body. The bytes after the end record are left unread. |
| Tlv.DecodeChunked | tests/tlv/test_BodyChunkDecodingStreamInternal.py:60-105 | Reading one chunk record consumes a prefix of the input and leaves the rest as a suffix of it; at least its 8-byte prefix is consumed. Its partner is `Tlv.ChunkRoundTrip`, which reads back what `Tlv.EncodeChunks` writes. |
| Tlv.SkipsOneIgnoredRecord | tests/tlv/test_BodyChunkDecodingStreamInternal.py:9-71 | One record with the ignorable tag is skipped, payload and all, before the expected record. |
| Tlv.TwoIgnoredRecordsFail | tests/tlv/test_BodyChunkDecodingStreamInternal.py:73-118 | Two ignorable records in a row are refused: the second one's tag is reported as unexpected. |
| Tlv.UnknownTagFails | tests/tlv/test_BodyChunkDecodingStreamInternal.py:73-118 | A record whose tag is neither the expected nor the ignorable one is refused with an unexpected-tag error. |
| Tlv.TruncatedPayloadFails | tests/tlv/test_BodyChunkDecodingStreamInternal.py:73-118 | A record whose payload is shorter than its declared length fails with the end-of-read error. |
| Tlv.ZeroTagFails | tests/tlv/test_BodyChunkDecodingStreamInternal.py:73-118 | A zero tag is refused as an invalid tag. |
| Tlv.NegativeLengthFails | tests/tlv/test_BodyChunkDecodingStreamInternal.py:73-118 | A negative record length is refused as an invalid length. |
| Guards.ExactRead | tests/tlv/test_ContentLengthEnforcingStreamInternal.py:10-73 | One read of the content-length guard never delivers more than is still owed or asked for. It fails exactly when bytes are owed but the stream has ended. It delivers nothing exactly when nothing is asked for or nothing is owed. |
| Guards.ExactReadAll | tests/tlv/test_ContentLengthEnforcingStreamInternal.py:10-54 | Draining the content-length guard under any fragmentation yields exactly the first n bytes, or the end-of-read error when fewer are there. The bytes after them stay unread. |
| Guards.ExactIsPrefix | tests/tlv/test_ContentLengthEnforcingStreamInternal.py:10-54 | A content-length drain succeeds exactly when n bytes are there, and gives the prefix of length n. It agrees with reading n bytes fully. |
| Guards.CappedRead | tests/tlv/test_MaxLengthEnforcingStreamInternal.py:10-77 | One read of the max-length guard passes the next fragment through unchanged. It fails exactly when an enforced cap would be passed. |
| Guards.CappedReadAll | tests/tlv/test_MaxLengthEnforcingStreamInternal.py:10-59 | Draining the max-length guard under any fragmentation yields the whole stream when it is within an enforced cap (equality included) or when no cap is enforced. Otherwise it fails with the limit error. |
| Guards.CappedIsIdentity | tests/tlv/test_MaxLengthEnforcingStreamInternal.py:10-59 | A capped drain succeeds exactly when no cap is enforced or the stream fits the cap, and then it returns the stream unchanged. |
| Csv.RoundTrip | kabomu/protocol_utils_internal.py:68-72 | Any list of rows written as CSV reads back as the same rows. |
| Csv.Encode | kabomu/protocol_utils_internal.py:68-72 | The written document is empty exactly when there are no rows. Otherwise it ends with a line feed, and it starts with a quote, or with a line feed when the first row has no fields. Its partner is `Csv.RoundTrip`. |
| Csv.EncodeInjective | kabomu/protocol_utils_internal.py:68-72 | Different row lists are written as different CSV text. |
| Csv.PlainDocumentRead | kabomu/protocol_utils_internal.py:77-82 | A single row of unquoted fields with no line end reads as that one row. |
| Csv.UnterminatedQuoteFails | kabomu/protocol_utils_internal.py:77-88 | A field that opens a quote and never closes it is a read error. |
| Csv.QuoteInUnquotedFieldFails | kabomu/protocol_utils_internal.py:77-88 | A quote that follows unquoted field text is refused by the reader, whatever comes after it. |
| Csv.Parse | kabomu/protocol_utils_internal.py:77-82 | Empty text reads as no rows, and non-empty text that reads at all gives at least one row. Its partners are `Csv.RoundTrip` and `Csv.PlainLinesRead`, which read back written documents. |
| Headers.Validate | tests/test_StandardQuasiHttpClientServer.py:145-204 | A section passes exactly when its line and header rows meet the character rules. A bad line field is reported first, with the request-line or status-line message. Every failure is a protocol violation. |
| Headers.HeaderRows | kabomu/protocol_utils_internal.py:51-64 | Corrected rows: each header with values gives one row, its name followed by its values. The rows are built exactly when no header has an empty name or an empty value. Every row carries a name and at least one value. Any failure is a protocol violation. |
| Headers.HeaderRowsAsWritten | kabomu/protocol_utils_internal.py:51-64 | As written, each row holds the header's values only: it is the corrected row without its name. It fails exactly when the corrected rows fail. |
| Headers.EncodeSection | kabomu/protocol_utils_internal.py:66-72 | A section is written exactly when it passes validation, and its bytes read back as the same rows. |
| Headers.EncodeHeadersAsWritten | kabomu/protocol_utils_internal.py:42-72 | As written, an encoded section reads back as the line's texts followed by the name-less header rows. A missing line is an illegal argument. |
| Headers.SingleValueHeaderLostAsWritten | kabomu/protocol_utils_internal.py:58-64 | As written, a header with one value decodes to an empty header map, because its one-field row is skipped. The corrected encoder brings the value back under the lower-cased name. |
| Headers.EncodeHeaders | kabomu/protocol_utils_internal.py:42-72 | A missing line is an illegal argument. Encoding succeeds exactly when the rows are built and valid. The bytes are the CSV document of those rows. |
| Headers.DecodeHeaders | kabomu/protocol_utils_internal.py:74-110 | Decoding succeeds exactly when the text parses as CSV into at least one row whose first row has four or more fields. The decoded line is that first row. Every failure is a protocol violation. |
| Headers.DecodedLookup | kabomu/protocol_utils_internal.py:100-109 | In a decoded map, a lower-cased name is present exactly when some row after the line with two or more fields carries it. Its values are those rows' values, in row order. |
| Headers.DecodeRequestVector | tests/test_protocol_utils_internal.py:347-357 | The unquoted request section "GET,/home/index?q=results,HTTP/1.1,-1" then "Content-Type,text/plain" decodes to that line and the single header content-type with value text/plain. |
| Csv.PlainLinesRead | kabomu/protocol_utils_internal.py:77-88 | Rows of unquoted fields, each ended by a line feed, read back as those rows. |
| Headers.HeadersRoundTrip | kabomu/protocol_utils_internal.py:42-110 | An encoded section decodes to the written line's texts. Each name is looked up case-insensitively. It is present exactly when some header with a non-empty list lowercases to it, and its values are all those headers' values in order. |
| Headers.MergeLookup | kabomu/protocol_utils_internal.py:100-109 | Merging rows into a header map gives each lowercased name the values it had followed by the values of every row naming it. A name is present exactly when it was before or some row of two or more fields names it. |
| Headers.MergeWellFormed | kabomu/protocol_utils_internal.py:100-109 | A merged header map keeps its names unique and lower-case. |
| Headers.ExtendUnique | kabomu/protocol_utils_internal.py:106-109 | Adding values under a name keeps names unique, and introduces no name other than the one given. |
| Headers.EncodeRejects | kabomu/protocol_utils_internal.py:44-62 | Encoding refuses an empty line with the illegal-argument error. Once a line is given, it refuses a header with an empty name or an empty value with a protocol violation. |
| Headers.DecodeRejects | kabomu/protocol_utils_internal.py:83-99 | Unreadable CSV and an empty section are invalid headers. A first row of fewer than four fields is an invalid request or status line. |
| Headers.EffectiveMaxHeadersSize | kabomu/protocol_utils_internal.py:117-118 | The header cap is the configured one when positive, and the default otherwise. |
| Headers.WriteHeadersShape | kabomu/protocol_utils_internal.py:112-130 | A section within the cap is written as its tag and length followed by the encoded bytes. |
| Headers.WriteHeadersLimit | kabomu/protocol_utils_internal.py:121-124 | A section over the cap is refused with the length-limit error. |
| Headers.WriteHeaders | kabomu/protocol_utils_internal.py:112-130 | Writing a section succeeds exactly when it encodes, fits the cap and fits in 32 bits. The output is then the "hdrs" prefix for the encoded length, followed by the encoded section. A section over the cap gives the size-exceeded error, and an encoding error is passed on. Its partner is `Headers.FramedRoundTrip`. |
| Headers.ReadRejectsOtherTag | kabomu/protocol_utils_internal.py:135-140 | A record whose tag is not the headers tag is a protocol violation. |
| Headers.ReadRejectsOversize | kabomu/protocol_utils_internal.py:142-149 | A declared size over the effective cap is refused with the length-limit error, before any payload is read. |
| Headers.ReadHeaders | kabomu/protocol_utils_internal.py:132-153 | A read section had the headers tag; any other valid tag is a protocol violation. The consumed payload is no longer than the cap and decodes to the returned section. The unread bytes are a suffix of the input after at least the 8-byte prefix. Its partner is `Headers.FramedRoundTrip`. |
| Headers.FramedRoundTrip | kabomu/protocol_utils_internal.py:112-153 | A framed section written under one cap reads back under any cap it fits. The line, the looked-up values and the bytes after the section are all preserved. |
| Headers.FieldTextReadsBack | kabomu/protocol_utils_internal.py:48-49 | Every content length in the 48-bit range, zero included, is written as text that parses back to it. |
| Headers.ZeroLengthUnreadableAsWritten | kabomu/protocol_utils_internal.py:48-49 | As written, only the number 0 is written differently, as the empty string, and it then does not parse. |
| Options.OptionInt32 | tests/tlv/test_quasi_http_utils.py:93-156 | An integer option is accepted exactly when it is in 32-bit range. A text option is parsed. Anything else is refused. |
| Options.NonZeroOptionChoice | tests/tlv/test_quasi_http_utils.py:93-123 | The preferred value wins when it is a non-zero int32. Otherwise the fallback wins when it is one. Otherwise the default is used. A set preferred value that is not an int32 is an error. |
| Options.PositiveOptionChoice | tests/tlv/test_quasi_http_utils.py:125-156 | The same rule with positive in place of non-zero: a preferred or fallback value that is not positive counts as absent. A result that is not positive can only be the default, taken as it is. |
| Options.EffectiveParams | tests/tlv/test_quasi_http_utils.py:158-199 | The merged parameters have the keys of both maps, and each key takes the preferred map's value when it has one. |
| Options.MergeWithAbsent | tests/tlv/test_quasi_http_utils.py:30-49 | Merging with an absent side gives the other side unchanged. |
| Options.MergeProcessingOptions | tests/tlv/test_quasi_http_utils.py:30-91 | An absent side gives the other side unchanged. Two present sets with int32 fields merge to: the united parameters; the first positive header size, else 0; the first non-zero body size and timeout, else 0. A merge fails only when some field is out of int32 range. |
| Options.LiftedPositive | tests/tlv/test_quasi_http_utils.py:125-156 | The positive rule on two int32 fields with default 0 gives the first positive one, or 0. It fails only on a field out of range. |
| Options.LiftedNonZero | tests/tlv/test_quasi_http_utils.py:93-123 | The non-zero rule on two int32 fields with default 0 gives the first non-zero one, or 0. It fails only on a field out of range. |
| Timeout.Classify | kabomu/protocol_utils_internal.py:23-37 | Corrected check: a reported error is raised unchanged. A result is returned only when there is no error and no timeout, and then it is the reported response. A client never gets an absent response. |
| Timeout.ClassifyAsWritten | kabomu/protocol_utils_internal.py:23-37 | As written, a client-side response that is present but false in Python is refused as "no response". Whatever it returns, the corrected check returns too. |
| Timeout.FalsyResponseRefusedAsWritten | tests/test_protocol_utils_internal.py:70-80 | A client-side scheduler that reports a present but false response (the test's empty dict) fails as written with "no response", and the corrected check returns that response. |
| Timeout.SchedulerClassification | kabomu/protocol_utils_internal.py:23-37 | Exactly one outcome applies, in this priority: a reported error, a timeout with the side's message, a client's missing response as a general error, or the response. |
| Timeout.RunTimeoutScheduler | kabomu/protocol_utils_internal.py:23-37 | A reported error is raised unchanged. Otherwise a timeout raises "send timeout" on the client and "receive timeout" on the server. Otherwise a client without a response gets "no response from timeout scheduler". The result is Ok exactly when none of these applies, and it is then the reported response. Its partner is `Timeout.SchedulerClassification`. |
| Timeout.WrapTimeoutTask | kabomu/protocol_utils_internal.py:17-21 | A raising timeout task passes its error on. One that reports a timeout raises the timeout error. Completion is returned exactly when the timeout task reports no timeout. |
| Timeout.WrapTimeoutTaskAsWritten | kabomu/protocol_utils_internal.py:17-21 | As written, wrap_timeout_task behaves like the corrected one except that a timeout carries the spelling "receive_timeout" on the server side. |
| Timeout.ServerTimeoutMessageAsWritten | kabomu/protocol_utils_internal.py:17-37 | As written, a server-side timeout in run_timeout_scheduler and in wrap_timeout_task carries a message other than "receive timeout". The corrected versions report "receive timeout". |
| Timeout.AsWrittenAgreesElsewhere | kabomu/protocol_utils_internal.py:23-37 | The code as written and the corrected version agree on every outcome except a server-side timeout. |
| Entity.WriteEntity | kabomu/protocol_utils_internal.py:155-210 | A missing writable stream is an error. Writing succeeds exactly when the header section can be written under the connection's cap and the body can be framed. The output is the framed section followed by the framed body. |
| Entity.BodyBytes | kabomu/protocol_utils_internal.py:199-210 | No body writes nothing. With a positive length the body is copied raw, whatever its size. Otherwise it is chunk-encoded, even for length 0. |
| Entity.BodyFraming | kabomu/protocol_utils_internal.py:233-241 | A read body is absent exactly for content length 0. A positive length reads exactly that many bytes, and a negative one decodes chunk records. |
| Entity.ReadBody | kabomu/protocol_utils_internal.py:233-241 | An exact reader takes that many bytes, and a chunked reader decodes body chunks while skipping extension records. The remaining bytes are always a suffix of the input. |
| Entity.ContentLength | kabomu/protocol_utils_internal.py:225-232 | The content length is the 48-bit parse of the line's fourth field. A failure is a protocol violation naming the request or the response, with the parse error as cause. |
| Entity.StatusCode | kabomu/protocol_utils_internal.py:245-252 | The status code is the 32-bit parse of the line's second field. A failure is a protocol violation with the parse error as cause. |
| Entity.ResponseBody | kabomu/protocol_utils_internal.py:256-263 | A response body is capped whenever options exist and their body limit is not negative. Otherwise it is left as read. |
| Entity.ResponseBodyIsCapped | kabomu/protocol_utils_internal.py:256-263 | Reading a response body gives what the inner reader gives. It fails with the limit error when that exceeds an enforced positive limit. |
| Entity.WrittenBodyReadsBack | kabomu/protocol_utils_internal.py:199-241 | A body written under a non-zero content length (positive and matching the body, or negative) is read back whole by the framing that length selects. The bytes after it stay unread. |
| Entity.ShortRawBodyOverreads | kabomu/protocol_utils_internal.py:202-236 | A raw body shorter than its declared length is completed from the bytes that follow it. The framing does not detect the mismatch. |
| Entity.RequestRoundTrip | kabomu/protocol_utils_internal.py:155-276 | A written request reads back with the same method, target, version and content length. Header lookups give the written values, and the body bytes follow the section unread. |
| Entity.RequestBodyRoundTrip | kabomu/protocol_utils_internal.py:199-276 | A written request with a body and a non-zero length reads back with a body whose drain is the original contents. |
| Entity.ResponseRoundTrip | kabomu/protocol_utils_internal.py:155-265 | A written response reads back with the same version, status code, status message, content length and header values. The body bytes follow unread. |
| Entity.MissingStreams | kabomu/protocol_utils_internal.py:158-215 | Without a writable or readable stream, writing or reading fails with the missing-dependency error. |
| Entity.ReadEntityRejectsLength | kabomu/protocol_utils_internal.py:225-232 | An unparseable content length makes the read fail with the content-length protocol violation. |
| Entity.ReadEntityRejectsStatusCode | kabomu/protocol_utils_internal.py:245-252 | An unparseable status code makes a response read fail with the status-code protocol violation. |
| Entity.ReadEntityPassesHeaderErrors | kabomu/protocol_utils_internal.py:221-223 | A failure to read the header section is the read's failure, unchanged. |
| Entity.ReadEntity | kabomu/protocol_utils_internal.py:212-276 | Reading without a source stream is a missing-dependency error. A read entity is a response exactly when one was asked for, and the bytes after it are those after its header section. Its partners are `Entity.RequestRoundTrip` and `Entity.ResponseRoundTrip`. |
| Entity.UnboundBodyAsWritten | kabomu/protocol_utils_internal.py:233-275 | As written, content length 0 leaves the body unbound and the read fails. Every other length agrees with the corrected framing. |
| Client.Send | kabomu/StandardQuasiHttpClient.py:13-17 | A null request is a ValueError that causes no event. Otherwise the send is the internal send with the entity codec. |
| Client.Send2 | kabomu/StandardQuasiHttpClient.py:19-23 | A null request function is a ValueError that causes no event. Otherwise the send is the internal send with no request. |
| Client.Classify | kabomu/StandardQuasiHttpClient.py:62-72 | A failed send always raises a quasi-HTTP error. Such an error passes unchanged, and any other error is wrapped as a general one with the original as cause. |
| Client.ObtainRequest | kabomu/StandardQuasiHttpClient.py:78-82 | A given request is used without an event. Otherwise the request function is called once, with the connection's environment. |
| Client.ProcessSend | kabomu/StandardQuasiHttpClient.py:74-109 | The procedure starts by establishing the connection. A failure to establish ends it there with that error. It never releases the connection. A response it returns is the one the receive step produced. Its partner is `Client.ProcessSendShape`. |
| Client.ProcessSendShape | kabomu/StandardQuasiHttpClient.py:74-109 | The procedure's events are in protocol order: establish, then generate, then serialize or write, then deserialize or read. It causes no release, and its first event is the establishment. |
| Client.SendOrdered | kabomu/StandardQuasiHttpClient.py:25-121 | Every send causes its events in protocol order: allocate, establish, generate, serialize or write, deserialize or read, release. A send that causes any event starts with the allocation. |
| Client.ReleaseAccounting | kabomu/StandardQuasiHttpClient.py:36-121 | A successful send releases the connection exactly once, last, with the response. A failed send that releases ends with a release without response. Two releases happen only when the success release itself failed. A connection is released exactly when one was allocated. |
| Client.SendInternal | kabomu/StandardQuasiHttpClient.py:25-72 | Without a transport the send fails with the missing-dependency error and no event. With one, the trace starts with the allocation, and every failure is a quasi-HTTP error. A trace that goes past the allocation had a connection and ends with a release. Its partners are `Client.SendOrdered` and `Client.ReleaseAccounting`. |
| Client.Conclude | kabomu/StandardQuasiHttpClient.py:36-72 | Ending a send on an allocated connection keeps the procedure's events after the allocation and ends with one or two releases. It succeeds exactly when the procedure and the success release both did, returning the procedure's reply. When the procedure failed, the error is its error classified, and every failure is a quasi-HTTP error. Its partner is `Client.ConcludeReleases`. |
| Client.ReleaseTail | kabomu/StandardQuasiHttpClient.py:111-121 | The releases after the procedure number one or two. The first carries the response exactly when the procedure succeeded. The last is without a response exactly when the procedure or the success release failed. Two happen exactly when the success release failed. Its partner is `Client.ConcludeReleases`. |
| Client.ConcludeReleases | kabomu/StandardQuasiHttpClient.py:36-121 | After a procedure that causes no release, a successful end releases exactly once, last, with the response. A failed end finishes with a release without response. There are one or two releases, and two only when the success release failed. |
| Client.FailureReleaseSwallowed | kabomu/StandardQuasiHttpClient.py:111-118 | Whatever the failure-path release raises has no effect on the send. |
| Client.ErrorsAreQuasiHttp | kabomu/StandardQuasiHttpClient.py:31-72 | Once a transport exists, every failure is a quasi-HTTP error. The trace is empty exactly when there is no transport. |
| Client.NoTransport | kabomu/StandardQuasiHttpClient.py:31-34 | Without a transport, the send fails with the missing-dependency error before any event. |
| Client.NoConnection | kabomu/StandardQuasiHttpClient.py:38-41 | An allocation that gives no connection fails with "no connection" and releases nothing. |
| Client.EstablishFailure | kabomu/StandardQuasiHttpClient.py:60-76 | A failed establishment releases the connection and raises the failure, wrapped unless it is already a quasi-HTTP error. |
| Client.NoRequest | kabomu/StandardQuasiHttpClient.py:78-82 | A request function that gives nothing fails the send with "no request". The function is consulted exactly once, and the connection is then released without a response. |
| Client.GeneratorSeesEnvironment | kabomu/StandardQuasiHttpClient.py:78-80 | When a request is generated, the request function receives the allocated connection's environment. A given request is never generated. |
| Client.SerializerSkipsWrite | kabomu/StandardQuasiHttpClient.py:86-95 | A request serializer that reports success replaces the generic write. |
| Client.GenericWrite | kabomu/StandardQuasiHttpClient.py:86-95 | Without a serializer, or when it declines, the request goes out through the codec's writer, and the written bytes are the codec's output. |
| Client.DeserializerResponse | kabomu/StandardQuasiHttpClient.py:97-101 | A response deserializer's response is returned without a release action. |
| Client.GenericRead | kabomu/StandardQuasiHttpClient.py:97-108 | Without a deserializer response, the codec's reader reads the response, and it carries a release action. |
| Client.PlainExchange | kabomu/StandardQuasiHttpClient.py:36-109 | A plain exchange over a transport with no hooks and no scheduler succeeds exactly when the codec writes the request and reads a response. Then its trace is allocate, establish, write, read, then release with the response. |
| Client.EntityCodecUsed | kabomu/StandardQuasiHttpClient.py:92-105 | The client writes requests and reads responses with the entity codec, and what it reads is a response. |
| Client.SchedulerTimeout | kabomu/StandardQuasiHttpClient.py:43-51 | A timed-out scheduler makes the send fail with the "send timeout" error, and the connection is released last. |
| Client.SchedulerTransparent | kabomu/StandardQuasiHttpClient.py:43-51 | A scheduler that lets the procedure complete leaves its trace and result unchanged. |
| Client.ScheduledProc | kabomu/StandardQuasiHttpClient.py:46-49 | The corrected procedure awaits the send: it causes the send's events, and succeeds exactly when the send does. |
| Client.ScheduledSendAsWritten | kabomu/StandardQuasiHttpClient.py:46-49 | As written, the scheduled procedure returns an un-awaited coroutine. No event of the send happens before the result, and the result is not a response. The corrected procedure establishes first and succeeds only with an awaited response. |

## Left out

- get_optional_attr (kabomu/protocol_utils_internal.py:278-283) calls `hasattr` and `getattr` as methods of the instance, which plain objects do not have. The model reads fields directly, as the library's callers expect.
- Header-section validation: validate_http_header_section has an empty body in kabomu/protocol_utils_internal.py:39-40, so as written every section passes. `Headers.Validate` follows the character rules that tests/test_StandardQuasiHttpClientServer.py:145-204 expect to be enforced.
- A header value given as a bare string, rather than a list, is iterated character by character in Python. The model takes value lists only.
- Csv: the writer modelled quotes every field and ends rows with a line feed. Python's csv.writer quotes minimally and ends rows with CR LF. Both are readable by the same reader, and the round trip is stated for the model's writer.
- Csv: Python's csv reader tolerates an unterminated quote and characters after a closing quote. The model refuses both. A bare CR outside quotes is also refused, and so is a quote inside an unquoted field (`a"b`), which Python's reader keeps as text; `Csv.QuoteInUnquotedFieldFails` states this refusal.
- Bytes and Headers.Lower: strings are ASCII, one byte per character. The UTF-8 encoding and decoding of string_to_bytes and bytes_to_string, and the error they raise on bytes that are not valid UTF-8, are not modelled. Headers.Lower lower-cases ASCII letters only, where Python's str.lower() folds every Unicode letter.
- Numbers: parse_int_48 and parse_int_32 are modelled as white-space stripping followed by an optional minus sign and decimal digits. A plus sign and digit-group underscores, which Python's int() accepts, are not modelled.
- Headers.DEFAULT_MAX_HEADERS_SIZE: quasi_http_utils.py, which defines it, is not part of this model. The model uses the value 8192.
- Options: quasi_http_utils.py is not part of this model. Option values are integers, text, or other objects. Floats and booleans are not modelled.
- Entity.ReadBody: a capped reader applies its cap to the inner reader's result. When both the inner framing and the cap would fail, the model reports the framing error, even where the source's reader might report the cap first, mid-stream.
- Entity: response release, the environment and the disposer of a read entity are not modelled beyond the request's environment.
- Streams and Guards: the model has no real time, no cancellation and no concurrency. A stream is a finite sequence of fragments.
- Timeout: a timeout scheduler's run is given as the record it returns. A returned record that is falsy in Python (an empty object) is modelled as a record with no fields set.
- Timeout.Classify: `if error:` and `get_optional_attr(result, "timeout")` test truthiness. The model reads them as presence and a flag, which agree for exception objects and booleans. The client-side `not response` check is modelled both ways (see Findings).
- Client: `if not response` after the deserializer (kabomu/StandardQuasiHttpClient.py:101) is modelled as a test for an absent response. A deserialized response object that Python counts false is not modelled.
- Entity.ResponseBody: an absent or zero max_response_body_size wraps the body in the max-length guard, as the source does. What the guard then enforces is decided in kabomu/tlv/tlv_utils.py, which is not part of this model. The model follows the guard's tests, where a cap of 0 or none lets every byte through. A process-wide default cap, if the library applies one there, is not modelled.
- Headers.EncodeHeadersAsWritten: the name-less rows are validated with the same character rules as the corrected ones, so the first value is checked as a header name. The source's validator is empty (see the validation line above), so as written a value such as text/plain would also pass.
- Client: the remote endpoint and send options passed to allocate_connection are not modelled. The oracle's answer stands for them.
- Client: the timeout_task branch of _send_internal (kabomu/StandardQuasiHttpClient.py:55-58) does nothing and is not modelled.
- Client.SchedulerTimeout: the deadline is modelled as cutting the send's trace after an arbitrary number of events, not at a time.
- Client.GenericRead: the release action attached to a generically read response is modelled as a flag, not as a callable that releases the connection.
- Client: a send that succeeds and whose success release raises makes the failure path release again, so two releases are possible. This is modelled as written and stated by `Client.ReleaseAccounting`.
- kabomu/tlv/tlv_utils.py, kabomu/misc_utils_internal.py, kabomu/io_utils_internal.py and kabomu/quasi_http_utils.py are not part of this model. Those layers are modelled from their test files.

## Findings

| source | as written | input that shows it | evidently intended | confidence | as-written member | corrected member |
|---|---|---|---|---|---|---|
| kabomu/protocol_utils_internal.py:48-49 | each line value is written `str(v) if v else ""`, so the number 0 becomes the empty string | an entity with content length 0 (or a response with status code 0): its line's fourth field is "", which parse_int_48 refuses on reading | a zero is written "0" and reads back as 0 | not executed | Headers.ZeroLengthUnreadableAsWritten | Headers.FieldTextReadsBack |
| kabomu/protocol_utils_internal.py:17-37 | the server-side timeout message is "receive_timeout", in both wrap_timeout_task and run_timeout_scheduler | a server-side wrap_timeout_task whose task returns True, or a server-side run_timeout_scheduler whose scheduler reports a timeout | "receive timeout", as the tests expect | not executed | Timeout.ServerTimeoutMessageAsWritten | Timeout.SchedulerClassification |
| kabomu/protocol_utils_internal.py:58-64 | each header row collects only the header's values, so the header name is never written | a header Accept with the one value gzip: its row is the single field gzip, which the decoder skips, so the header is lost | each row is the header name followed by its values | not executed | Headers.SingleValueHeaderLostAsWritten | Headers.HeadersRoundTrip |
| kabomu/protocol_utils_internal.py:34-36 | a client-side response is refused when it is false in Python (`not response`), not only when it is absent | a scheduler reporting the empty dict as the response, as the first run_timeout_scheduler test does: it is refused as "no response", while the test expects it back | only an absent response is refused | not executed | Timeout.FalsyResponseRefusedAsWritten | Timeout.Classify |
| kabomu/protocol_utils_internal.py:233-275 | `body` is assigned only when the content length is non-zero and is read unconditionally afterwards | reading any entity whose declared content length is 0 raises UnboundLocalError | the entity is read with no body | not executed | Entity.UnboundBodyAsWritten | Entity.BodyFraming |
| kabomu/StandardQuasiHttpClient.py:46-49 | the scheduled `proc` returns `_process_send(...)` without awaiting it | any connection with a timeout_scheduler: the scheduler's response is an un-awaited coroutine, so the request is never sent | `proc` awaits `_process_send` and returns the response | not executed | Client.ScheduledSendAsWritten | Client.ScheduledProc |
