/**
 * StandardQuasiHttpClient (kabomu/StandardQuasiHttpClient.py): send, send2,
 * _send_internal, _process_send and _abort.
 *
 * The transport is an oracle: a record of what each of its operations returns
 * (or raises) for this exchange. A send produces a trace of the events it causes
 * and its result. The generic request write and response read are the entity
 * codec itself, applied to the connection's streams.
 */
module Client {
  import opened Wrappers
  import opened Errors
  import opened Bytes
  import opened Streams
  import opened Entity
  import opened Timeout

  /** A request as the caller gives it: its body is a readable stream. */
  type RequestEntity = e: Entity<Source> | e.Request? witness Request(None, None, None, 0, [], None, None)

  /** A response read off a connection, or produced by a response deserializer. */
  type ResponseEntity = Entity<BodyReader>

  /** The response returned to the caller, and whether it carries the release action of a generically read response. */
  datatype Reply = Reply(response: ResponseEntity, releasable: bool)

  /** How a connection's timeout scheduler runs the send procedure. */
  datatype Scheduler =
      /** The procedure completes (or raises) before the deadline. */
    | Completes
      /** The deadline elapses after the procedure caused `steps` events; the rest is abandoned. */
    | TimesOutAfter(steps: nat)
      /** The scheduler runs the procedure but returns no outcome record. */
    | ReturnsNothing

  /** An allocated connection: what the codec reads from it, its scheduler, its streams, and the bytes the peer sends. */
  datatype Link = Link(connection: Connection, scheduler: Option<Scheduler>, writable: bool, readable: bool, incoming: seq<byte>)

  /**
   * The transport's behaviour for one exchange: what allocate_connection,
   * establish_connection, the optional serializer hooks and the two
   * release_connection calls return or raise.
   */
  datatype Transport = Transport(
    allocate: ErrorOr<Option<Link>>,
    establish: ErrorOr<()>,
    requestSerializer: Option<ErrorOr<bool>>,
    responseDeserializer: Option<ErrorOr<Option<ResponseEntity>>>,
    releaseOnSuccess: ErrorOr<()>,
    releaseOnFailure: ErrorOr<()>)

  /** send2's request_func: the request it generates from a connection's environment. */
  type RequestFunc = Option<Environment> -> ErrorOr<Option<RequestEntity>>

  datatype Event =
    | Allocated
    | Established
    | RequestGenerated(environment: Option<Environment>)
    | Serialized
    | Written(bytes: seq<byte>)
    | Deserialized
    | ResponseRead
    | Released(response: Option<ResponseEntity>)

  /**
   * The generic request writer and response reader: write_entity_to_transport
   * and read_entity_from_transport given whether the connection has the stream,
   * the entity (or the bytes to read) and the connection.
   */
  datatype Codec = Codec(
    write: (bool, RequestEntity, Connection) -> ErrorOr<seq<byte>>,
    read: (bool, seq<byte>, Connection) -> ErrorOr<(ResponseEntity, seq<byte>)>)

  /** The entity codec of protocol_utils_internal, for a request out and a response in. */
  const ENTITY_CODEC: Codec := Codec(
    (hasSink, e, conn) => WriteEntity(hasSink, e, conn),
    (hasSource, s, conn) => ReadEntity(true, hasSource, s, conn))

  /** A trace of events and the outcome they led to. */
  datatype Run<T> = Run(trace: seq<Event>, result: ErrorOr<T>)

  const REQUEST_NULL: string := "request argument is null"
  const REQUEST_FUNC_NULL: string := "request_func argument is null"
  const CLIENT_TRANSPORT: string := "client transport"
  const NO_CONNECTION: string := "no connection"
  const NO_REQUEST: string := "no request"
  const SEND_FAILED: string := "encountered error during send request processing"

  /** The error a failed send raises: a quasi-HTTP error unchanged, anything else wrapped as GENERAL with it as cause. */
  function Classify(e: Error): (r: Error)
    ensures r.QuasiHttp?
    ensures e.QuasiHttp? ==> r == e
    ensures !e.QuasiHttp? ==> r == QuasiHttp(General, SEND_FAILED, Some(e))
  {
    if e.QuasiHttp? then e else QuasiHttp(General, SEND_FAILED, Some(e))
  }

  // ---------------------------------------------------------------- _process_send

  /** The request to send: the given one, or the one request_func generates from the connection's environment. */
  function ObtainRequest(request: Option<RequestEntity>, requestFunc: RequestFunc, link: Link): (r: Run<RequestEntity>)
    ensures request.Some? ==> r == Run([], Ok(request.value))
    ensures request.None? ==> r.trace == [RequestGenerated(link.connection.environment)]
  {
    if request.Some? then Run([], Ok(request.value))
    else
      var env := link.connection.environment;
      match requestFunc(env)
      case Err(e) => Run([RequestGenerated(env)], Err(e))
      case Ok(None) => Run([RequestGenerated(env)], Err(QuasiHttpError(NO_REQUEST)))
      case Ok(Some(req)) => Run([RequestGenerated(env)], Ok(req))
  }

  /** Sending the request: the serializer hook if there is one, then the generic write unless the hook reported it done. */
  function SendRequest(codec: Codec, request: RequestEntity, t: Transport, link: Link): (r: Run<()>)
  {
    var hook := if t.requestSerializer.Some? then [Serialized] else [];
    var serialized := if t.requestSerializer.Some? then t.requestSerializer.value else Ok(false);
    match serialized
    case Err(e) => Run(hook, Err(e))
    case Ok(true) => Run(hook, Ok(()))
    case Ok(false) =>
      match codec.write(link.writable, request, link.connection)
      case Err(e) => Run(hook, Err(e))
      case Ok(bytes) => Run(hook + [Written(bytes)], Ok(()))
  }

  /** Receiving the response: the deserializer hook if there is one, then the generic read unless the hook produced a response. */
  function ReceiveResponse(codec: Codec, t: Transport, link: Link): (r: Run<Reply>)
  {
    var hook := if t.responseDeserializer.Some? then [Deserialized] else [];
    var deserialized := if t.responseDeserializer.Some? then t.responseDeserializer.value else Ok(None);
    match deserialized
    case Err(e) => Run(hook, Err(e))
    case Ok(Some(response)) => Run(hook, Ok(Reply(response, false)))
    case Ok(None) =>
      match codec.read(link.readable, link.incoming, link.connection)
      case Err(e) => Run(hook, Err(e))
      case Ok(read) => Run(hook + [ResponseRead], Ok(Reply(read.0, true)))
  }

  /** _process_send: establish, obtain the request, send it whole, then receive the response. */
  function ProcessSend(codec: Codec, request: Option<RequestEntity>, requestFunc: RequestFunc, t: Transport, link: Link): (r: Run<Reply>)
    ensures |r.trace| > 0 && r.trace[0] == Established
    ensures t.establish.Err? ==> r == Run([Established], Err(t.establish.error))
    ensures r.result.Ok? ==> r.result == ReceiveResponse(codec, t, link).result
    ensures forall i :: 0 <= i < |r.trace| ==> !r.trace[i].Released?
  {
    if t.establish.Err? then Run([Established], Err(t.establish.error))
    else
      var obtained := ObtainRequest(request, requestFunc, link);
      var prefix := [Established] + obtained.trace;
      if obtained.result.Err? then Run(prefix, Err(obtained.result.error))
      else
        var sent := SendRequest(codec, obtained.result.value, t, link);
        if sent.result.Err? then Run(prefix + sent.trace, Err(sent.result.error))
        else
          var received := ReceiveResponse(codec, t, link);
          Run(prefix + sent.trace + received.trace, received.result)
  }

  /** The send procedure run under the connection's timeout scheduler, if it has one. */
  function Scheduled(proc: Run<Reply>, scheduler: Option<Scheduler>): (r: Run<Reply>)
  {
    match scheduler
    case None => proc
    case Some(Completes) =>
      var outcome := Outcome(if proc.result.Ok? then Some(proc.result.value) else None, false,
                             if proc.result.Err? then Some(proc.result.error) else None);
      Run(proc.trace, match RunTimeoutScheduler(true, Some(outcome))
                      case Ok(reply) => Ok(reply.value)
                      case Err(e) => Err(e))
    case Some(TimesOutAfter(steps)) =>
      var outcome: Outcome<Reply> := Outcome(None, true, None);
      Run(proc.trace[..if steps < |proc.trace| then steps else |proc.trace|],
          match RunTimeoutScheduler(true, Some(outcome))
          case Ok(reply) => Ok(reply.value)
          case Err(e) => Err(e))
    case Some(ReturnsNothing) =>
      Run(proc.trace, match RunTimeoutScheduler<Reply>(true, None)
                      case Ok(reply) => Ok(reply.value)
                      case Err(e) => Err(e))
  }

  // ---------------------------------------------------------------- _send_internal, send, send2

  /**
   * _send_internal: allocate a connection, run the send procedure (under the
   * timeout scheduler if the connection has one), and release the connection with
   * the response. On any failure after a connection was obtained the connection is
   * released without a response, that release's own failure being swallowed; the
   * error raised is Classify of the failure. A failure of the success-path release
   * is such a failure, so it is followed by the second release.
   */
  function SendInternal(codec: Codec, transport: Option<Transport>, request: Option<RequestEntity>, requestFunc: RequestFunc): (r: Run<Reply>)
    ensures transport.None? ==> r == Run([], Err(MissingDependency(CLIENT_TRANSPORT)))
    ensures transport.Some? ==> |r.trace| > 0 && r.trace[0] == Allocated
    ensures transport.Some? && r.result.Err? ==> r.result.error.QuasiHttp?
    ensures transport.Some? && r.trace[|r.trace| - 1] != Allocated ==>
      transport.value.allocate.Ok? && transport.value.allocate.value.Some? && r.trace[|r.trace| - 1].Released?
  {
    if transport.None? then Run([], Err(MissingDependency(CLIENT_TRANSPORT)))
    else
      var t := transport.value;
      match t.allocate
      case Err(e) => Run([Allocated], Err(Classify(e)))
      case Ok(None) => Run([Allocated], Err(QuasiHttpError(NO_CONNECTION)))
      case Ok(Some(link)) => Conclude(t, Scheduled(ProcessSend(codec, request, requestFunc, t, link), link.scheduler))
  }

  /** The releases that follow the send procedure on an allocated connection (_abort). */
  function ReleaseTail(t: Transport, done: Run<Reply>): (r: seq<Event>)
    ensures 1 <= |r| <= 2 && forall i :: 0 <= i < |r| ==> r[i].Released?
    ensures r[0] == Released(if done.result.Ok? then Some(done.result.value.response) else None)
    ensures r[|r| - 1] == Released(None) <==> done.result.Err? || t.releaseOnSuccess.Err?
    ensures |r| == 2 <==> done.result.Ok? && t.releaseOnSuccess.Err?
  {
    if done.result.Err? then [Released(None)]
    else if t.releaseOnSuccess.Err? then [Released(Some(done.result.value.response)), Released(None)]
    else [Released(Some(done.result.value.response))]
  }

  /** The end of _send_internal once a connection was allocated and the procedure `done` has run. */
  function Conclude(t: Transport, done: Run<Reply>): (r: Run<Reply>)
    ensures |done.trace| + 2 <= |r.trace| <= |done.trace| + 3
    ensures r.trace[0] == Allocated && r.trace[1..|done.trace| + 1] == done.trace
    ensures r.trace[|r.trace| - 1].Released?
    ensures r.result.Ok? <==> done.result.Ok? && t.releaseOnSuccess.Ok?
    ensures r.result.Ok? ==> r.result.value == done.result.value
    ensures r.result.Err? ==> r.result.error.QuasiHttp?
    ensures done.result.Err? ==> r.result.error == Classify(done.result.error)
  {
    Run([Allocated] + done.trace + ReleaseTail(t, done),
        if done.result.Err? then Err(Classify(done.result.error))
        else if t.releaseOnSuccess.Err? then Err(Classify(t.releaseOnSuccess.error))
        else Ok(done.result.value))
  }

  /** A request_func that is never consulted. */
  function NoRequestFunc(env: Option<Environment>): ErrorOr<Option<RequestEntity>> {
    Ok(None)
  }

  /** send: a missing request is a ValueError raised before anything else happens. */
  function Send(transport: Option<Transport>, request: Option<RequestEntity>): (r: Run<Reply>)
    ensures request.None? ==> r == Run([], Err(ValueError(REQUEST_NULL)))
    ensures request.Some? ==> r == SendInternal(ENTITY_CODEC, transport, request, NoRequestFunc)
  {
    if request.None? then Run([], Err(ValueError(REQUEST_NULL))) else SendInternal(ENTITY_CODEC, transport, request, NoRequestFunc)
  }

  /** send2: a missing request_func is a ValueError raised before anything else happens. */
  function Send2(transport: Option<Transport>, requestFunc: Option<RequestFunc>): (r: Run<Reply>)
    ensures requestFunc.None? ==> r == Run([], Err(ValueError(REQUEST_FUNC_NULL)))
    ensures requestFunc.Some? ==> r == SendInternal(ENTITY_CODEC, transport, None, requestFunc.value)
  {
    if requestFunc.None? then Run([], Err(ValueError(REQUEST_FUNC_NULL))) else SendInternal(ENTITY_CODEC, transport, None, requestFunc.value)
  }

  // ---------------------------------------------------------------- trace shape

  /** The phase of _send_internal an event belongs to; a send moves through them in this order. */
  function Rank(e: Event): nat {
    match e
    case Allocated => 0
    case Established => 1
    case RequestGenerated(_) => 2
    case Serialized => 3
    case Written(_) => 4
    case Deserialized => 5
    case ResponseRead => 6
    case Released(_) => 7
  }

  /** Events in phase order, each at most once, except that releases (the last phase) may repeat. */
  predicate Ordered(trace: seq<Event>) {
    forall i, j :: 0 <= i < j < |trace| ==> Rank(trace[i]) < Rank(trace[j]) || trace[j].Released?
  }

  predicate RanksIn(trace: seq<Event>, lo: nat, hi: nat) {
    forall i :: 0 <= i < |trace| ==> lo <= Rank(trace[i]) < hi
  }

  /** The number of release_connection calls in a trace. */
  function Releases(trace: seq<Event>): nat
  {
    if trace == [] then 0 else (if trace[0].Released? then 1 else 0) + Releases(trace[1..])
  }

  lemma {:induction false} ReleasesAppend(a: seq<Event>, b: seq<Event>)
    ensures Releases(a + b) == Releases(a) + Releases(b)
  {
    if a == [] {
      assert a + b == b;
    } else {
      assert (a + b)[0] == a[0];
      assert (a + b)[1..] == a[1..] + b;
      ReleasesAppend(a[1..], b);
    }
  }

  lemma {:induction false} NoReleases(trace: seq<Event>)
    requires RanksIn(trace, 0, 7)
    ensures Releases(trace) == 0
  {
    if trace != [] {
      assert RanksIn(trace[1..], 0, 7) by {
        forall i | 0 <= i < |trace[1..]| ensures Rank(trace[1..][i]) < 7 {
          assert trace[1..][i] == trace[i + 1];
        }
      }
      NoReleases(trace[1..]);
    }
  }

  /** Joining an ordered trace of earlier phases to an ordered trace of later phases keeps the order. */
  lemma Join(a: seq<Event>, b: seq<Event>, lo: nat, k: nat, hi: nat)
    requires Ordered(a) && Ordered(b) && RanksIn(a, lo, k) && RanksIn(b, k, hi) && lo <= k <= hi
    ensures Ordered(a + b) && RanksIn(a + b, lo, hi)
  {
    forall i, j | 0 <= i < j < |a + b|
      ensures Rank((a + b)[i]) < Rank((a + b)[j]) || (a + b)[j].Released?
    {
      if j < |a| {
        assert (a + b)[i] == a[i] && (a + b)[j] == a[j];
      } else if i < |a| {
        assert (a + b)[i] == a[i] && (a + b)[j] == b[j - |a|];
      } else {
        assert (a + b)[i] == b[i - |a|] && (a + b)[j] == b[j - |a|];
      }
    }
    forall i | 0 <= i < |a + b| ensures lo <= Rank((a + b)[i]) < hi {
      if i < |a| { assert (a + b)[i] == a[i]; } else { assert (a + b)[i] == b[i - |a|]; }
    }
  }

  lemma Widen(a: seq<Event>, lo: nat, hi: nat, hi2: nat)
    requires RanksIn(a, lo, hi) && hi <= hi2
    ensures RanksIn(a, lo, hi2)
  {
  }

  lemma ObtainRequestShape(request: Option<RequestEntity>, requestFunc: RequestFunc, link: Link)
    ensures Ordered(ObtainRequest(request, requestFunc, link).trace) && RanksIn(ObtainRequest(request, requestFunc, link).trace, 2, 3)
  {
  }

  lemma SendRequestShape(codec: Codec, request: RequestEntity, t: Transport, link: Link)
    ensures Ordered(SendRequest(codec, request, t, link).trace) && RanksIn(SendRequest(codec, request, t, link).trace, 3, 5)
  {
  }

  lemma ReceiveResponseShape(codec: Codec, t: Transport, link: Link)
    ensures Ordered(ReceiveResponse(codec, t, link).trace) && RanksIn(ReceiveResponse(codec, t, link).trace, 5, 7)
  {
  }

  /** The send procedure establishes first, obtains the request, sends all of it, and only then receives; it never releases. */
  lemma {:induction false} ProcessSendShape(codec: Codec, request: Option<RequestEntity>, requestFunc: RequestFunc, t: Transport, link: Link)
    ensures Ordered(ProcessSend(codec, request, requestFunc, t, link).trace)
    ensures RanksIn(ProcessSend(codec, request, requestFunc, t, link).trace, 1, 7)
    ensures ProcessSend(codec, request, requestFunc, t, link).trace[0] == Established
  {
    var r := ProcessSend(codec, request, requestFunc, t, link);
    if t.establish.Ok? {
      var obtained := ObtainRequest(request, requestFunc, link);
      ObtainRequestShape(request, requestFunc, link);
      var prefix := [Established] + obtained.trace;
      Join([Established], obtained.trace, 1, 2, 3);
      if obtained.result.Err? {
        assert r.trace == prefix;
        Widen(prefix, 1, 3, 7);
      } else {
        var sent := SendRequest(codec, obtained.result.value, t, link);
        SendRequestShape(codec, obtained.result.value, t, link);
        Join(prefix, sent.trace, 1, 3, 5);
        if sent.result.Err? {
          assert r.trace == prefix + sent.trace;
          Widen(prefix + sent.trace, 1, 5, 7);
        } else {
          var received := ReceiveResponse(codec, t, link);
          ReceiveResponseShape(codec, t, link);
          Join(prefix + sent.trace, received.trace, 1, 5, 7);
          assert r.trace == prefix + sent.trace + received.trace;
        }
      }
    }
  }

  lemma ScheduledShape(proc: Run<Reply>, scheduler: Option<Scheduler>)
    requires Ordered(proc.trace) && RanksIn(proc.trace, 1, 7)
    ensures Ordered(Scheduled(proc, scheduler).trace) && RanksIn(Scheduled(proc, scheduler).trace, 1, 7)
    ensures |Scheduled(proc, scheduler).trace| <= |proc.trace|
    ensures Scheduled(proc, scheduler).trace == proc.trace[..|Scheduled(proc, scheduler).trace|]
  {
  }

  /** The last event of a non-empty trace. */
  function Last(trace: seq<Event>): Event
    requires trace != []
  {
    trace[|trace| - 1]
  }

  /**
   * Every send is ordered: allocation, establishment, request generation,
   * serialization, the write, deserialization and the read happen at most once
   * each and in that order, and releases come after all of them.
   */
  lemma {:induction false} SendOrdered(codec: Codec, transport: Option<Transport>, request: Option<RequestEntity>, requestFunc: RequestFunc)
    ensures Ordered(SendInternal(codec, transport, request, requestFunc).trace)
    ensures SendInternal(codec, transport, request, requestFunc).trace != [] ==> SendInternal(codec, transport, request, requestFunc).trace[0] == Allocated
  {
    if transport.Some? && transport.value.allocate.Ok? && transport.value.allocate.value.Some? {
      var t := transport.value;
      var link := t.allocate.value.value;
      var proc := ProcessSend(codec, request, requestFunc, t, link);
      ProcessSendShape(codec, request, requestFunc, t, link);
      var done := Scheduled(proc, link.scheduler);
      ScheduledShape(proc, link.scheduler);
      Join([Allocated], done.trace, 0, 1, 7);
      var trace := [Allocated] + done.trace;
      var tail := ReleaseTail(t, done);
      Join(trace, tail, 0, 7, 8);
      assert SendInternal(codec, transport, request, requestFunc).trace == trace + tail;
    }
  }

  /**
   * Release accounting: an allocated connection is released exactly once, with
   * the response on success and without one on failure, except when the release
   * with the response itself fails, which is followed by a second release without
   * one. No connection, no release.
   */
  lemma {:induction false} ReleaseAccounting(codec: Codec, transport: Option<Transport>, request: Option<RequestEntity>, requestFunc: RequestFunc)
    ensures var r := SendInternal(codec, transport, request, requestFunc);
      r.result.Ok? ==> Releases(r.trace) == 1 && Last(r.trace) == Released(Some(r.result.value.response))
    ensures var r := SendInternal(codec, transport, request, requestFunc);
      r.result.Err? && Releases(r.trace) > 0 ==> Last(r.trace) == Released(None)
    ensures var r := SendInternal(codec, transport, request, requestFunc);
      Releases(r.trace) == 2 ==> transport.value.releaseOnSuccess.Err? && r.result.Err?
    ensures Releases(SendInternal(codec, transport, request, requestFunc).trace) <= 2
    ensures Releases(SendInternal(codec, transport, request, requestFunc).trace) == 0 <==>
      transport.None? || transport.value.allocate.Err? || transport.value.allocate.value.None?
  {
    if transport.Some? && transport.value.allocate.Ok? && transport.value.allocate.value.Some? {
      var t := transport.value;
      var link := t.allocate.value.value;
      var proc := ProcessSend(codec, request, requestFunc, t, link);
      ProcessSendShape(codec, request, requestFunc, t, link);
      ScheduledShape(proc, link.scheduler);
      ConcludeReleases(t, Scheduled(proc, link.scheduler));
    }
  }

  /** The releases _abort makes once a connection is allocated and the procedure has run (or failed). */
  lemma ConcludeReleases(t: Transport, done: Run<Reply>)
    requires RanksIn(done.trace, 1, 7)
    ensures var r := Conclude(t, done);
      r.result.Ok? ==> Releases(r.trace) == 1 && Last(r.trace) == Released(Some(r.result.value.response))
    ensures Conclude(t, done).result.Err? ==> Last(Conclude(t, done).trace) == Released(None)
    ensures Releases(Conclude(t, done).trace) == 2 ==> t.releaseOnSuccess.Err? && Conclude(t, done).result.Err?
    ensures 1 <= Releases(Conclude(t, done).trace) <= 2
  {
    var trace := [Allocated] + done.trace;
    assert RanksIn(trace, 0, 7) by {
      forall i | 0 <= i < |trace| ensures Rank(trace[i]) < 7 {
        if i > 0 { assert trace[i] == done.trace[i - 1]; }
      }
    }
    NoReleases(trace);
    var tail := ReleaseTail(t, done);
    ReleasesAppend(trace, tail);
    assert Releases(tail) == |tail| by {
      var rest := tail[1..];
      if |tail| == 2 {
        assert rest[1..] == [] && rest[0].Released?;
        assert Releases(rest) == 1 + Releases(rest[1..]);
      } else {
        assert rest == [];
      }
      assert Releases(tail) == 1 + Releases(rest);
    }
  }

  /** A failure of the release that follows a failure is swallowed: it changes nothing the send does. */
  lemma FailureReleaseSwallowed(codec: Codec, t: Transport, request: Option<RequestEntity>, requestFunc: RequestFunc, outcome: ErrorOr<()>)
    ensures SendInternal(codec, Some(t.(releaseOnFailure := outcome)), request, requestFunc) == SendInternal(codec, Some(t), request, requestFunc)
  {
    var t2 := t.(releaseOnFailure := outcome);
    if t.allocate.Ok? && t.allocate.value.Some? {
      var link := t.allocate.value.value;
      forall req: RequestEntity ensures SendRequest(codec, req, t2, link) == SendRequest(codec, req, t, link) {
      }
      assert ReceiveResponse(codec, t2, link) == ReceiveResponse(codec, t, link);
      assert ProcessSend(codec, request, requestFunc, t2, link) == ProcessSend(codec, request, requestFunc, t, link);
    }
  }

  // ---------------------------------------------------------------- errors

  /** Argument and dependency errors are raised before anything happens. */
  lemma NoTransport(codec: Codec, request: Option<RequestEntity>, requestFunc: RequestFunc)
    ensures SendInternal(codec, None, request, requestFunc) == Run([], Err(MissingDependency("client transport")))
  {
  }

  /** Every error raised once allocation was attempted is a quasi-HTTP error. */
  lemma ErrorsAreQuasiHttp(codec: Codec, transport: Option<Transport>, request: Option<RequestEntity>, requestFunc: RequestFunc)
    ensures var r := SendInternal(codec, transport, request, requestFunc);
      r.result.Err? && r.trace != [] ==> r.result.error.QuasiHttp?
    ensures var r := SendInternal(codec, transport, request, requestFunc);
      r.trace == [] <==> transport.None?
  {
  }

  /** A transport that allocates no connection gives "no connection", and nothing is released. */
  lemma NoConnection(codec: Codec, t: Transport, request: Option<RequestEntity>, requestFunc: RequestFunc)
    requires t.allocate == Ok(None)
    ensures SendInternal(codec, Some(t), request, requestFunc) == Run([Allocated], Err(QuasiHttp(General, "no connection", None)))
  {
  }

  /**
   * A failure to establish the connection: a quasi-HTTP error is raised unchanged,
   * any other error is wrapped as a GENERAL error with it as the cause; the
   * connection is released without a response and nothing is sent.
   */
  lemma EstablishFailure(codec: Codec, t: Transport, request: Option<RequestEntity>, requestFunc: RequestFunc, e: Error)
    requires t.allocate.Ok? && t.allocate.value.Some? && t.allocate.value.value.scheduler.None?
    requires t.establish == Err(e)
    ensures SendInternal(codec, Some(t), request, requestFunc).trace == [Allocated, Established, Released(None)]
    ensures e.QuasiHttp? ==> SendInternal(codec, Some(t), request, requestFunc).result == Err(e)
    ensures !e.QuasiHttp? ==>
      SendInternal(codec, Some(t), request, requestFunc).result == Err(QuasiHttp(General, "encountered error during send request processing", Some(e)))
  {
  }

  /** send2 whose request_func yields no request fails with "no request" after consulting it once. */
  lemma NoRequest(codec: Codec, t: Transport, requestFunc: RequestFunc)
    requires t.allocate.Ok? && t.allocate.value.Some? && t.allocate.value.value.scheduler.None?
    requires t.establish.Ok?
    requires requestFunc(t.allocate.value.value.connection.environment) == Ok(None)
    ensures SendInternal(codec, Some(t), None, requestFunc) ==
      Run([Allocated, Established, RequestGenerated(t.allocate.value.value.connection.environment), Released(None)],
          Err(QuasiHttp(General, "no request", None)))
  {
  }

  // ---------------------------------------------------------------- hooks and the generic path

  /** Every request generation in a trace was for a send2 call and was given `env`. */
  predicate GeneratedFrom(trace: seq<Event>, request: Option<RequestEntity>, env: Option<Environment>) {
    forall i :: 0 <= i < |trace| && trace[i].RequestGenerated? ==> request.None? && trace[i].environment == env
  }

  lemma GeneratedJoin(a: seq<Event>, b: seq<Event>, request: Option<RequestEntity>, env: Option<Environment>)
    requires GeneratedFrom(a, request, env) && RanksIn(b, 3, 8)
    ensures GeneratedFrom(a + b, request, env)
  {
    forall i | 0 <= i < |a + b| && (a + b)[i].RequestGenerated?
      ensures request.None? && (a + b)[i].environment == env
    {
      if i < |a| { assert (a + b)[i] == a[i]; }
    }
  }

  lemma {:induction false} ProcessSendGenerated(codec: Codec, request: Option<RequestEntity>, requestFunc: RequestFunc, t: Transport, link: Link)
    ensures GeneratedFrom(ProcessSend(codec, request, requestFunc, t, link).trace, request, link.connection.environment)
  {
    var r := ProcessSend(codec, request, requestFunc, t, link);
    var env := link.connection.environment;
    if t.establish.Ok? {
      var obtained := ObtainRequest(request, requestFunc, link);
      var prefix := [Established] + obtained.trace;
      assert GeneratedFrom(prefix, request, env) by {
        assert prefix == [Established] || prefix == [Established, RequestGenerated(env)];
      }
      if obtained.result.Ok? {
        var sent := SendRequest(codec, obtained.result.value, t, link);
        SendRequestShape(codec, obtained.result.value, t, link);
        Widen(sent.trace, 3, 5, 8);
        GeneratedJoin(prefix, sent.trace, request, env);
        if sent.result.Ok? {
          var received := ReceiveResponse(codec, t, link);
          ReceiveResponseShape(codec, t, link);
          Widen(received.trace, 5, 7, 8);
          assert RanksIn(received.trace, 3, 8);
          GeneratedJoin(prefix + sent.trace, received.trace, request, env);
          assert r.trace == prefix + sent.trace + received.trace;
        }
      }
    }
  }

  lemma ScheduledGenerated(proc: Run<Reply>, scheduler: Option<Scheduler>, request: Option<RequestEntity>, env: Option<Environment>)
    requires GeneratedFrom(proc.trace, request, env)
    ensures GeneratedFrom(Scheduled(proc, scheduler).trace, request, env)
  {
    var done := Scheduled(proc, scheduler);
    assert done.trace == proc.trace[..|done.trace|];
    forall i | 0 <= i < |done.trace| && done.trace[i].RequestGenerated?
      ensures request.None? && done.trace[i].environment == env
    {
      assert done.trace[i] == proc.trace[i];
    }
  }

  lemma ConcludeGenerated(t: Transport, done: Run<Reply>, request: Option<RequestEntity>, env: Option<Environment>)
    requires GeneratedFrom(done.trace, request, env)
    ensures GeneratedFrom(Conclude(t, done).trace, request, env)
  {
    var front := [Allocated] + done.trace;
    forall i | 0 <= i < |front| && front[i].RequestGenerated?
      ensures request.None? && front[i].environment == env
    {
      assert i > 0 && front[i] == done.trace[i - 1];
    }
    GeneratedJoin(front, ReleaseTail(t, done), request, env);
  }

  /** request_func is consulted only by send2, and is given the connection's environment. */
  lemma {:induction false} GeneratorSeesEnvironment(codec: Codec, t: Transport, request: Option<RequestEntity>, requestFunc: RequestFunc)
    requires t.allocate.Ok? && t.allocate.value.Some?
    ensures GeneratedFrom(SendInternal(codec, Some(t), request, requestFunc).trace, request, t.allocate.value.value.connection.environment)
  {
    var link := t.allocate.value.value;
    var env := link.connection.environment;
    var proc := ProcessSend(codec, request, requestFunc, t, link);
    ProcessSendGenerated(codec, request, requestFunc, t, link);
    ScheduledGenerated(proc, link.scheduler, request, env);
    ConcludeGenerated(t, Scheduled(proc, link.scheduler), request, env);
  }

  /** A request serializer that reports the request written suppresses the generic write. */
  lemma SerializerSkipsWrite(codec: Codec, request: RequestEntity, t: Transport, link: Link)
    requires t.requestSerializer == Some(Ok(true))
    ensures SendRequest(codec, request, t, link) == Run([Serialized], Ok(()))
  {
  }

  /** Without a serializer (or when it declines), the request goes out as the codec writes it. */
  lemma GenericWrite(codec: Codec, request: RequestEntity, t: Transport, link: Link)
    requires t.requestSerializer.None? || t.requestSerializer == Some(Ok(false))
    ensures SendRequest(codec, request, t, link).result.Ok? <==> codec.write(link.writable, request, link.connection).Ok?
    ensures SendRequest(codec, request, t, link).result.Ok? ==>
      Written(codec.write(link.writable, request, link.connection).value) in SendRequest(codec, request, t, link).trace
  {
  }

  /** A response produced by the deserializer is returned as is, with no release action, and nothing is read. */
  lemma DeserializerResponse(codec: Codec, t: Transport, link: Link, response: ResponseEntity)
    requires t.responseDeserializer == Some(Ok(Some(response)))
    ensures ReceiveResponse(codec, t, link) == Run([Deserialized], Ok(Reply(response, false)))
  {
  }

  /** Otherwise the response is the one the codec reads off the connection, and it carries a release action. */
  lemma GenericRead(codec: Codec, t: Transport, link: Link)
    requires t.responseDeserializer.None? || t.responseDeserializer == Some(Ok(None))
    ensures ReceiveResponse(codec, t, link).result.Ok? <==> codec.read(link.readable, link.incoming, link.connection).Ok?
    ensures ReceiveResponse(codec, t, link).result.Ok? ==>
      ReceiveResponse(codec, t, link).result.value == Reply(codec.read(link.readable, link.incoming, link.connection).value.0, true)
  {
  }

  /**
   * The plain exchange, with no hooks and no scheduler: it succeeds exactly when
   * the codec writes the request and reads a response, and then the request is
   * written, the response read, and the connection released with that response.
   */
  lemma PlainExchange(codec: Codec, t: Transport, request: RequestEntity)
    requires t.allocate.Ok? && t.allocate.value.Some? && t.allocate.value.value.scheduler.None?
    requires t.establish.Ok? && t.requestSerializer.None? && t.responseDeserializer.None? && t.releaseOnSuccess.Ok?
    ensures var link := t.allocate.value.value;
      SendInternal(codec, Some(t), Some(request), NoRequestFunc).result.Ok? <==>
        codec.write(link.writable, request, link.connection).Ok? && codec.read(link.readable, link.incoming, link.connection).Ok?
    ensures var link := t.allocate.value.value;
      codec.write(link.writable, request, link.connection).Ok? && codec.read(link.readable, link.incoming, link.connection).Ok? ==>
      var response := codec.read(link.readable, link.incoming, link.connection).value.0;
      SendInternal(codec, Some(t), Some(request), NoRequestFunc) ==
        Run([Allocated, Established, Written(codec.write(link.writable, request, link.connection).value), ResponseRead, Released(Some(response))],
            Ok(Reply(response, true)))
  {
  }

  /** send and send2 write requests and read responses with the entity codec. */
  lemma EntityCodecUsed(hasStream: bool, request: RequestEntity, s: seq<byte>, conn: Connection)
    ensures ENTITY_CODEC.write(hasStream, request, conn) == WriteEntity(hasStream, request, conn)
    ensures ENTITY_CODEC.read(hasStream, s, conn) == ReadEntity(true, hasStream, s, conn)
    ensures ENTITY_CODEC.read(hasStream, s, conn).Ok? ==> ENTITY_CODEC.read(hasStream, s, conn).value.0.Response?
  {
  }

  // ---------------------------------------------------------------- the timeout scheduler

  /** A scheduler whose deadline elapses makes the send fail with the client's timeout error, after releasing the connection. */
  lemma SchedulerTimeout(codec: Codec, t: Transport, request: Option<RequestEntity>, requestFunc: RequestFunc, steps: nat)
    requires t.allocate.Ok? && t.allocate.value.Some? && t.allocate.value.value.scheduler == Some(TimesOutAfter(steps))
    ensures SendInternal(codec, Some(t), request, requestFunc).result == Err(QuasiHttp(Timeout, "send timeout", None))
    ensures Last(SendInternal(codec, Some(t), request, requestFunc).trace) == Released(None)
  {
  }

  /** A scheduler that completes changes neither the events nor the outcome of the send procedure. */
  lemma SchedulerTransparent(proc: Run<Reply>)
    ensures Scheduled(proc, Some(Completes)) == proc
  {
  }

  /** The value the send procedure hands the scheduler. */
  datatype Handle = Awaited(reply: Reply) | Pending

  /** The procedure given to the scheduler, as written: it returns _process_send's coroutine without awaiting it. */
  function ScheduledProcAsWritten(codec: Codec, request: Option<RequestEntity>, requestFunc: RequestFunc, t: Transport, link: Link): (r: Run<Handle>)
    ensures r.result == Ok(Pending)
  {
    Run([], Ok(Pending))
  }

  /** The procedure as evidently intended: it awaits _process_send and hands over its response. */
  function ScheduledProc(codec: Codec, request: Option<RequestEntity>, requestFunc: RequestFunc, t: Transport, link: Link): (r: Run<Handle>)
    ensures r.trace == ProcessSend(codec, request, requestFunc, t, link).trace
    ensures r.result.Ok? <==> ProcessSend(codec, request, requestFunc, t, link).result.Ok?
  {
    var proc := ProcessSend(codec, request, requestFunc, t, link);
    Run(proc.trace, if proc.result.Ok? then Ok(Awaited(proc.result.value)) else Err(proc.result.error))
  }

  /**
   * As written, a send under a timeout scheduler never establishes the connection
   * nor writes the request, and the "response" the scheduler reports is an
   * unstarted coroutine; the intended procedure establishes first and yields a
   * response.
   */
  lemma ScheduledSendAsWritten(codec: Codec, request: Option<RequestEntity>, requestFunc: RequestFunc, t: Transport, link: Link)
    ensures Established !in ScheduledProcAsWritten(codec, request, requestFunc, t, link).trace
    ensures ScheduledProcAsWritten(codec, request, requestFunc, t, link).result.Ok? &&
      !ScheduledProcAsWritten(codec, request, requestFunc, t, link).result.value.Awaited?
    ensures ScheduledProc(codec, request, requestFunc, t, link).trace[0] == Established
    ensures ScheduledProc(codec, request, requestFunc, t, link).result.Ok? ==> ScheduledProc(codec, request, requestFunc, t, link).result.value.Awaited?
  {
    ProcessSendShape(codec, request, requestFunc, t, link);
  }
}
