/**
 * run_timeout_scheduler and wrap_timeout_task (kabomu/protocol_utils_internal.py:17-37).
 *
 * Real time and cancellation are not modelled: a scheduler's run is given as the
 * outcome record it returns, with its three independent fields — the produced
 * response, the timeout flag and the error the procedure raised — or as no record
 * at all. A timeout task is given as its result: a flag, or the error it raised.
 */
module Timeout {
  import opened Wrappers
  import opened Errors

  /** What a timeout scheduler reports about one run of the procedure. */
  datatype Outcome<T> = Outcome(response: Option<T>, timeout: bool, error: Option<Error>)

  const SEND_TIMEOUT: string := "send timeout"
  const RECEIVE_TIMEOUT: string := "receive timeout"
  const RECEIVE_TIMEOUT_AS_WRITTEN: string := "receive_timeout"
  const NO_RESPONSE: string := "no response from timeout scheduler"

  /** The message of a timeout error on the client (sending) or server (receiving) side. */
  function TimeoutMessage(forClient: bool): string {
    if forClient then SEND_TIMEOUT else RECEIVE_TIMEOUT
  }

  /** The message as the source spells it on the server side. */
  function TimeoutMessageAsWritten(forClient: bool): string {
    if forClient then SEND_TIMEOUT else RECEIVE_TIMEOUT_AS_WRITTEN
  }

  /**
   * The body of run_timeout_scheduler, with the timeout message as a parameter:
   * a reported error is raised first, then a timeout, then a client with no
   * response is an error; otherwise the response (possibly none, on the server
   * side) is returned.
   */
  function Classify<T>(forClient: bool, result: Option<Outcome<T>>, timeoutMessage: string): (r: ErrorOr<Option<T>>)
    ensures result.Some? && result.value.error.Some? ==> r == Err(result.value.error.value)
    ensures r.Ok? ==> result.None? || (result.value.error.None? && !result.value.timeout)
    ensures r.Ok? ==> r.value == (if result.Some? then result.value.response else None)
    ensures forClient && r.Ok? ==> r.value.Some?
  {
    var error := if result.Some? then result.value.error else None;
    var timeout := result.Some? && result.value.timeout;
    var response := if result.Some? then result.value.response else None;
    if error.Some? then Err(error.value)
    else if timeout then Err(QuasiHttp(Timeout, timeoutMessage, None))
    else if forClient && response.None? then Err(QuasiHttpError(NO_RESPONSE))
    else Ok(response)
  }

  /** run_timeout_scheduler over the record the scheduler returned. */
  function RunTimeoutScheduler<T>(forClient: bool, result: Option<Outcome<T>>): (r: ErrorOr<Option<T>>)
    ensures result.Some? && result.value.error.Some? ==> r == Err(result.value.error.value)
    ensures result.Some? && result.value.error.None? && result.value.timeout ==>
      r == Err(QuasiHttp(Timeout, if forClient then "send timeout" else "receive timeout", None))
    ensures r.Ok? <==> (result.None? || (result.value.error.None? && !result.value.timeout))
                       && (forClient ==> result.Some? && result.value.response.Some?)
    ensures r.Ok? ==> r.value == (if result.Some? then result.value.response else None)
    ensures r.Err? && forClient && (result.None? || (result.value.error.None? && !result.value.timeout)) ==>
      r == Err(QuasiHttp(General, "no response from timeout scheduler", None))
  {
    Classify(forClient, result, TimeoutMessage(forClient))
  }

  /** The same, with the server-side timeout message as the source spells it. */
  function RunTimeoutSchedulerAsWritten<T>(forClient: bool, result: Option<Outcome<T>>): (r: ErrorOr<Option<T>>)
  {
    Classify(forClient, result, TimeoutMessageAsWritten(forClient))
  }

  /**
   * run_timeout_scheduler's client-side check as written: `not response` also
   * refuses a response that is present but falsy in Python (an empty dict, say),
   * which `isFalsy` tells apart.
   */
  function ClassifyAsWritten<T>(forClient: bool, result: Option<Outcome<T>>, timeoutMessage: string, isFalsy: T -> bool): (r: ErrorOr<Option<T>>)
    ensures (forClient && result.Some? && result.value.error.None? && !result.value.timeout
             && result.value.response.Some? && isFalsy(result.value.response.value))
            ==> r == Err(QuasiHttpError(NO_RESPONSE))
    ensures r.Ok? ==> r == Classify(forClient, result, timeoutMessage)
  {
    var c := Classify(forClient, result, timeoutMessage);
    if c.Ok? && forClient && c.value.Some? && isFalsy(c.value.value) then Err(QuasiHttpError(NO_RESPONSE)) else c
  }

  /** The timeout task's result under a given timeout message: an error it raised is passed on, a set flag is a timeout. */
  function WrapWith(task: ErrorOr<bool>, timeoutMessage: string): (r: ErrorOr<()>)
    ensures task.Err? ==> r == Err(task.error)
    ensures task == Ok(true) ==> r == Err(QuasiHttp(Timeout, timeoutMessage, None))
    ensures r.Ok? <==> task == Ok(false)
  {
    var timedOut :- task;
    if timedOut then Err(QuasiHttp(Timeout, timeoutMessage, None)) else Ok(())
  }

  /** wrap_timeout_task over the timeout task's result: an error it raised is passed on, a set flag is a timeout. */
  function WrapTimeoutTask(forClient: bool, task: ErrorOr<bool>): (r: ErrorOr<()>)
    ensures task.Err? ==> r == Err(task.error)
    ensures task == Ok(true) ==> r == Err(QuasiHttp(Timeout, TimeoutMessage(forClient), None))
    ensures r.Ok? <==> task == Ok(false)
  {
    WrapWith(task, TimeoutMessage(forClient))
  }

  /** wrap_timeout_task with the server-side timeout message as the source spells it. */
  function WrapTimeoutTaskAsWritten(forClient: bool, task: ErrorOr<bool>): (r: ErrorOr<()>)
    ensures task.Err? ==> r == Err(task.error)
    ensures task == Ok(true) ==> r == Err(QuasiHttp(Timeout, TimeoutMessageAsWritten(forClient), None))
    ensures r.Ok? <==> task == Ok(false)
  {
    WrapWith(task, TimeoutMessageAsWritten(forClient))
  }

  // ---------------------------------------------------------------- properties

  /**
   * The outcome classification: exactly one of error, timeout, missing response
   * or response, in that priority, with the reason each error carries.
   */
  lemma SchedulerClassification<T>(forClient: bool, result: Option<Outcome<T>>)
    ensures result.Some? && result.value.error.Some? ==> RunTimeoutScheduler(forClient, result) == Err(result.value.error.value)
    ensures result.Some? && result.value.error.None? && result.value.timeout ==>
      RunTimeoutScheduler(forClient, result) == Err(QuasiHttp(Timeout, TimeoutMessage(forClient), None))
    ensures forClient && (result.None? || (result.value.error.None? && !result.value.timeout && result.value.response.None?)) ==>
      RunTimeoutScheduler(forClient, result) == Err(QuasiHttp(General, NO_RESPONSE, None))
    ensures !forClient && (result.None? || (result.value.error.None? && !result.value.timeout)) ==>
      RunTimeoutScheduler(forClient, result) == Ok(if result.Some? then result.value.response else None)
    ensures forClient && result.Some? && result.value.error.None? && !result.value.timeout && result.value.response.Some? ==>
      RunTimeoutScheduler(forClient, result) == Ok(result.value.response)
  {
  }

  /** The test vectors: a server-side timeout reads "receive timeout"; a reported error wins over a timeout. */
  lemma SchedulerVectors(e: Error)
    ensures RunTimeoutScheduler<int>(false, Some(Outcome(None, true, None))) == Err(QuasiHttp(Timeout, "receive timeout", None))
    ensures RunTimeoutScheduler<int>(true, Some(Outcome(None, true, None))) == Err(QuasiHttp(Timeout, "send timeout", None))
    ensures RunTimeoutScheduler<int>(false, Some(Outcome(None, true, Some(e)))) == Err(e)
    ensures RunTimeoutScheduler<int>(false, None) == Ok(None)
    ensures WrapTimeoutTask(false, Ok(true)) == Err(QuasiHttp(Timeout, "receive timeout", None))
  {
  }

  /**
   * As written, a server-side timeout is reported as "receive_timeout", in both
   * run_timeout_scheduler and wrap_timeout_task, which is not the message the
   * tests expect; the corrected versions report "receive timeout".
   */
  lemma ServerTimeoutMessageAsWritten<T>()
    ensures RunTimeoutSchedulerAsWritten<T>(false, Some(Outcome(None, true, None))) != Err(QuasiHttp(Timeout, "receive timeout", None))
    ensures RunTimeoutScheduler<T>(false, Some(Outcome(None, true, None))) == Err(QuasiHttp(Timeout, "receive timeout", None))
    ensures WrapTimeoutTaskAsWritten(false, Ok(true)) != Err(QuasiHttp(Timeout, "receive timeout", None))
    ensures WrapTimeoutTask(false, Ok(true)) == Err(QuasiHttp(Timeout, "receive timeout", None))
  {
    assert RECEIVE_TIMEOUT_AS_WRITTEN[7] != RECEIVE_TIMEOUT[7];
  }

  /**
   * As written, a client-side scheduler that returns an empty dict as the
   * response, which the first scheduler test expects back, is refused as "no
   * response"; the corrected check (presence) returns it.
   */
  lemma FalsyResponseRefusedAsWritten<T>(response: T, isFalsy: T -> bool)
    requires isFalsy(response)
    ensures ClassifyAsWritten(true, Some(Outcome(Some(response), false, None)), SEND_TIMEOUT, isFalsy) == Err(QuasiHttp(General, NO_RESPONSE, None))
    ensures RunTimeoutScheduler(true, Some(Outcome(Some(response), false, None))) == Ok(Some(response))
  {
  }

  /** The two versions differ only in that message: on every other input they agree. */
  lemma AsWrittenAgreesElsewhere<T>(forClient: bool, result: Option<Outcome<T>>)
    requires forClient || result.None? || result.value.error.Some? || !result.value.timeout
    ensures RunTimeoutSchedulerAsWritten(forClient, result) == RunTimeoutScheduler(forClient, result)
  {
  }
}
