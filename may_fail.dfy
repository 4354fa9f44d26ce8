/**
 * Guarded execution: `mayFail(func, raw)` and its asynchronous twin turn a
 * returned value into a success and a thrown value into a failure that
 * carries its normalized message, or with `raw` the whole CaughtError.
 */
module Guarding {
  import opened Js
  import opened Handling
  import opened ErrorParser

  /** The error of a guarded failure: the message alone (default), or the CaughtError (`raw`). */
  datatype Failure = Text(message: string) | Raw(caught: CaughtError)

  /** The message a failure carries, in either mode. */
  function FailureMessage(f: Failure): string {
    match f
    case Text(m) => m
    case Raw(c) => c.message
  }

  /**
   * The catch branch: `convert(error)`, then `Err(caught)` in raw mode or
   * `Err(caught.message)` otherwise.
   */
  function Caught<T>(thrown: JsValue, host: Host, raw: bool): (r: Result<Maybe<T>, Failure>)
    ensures r.ErrorType?
    ensures FailureMessage(r.error) == ToString(thrown, host)
    ensures r.error.Raw? <==> raw
    ensures raw ==> r.error.caught.exception == thrown
  {
    var caught := ToCaught(thrown, host);
    if raw then Err(Raw(caught)) else Err(Text(caught.message))
  }

  /**
   * `mayFail(func, raw)`: `func` is how the call ended. A returned value `v`
   * gives `Ok(v)` (the void success when `v` is undefined); a thrown value
   * gives a failure with its normalized message. `raw` defaults to false.
   */
  function MayFail<T>(func: Outcome<Maybe<T>>, host: Host, raw: bool := false): (r: Result<Maybe<T>, Failure>)
    ensures r.OkType? <==> func.Returned?
    ensures func.Returned? ==> r.data == func.value
    ensures func.Threw? && !raw ==> r.error == Text(ToString(func.thrown, host))
    ensures func.Threw? && raw ==> r.error == Raw(CaughtError(ToString(func.thrown, host), func.thrown))
  {
    match func
    case Returned(v) => Ok(v)
    case Threw(x) => Caught(x, host, raw)
  }

  /** `mayFailAsync(func, raw)`: the same mapping over how the awaited promise settled. */
  function MayFailAsync<T>(awaited: Outcome<Maybe<T>>, host: Host, raw: bool := false): (r: Result<Maybe<T>, Failure>)
    ensures r.OkType? <==> awaited.Returned?
    ensures awaited.Returned? ==> r.data == awaited.value
    ensures awaited.Threw? && !raw ==> r.error == Text(ToString(awaited.thrown, host))
    ensures awaited.Threw? && raw ==> r.error == Raw(CaughtError(ToString(awaited.thrown, host), awaited.thrown))
  {
    MayFail(awaited, host, raw)
  }

  /** A callback returning undefined gives the void success; one returning `v` gives `Ok(v)`. */
  lemma ReturnedIsOk<T>(v: T, host: Host, raw: bool)
    ensures MayFail<T>(Returned(Undefined), host, raw) == VoidOk()
    ensures MayFail(Returned(Defined(v)), host, raw) == RunOk(Defined(v))
  {
  }

  /** `raw` defaults to false: the failure then carries the normalized message only. */
  lemma DefaultIsNotRaw<T>(func: Outcome<Maybe<T>>, host: Host)
    ensures MayFail(func, host) == MayFail(func, host, false)
    ensures func.Threw? ==> MayFail(func, host).error.Text?
  {
  }

  /** The two modes agree on success and on the message; raw mode also keeps the thrown value. */
  lemma ModesAgree<T>(func: Outcome<Maybe<T>>, host: Host)
    ensures MayFail(func, host, true).OkType? <==> MayFail(func, host, false).OkType?
    ensures MayFail(func, host, true).OkType? ==> MayFail(func, host, true) == MayFail(func, host, false)
    ensures func.Threw? ==>
              FailureMessage(MayFail(func, host, true).error) == FailureMessage(MayFail(func, host, false).error)
    ensures func.Threw? ==> MayFail(func, host, true).error.caught.exception == func.thrown
  {
  }

  /** Throwing an Error gives its message; in raw mode the exception is still an Error instance. */
  lemma ThrownErrorMessage<T>(m: string, host: Host)
    ensures MayFail<T>(Threw(NewError(Defined(m))), host) == Err(Text(m))
    ensures MayFail<T>(Threw(NewError(Defined(m))), host, true).error.caught.exception.errorInstance
  {
  }

  /** Unwrapping a guarded throw gives a Problem that carries the thrown Error's message. */
  lemma UnwrapGuardedThrow<T>(m: string, host: Host)
    ensures forall payloadIsProblem: Maybe<T> -> bool ::
              IsProblem(MayFail<T>(Threw(NewError(Defined(m))), host).Unwrap(), payloadIsProblem)
    ensures MayFail<T>(Threw(NewError(Defined(m))), host).Unwrap().right.error == Text(m)
  {
  }

  /**
   * Guarding an `assert()` gives back the Result, with a failure's error
   * replaced by the message of the Error that `assert()` threw.
   */
  lemma GuardedAssert<T, E>(r: Result<Maybe<T>, E>, show: E -> Maybe<string>, host: Host)
    ensures r.OkType? ==> MayFail(r.Assert(show), host) == Ok(r.data)
    ensures r.ErrorType? ==> MayFail(r.Assert(show), host) == Err(Text(ErrorMessage(show(r.error))))
  {
  }

  /** `mayFailAsync` maps the settled promise exactly as `mayFail` maps the call's outcome. */
  lemma AsyncAgrees<T>(outcome: Outcome<Maybe<T>>, host: Host, raw: bool)
    ensures MayFailAsync(outcome, host, raw) == MayFail(outcome, host, raw)
  {
  }
}
