/**
 * Checked execution: `check(value, predicate, message)` and its asynchronous
 * twin turn a predicate's outcome into a Result that carries `value` or the
 * failure message.
 */
module Checking {
  import opened Js
  import opened Handling

  /** The failure message when the caller gives none. */
  const DefaultCheckMessage: string := "Check failed"

  /**
   * `check(value, predicate, message)`: `verdict` is how the predicate call
   * ended. True gives `Ok(value)`; false, or a throw, gives `Err(message)`.
   */
  function Check<T>(value: Maybe<T>, verdict: Outcome<bool>, message: string := DefaultCheckMessage)
    : (r: Result<Maybe<T>, string>)
    ensures r.OkType? <==> verdict == Returned(true)
    ensures r.OkType? ==> r.data == value
    ensures r.ErrorType? ==> r.error == message
  {
    match verdict
    case Returned(holds) => if holds then Ok(value) else Err(message)
    case Threw(_) => Err(message)
  }

  /**
   * `checkAsync(value, predicate, message)`: `awaited` is how the promise the
   * predicate returned settled (rejection is `Threw`), mapped as `check` does.
   */
  function CheckAsync<T>(value: Maybe<T>, awaited: Outcome<bool>, message: string := DefaultCheckMessage)
    : (r: Result<Maybe<T>, string>)
    ensures r.OkType? <==> awaited == Returned(true)
    ensures r.OkType? ==> r.data == value
    ensures r.ErrorType? ==> r.error == message
  {
    Check(value, awaited, message)
  }

  /** A predicate that throws is indistinguishable from one that returns false. */
  lemma ThrowLikeFalse<T>(value: Maybe<T>, x: JsValue, message: string)
    ensures Check(value, Threw(x), message) == Check(value, Returned(false), message) == Err(message)
  {
  }

  /** A predicate that holds passes `value` through unchanged; `unwrap()` gives it back. */
  lemma TruePassesValue<T>(value: Maybe<T>, message: string)
    ensures Check(value, Returned(true), message) == Ok(value)
    ensures Check(value, Returned(true), message).Unwrap() == Left(value)
  {
  }

  /** Without a message, a failed check reports "Check failed". */
  lemma DefaultMessage<T>(value: Maybe<T>, verdict: Outcome<bool>)
    ensures Check(value, verdict).ErrorType? ==> Check(value, verdict).error == "Check failed"
    ensures CheckAsync(value, verdict).ErrorType? ==> CheckAsync(value, verdict).error == "Check failed"
  {
  }

  /** `checkAsync` maps the settled promise exactly as `check` maps the returned value or the throw. */
  lemma AsyncAgrees<T>(value: Maybe<T>, outcome: Outcome<bool>, message: string)
    ensures CheckAsync(value, outcome, message) == Check(value, outcome, message)
  {
  }
}
