/**
 * The result algebra: a two-variant Result with `assert`, `or` and `unwrap`,
 * the `Problem` wrapper that `unwrap` puts around an error, and `isProblem`.
 */
module Handling {
  import opened Js

  /** `new Problem(error)`: the unwrapped content of a failure, distinguishable from a payload. */
  datatype Problem<+E> = Problem(error: E)

  /**
   * What `unwrap()` gives back: the payload itself, or a Problem. At run time
   * the value carries no Left/Right tag; only `isProblem` looks at it.
   */
  datatype Either<+L, +R> = Left(left: L) | Right(right: R)

  /**
   * `Result<T, E> = OkType<T> | ErrorType<E>`. The `ok` field of the source is
   * the discriminant `OkType?`; `data` and `error` are the variants' fields.
   */
  datatype Result<+T, +E> = OkType(data: T) | ErrorType(error: E) {

    /**
     * `assert()`: the payload of a success; on a failure it throws
     * `new Error(error?.toString())`. `show` is the error's own string
     * conversion, `Undefined` when the error is null or undefined.
     */
    function Assert(show: E -> Maybe<string>): (o: Outcome<T>)
      ensures o.Returned? <==> OkType?
      ensures o.Returned? ==> o.value == data
      ensures o.Threw? ==> o.thrown.JsObject? && o.thrown.errorInstance
      ensures o.Threw? ==> o.thrown.message == StrField(ErrorMessage(show(error)))
    {
      match this
      case OkType(d) => Returned(d)
      case ErrorType(e) => Threw(NewError(show(e)))
    }

    /**
     * What `assert()` writes to the diagnostic channel before it throws:
     * the error itself, exactly when its string form is empty or undefined.
     */
    function AssertLog(show: E -> Maybe<string>): (logged: seq<E>)
      ensures |logged| <= 1
      ensures logged != [] <==> ErrorType? && !Truthy(show(error))
      ensures logged != [] ==> logged[0] == error
    {
      match this
      case OkType(_) => []
      case ErrorType(e) => if Truthy(show(e)) then [] else [e]
    }

    /** `or(fallback)`: the payload of a success, the fallback for a failure. */
    function Or(fallback: T): (v: T)
      ensures OkType? ==> v == data
      ensures ErrorType? ==> v == fallback
    {
      match this
      case OkType(d) => d
      case ErrorType(_) => fallback
    }

    /** `unwrap()`: the payload of a success unchanged, a new Problem around the error of a failure. */
    function Unwrap(): (u: Either<T, Problem<E>>)
      ensures u.Left? <==> OkType?
      ensures u.Left? ==> u.left == data
      ensures u.Right? ==> u.right.error == error
    {
      match this
      case OkType(d) => Left(d)
      case ErrorType(e) => Right(Problem(e))
    }
  }

  /** JavaScript truthiness of `error?.toString()`: falsy exactly for undefined and the empty string. */
  function Truthy(message: Maybe<string>): (b: bool)
    ensures !b <==> message == Undefined || message == Defined("")
  {
    match message
    case Undefined => false
    case Defined(m) => |m| > 0
  }

  /** `voidOk()`: the success that carries no data. */
  function VoidOk<T, E>(): (r: Result<Maybe<T>, E>)
    ensures r.OkType? && r.data == Undefined
  {
    OkType(Undefined)
  }

  /** `runOk(data)`: the success that carries `data`. */
  function RunOk<T, E>(data: T): (r: Result<T, E>)
    ensures r.OkType? && r.data == data
  {
    OkType(data)
  }

  /** `Ok()` / `Ok(data)`: `voidOk()` when the argument is undefined or omitted, `runOk(data)` otherwise. */
  function Ok<T, E>(data: Maybe<T> := Undefined): (r: Result<Maybe<T>, E>)
    ensures r.OkType? && r.data == data
  {
    if data.Undefined? then VoidOk() else RunOk(data)
  }

  /** `Err(error)`: the failure that carries `error`. */
  function Err<T, E>(error: E): (r: Result<T, E>)
    ensures r.ErrorType? && r.error == error
  {
    ErrorType(error)
  }

  /**
   * `isProblem(x)`: whether an already-unwrapped value is a Problem instance.
   * The test is `instanceof`, so a payload is answered by `payloadIsProblem`,
   * whether that payload value is itself a Problem (false for any payload type
   * other than Problem).
   */
  function IsProblem<T, E>(x: Either<T, Problem<E>>, payloadIsProblem: T -> bool): (b: bool)
    ensures x.Right? ==> b
    ensures x.Left? ==> (b <==> payloadIsProblem(x.left))
  {
    match x
    case Left(v) => payloadIsProblem(v)
    case Right(_) => true
  }

  // ---------------------------------------------------------------------------
  // Properties of the algebra

  /** `Ok()` and `Ok(undefined)` are the same void success; `assert`, `or` and `unwrap` all give undefined. */
  lemma VoidSuccess<T, E>(fallback: Maybe<T>, show: E -> Maybe<string>)
    ensures Ok<T, E>() == Ok<T, E>(Undefined) == VoidOk<T, E>()
    ensures Ok<T, E>().OkType? && Ok<T, E>().data == Undefined
    ensures Ok<T, E>().Assert(show) == Returned(Undefined)
    ensures Ok<T, E>().Or(fallback) == Undefined
    ensures Ok<T, E>().Unwrap() == Left(Undefined)
    ensures Ok<T, E>().AssertLog(show) == []
  {
  }

  /** `Ok(v)` for a defined `v` is `runOk(v)`: `ok` holds, `data` is `v`, and `assert()` returns `v`. */
  lemma DefinedSuccess<T, E>(v: T, show: E -> Maybe<string>)
    ensures Ok<T, E>(Defined(v)) == RunOk(Defined(v))
    ensures Ok<T, E>(Defined(v)).OkType? && Ok<T, E>(Defined(v)).data == Defined(v)
    ensures Ok<T, E>(Defined(v)).Assert(show) == Returned(Defined(v))
  {
  }

  /** `Ok(v).or(f)` is `v` whatever the fallback. */
  lemma OrOnSuccess<T, E>(v: T, f: T)
    ensures RunOk<T, E>(v).Or(f) == v
  {
  }

  /** `Ok(v).unwrap()` is `v` itself, never wrapped, so `isProblem` of it is false unless `v` is a Problem. */
  lemma UnwrapOnSuccess<T, E>(v: T, payloadIsProblem: T -> bool)
    ensures RunOk<T, E>(v).Unwrap() == Left(v)
    ensures !payloadIsProblem(v) ==> !IsProblem(RunOk<T, E>(v).Unwrap(), payloadIsProblem)
  {
  }

  /** `Err(e)` is a failure carrying `e`, and `Err(e).or(f)` is `f` for every fallback. */
  lemma OrOnFailure<T, E>(e: E, f: T)
    ensures Err<T, E>(e).ErrorType? && Err<T, E>(e).error == e
    ensures Err<T, E>(e).Or(f) == f
  {
  }

  /** `Err(e).unwrap()` is a Problem whose `error` is `e`. */
  lemma UnwrapOnFailure<T, E>(e: E, payloadIsProblem: T -> bool)
    ensures Err<T, E>(e).Unwrap() == Right(Problem(e))
    ensures IsProblem(Err<T, E>(e).Unwrap(), payloadIsProblem)
  {
  }

  /**
   * `Err(e).assert()` never returns: it throws an Error whose message is
   * `e?.toString()` ("" when that is undefined), and it logs `e` first exactly
   * when that string form is empty or undefined.
   */
  lemma AssertOnFailure<T, E>(e: E, show: E -> Maybe<string>)
    ensures Err<T, E>(e).Assert(show) == Threw(NewError(show(e)))
    ensures Err<T, E>(e).Assert(show).thrown.message == StrField(ErrorMessage(show(e)))
    ensures Err<T, E>(e).AssertLog(show) == (if Truthy(show(e)) then [] else [e])
  {
  }

  /**
   * `isProblem` of an unwrapped Result holds exactly when the Result was a
   * failure, or a success whose payload is itself a Problem instance.
   */
  lemma IsProblemOfUnwrap<T, E>(r: Result<T, E>, payloadIsProblem: T -> bool)
    ensures IsProblem(r.Unwrap(), payloadIsProblem) <==> r.ErrorType? || payloadIsProblem(r.data)
    ensures r.ErrorType? ==> r.Unwrap().right.error == r.error
  {
  }

  /**
   * A success whose payload is a Problem unwraps to a value that `isProblem`
   * accepts, and to the very Problem that the failure carrying the same error
   * unwraps to: the unwrapped values alone cannot tell the two Results apart.
   */
  lemma ProblemPayload<E>(p: Problem<E>)
    ensures IsProblem(RunOk<Problem<E>, E>(p).Unwrap(), (_: Problem<E>) => true)
    ensures RunOk<Problem<E>, E>(p).Unwrap().left == Err<Problem<E>, E>(p.error).Unwrap().right
    ensures RunOk<Problem<E>, E>(p) != Err<Problem<E>, E>(p.error)
  {
  }

  /**
   * The three levels of strictness agree: `or(f)` is the unwrapped payload, or
   * `f` when unwrapping made a Problem, and `assert()` returns exactly when
   * unwrapping did not make a Problem, returning the unwrapped value.
   */
  lemma StrictnessLevelsAgree<T, E>(r: Result<T, E>, f: T, show: E -> Maybe<string>)
    ensures r.Or(f) == (if r.Unwrap().Right? then f else r.Unwrap().left)
    ensures r.Assert(show).Returned? <==> r.Unwrap().Left?
    ensures r.Assert(show).Returned? ==> r.Assert(show).value == r.Unwrap().left
  {
  }
}
