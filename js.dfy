/** JavaScript run-time values as the error-handling library observes them. */
module Js {

  /** A value of type `T | undefined`: an optional argument, or a payload that may be `undefined`. */
  datatype Maybe<+T> = Undefined | Defined(value: T)

  /** What `typeof item.message` finds on an object: no such property, a string, or something else. */
  datatype Field = Absent | StrField(text: string) | NonString

  /**
   * An arbitrary JavaScript value, as far as the library distinguishes values.
   * `JsObject` is anything whose `typeof` is "object" (plain objects, arrays,
   * class instances, Error instances); `rest` stands for its identity and every
   * other property. `JsOther` is every remaining value (numbers, booleans,
   * bigints, symbols, functions), identified by an opaque handle.
   */
  datatype JsValue =
    | JsUndefined
    | JsNull
    | JsString(s: string)
    | JsObject(message: Field, errorInstance: bool, rest: nat)
    | JsOther(handle: nat)

  /**
   * How a call ended: it returned a value, or it threw one. For an asynchronous
   * call this is how the awaited promise settled: fulfilled, or rejected.
   */
  datatype Outcome<+T> = Returned(value: T) | Threw(thrown: JsValue)

  /** The `message` property `new Error(message)` gets: the argument, or "" when it is undefined. */
  function ErrorMessage(message: Maybe<string>): (text: string)
    ensures message.Defined? ==> text == message.value
    ensures message.Undefined? ==> text == ""
  {
    match message
    case Undefined => ""
    case Defined(m) => m
  }

  /** A fresh `new Error(message)`; its stack and identity are not modelled. */
  function NewError(message: Maybe<string>): (e: JsValue)
    ensures e.JsObject? && e.errorInstance
    ensures e.message == StrField(ErrorMessage(message))
  {
    JsObject(StrField(ErrorMessage(message)), true, 0)
  }
}
