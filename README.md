# ts-handling in Dafny

A model of `ts-handling`, a small TypeScript error-handling library. The library offers `Ok` and `Err` in place of throw and catch. A value built by either of them carries:

- `ok`, the tag that says which variant it is;
- `data` or `error`;
- three ways out, in rising strictness: `or(fallback)`, `unwrap()` together with `isProblem`, and `assert()`.

A normalizer (`toString`, `toCaught`) turns any thrown JavaScript value into a message string. Two thin wrappers sit on top: `check` turns a predicate's outcome into a Result, and `mayFail` turns a call that returns or throws into a Result.

All of it is pure and is modelled as datatypes, functions and lemmas:

- `js.dfy`, module `Js`: JavaScript values.
  - `JsValue` has variants undefined, null, string, object (with its `message` property as `typeof` sees it) and other.
  - `Maybe<T>` stands for `T | undefined`.
  - `Outcome<T>` says how a call ended: it returned a value or threw one. For an async call, it says how the promise settled.
  - `NewError` builds `new Error(message)`.
- `handling.dfy`, module `Handling`: the Result algebra.
  - `Result` has the variants `OkType` and `ErrorType`, as the source's types are named.
  - Its members are `Assert`, `AssertLog`, `Or` and `Unwrap`.
  - Also here: `Problem`, `Either` (what `unwrap()` returns), `VoidOk`, `RunOk`, `Ok`, `Err` and `IsProblem`.
- `error_parser.dfy`, module `ErrorParser`: the normalizer.
  - JavaScript `slice` is modelled with its index clamping.
  - The `/^'|'$/g` replace is modelled as the left-to-right scan a global replace performs.
  - `toString` and `toCaught` are modelled as written.
  - A table of rules (`RuleOrder`) and a first-match reader (`FirstMatch`) give an independent form of "the first matching rule wins".
- `check.dfy`, module `Checking`: `check` and `checkAsync`.
- `may_fail.dfy`, module `Guarding`: `mayFail` and `mayFailAsync`.

Host behaviour whose code is not part of this model comes in as parameters:

- `flatted`'s `stringify` and `String(item)` are the two fields of `ErrorParser.Host`. `stringify` returns an `Outcome<string>`, where `Threw` means it threw.
- `error?.toString()` inside `assert()` is a caller-supplied `show: E -> Maybe<string>`, which gives `Undefined` when the error is nullish.
- The callback of `check`/`mayFail` is given as its `Outcome`, and so are the awaited promises of the async variants.

Three facts about the code, and how the model treats them:

- `isProblem` is an `instanceof` test, so a success whose payload is a Problem unwraps to a value it accepts (`Handling.ProblemPayload`).
- The quote strip removes at most one leading and one trailing `'` (`ErrorParser.ReplaceQuotes`).
- `toString` throws if `String(item)` throws; the model's `String(item)` always returns a string.

## Model

| member | source | states |
|---|---|---|
| `Js.NewError` | src/handling.ts:54 | `new Error(m)` is an Error instance whose `message` is `m`, or "" when `m` is undefined |
| `Js.ErrorMessage` | src/handling.ts:52-54 | the message `new Error(m)` stores: `m` when it is defined, "" when it is undefined |
| `Handling.VoidOk` | src/handling.ts:27-35 | the void success has `ok` true and `data` undefined |
| `Handling.RunOk` | src/handling.ts:37-45 | `runOk(v)` has `ok` true and `data` equal to `v` |
| `Handling.Ok` | src/handling.ts:21-25 | `Ok()` and `Ok(x)` give `ok` true with `data` equal to the argument (undefined when omitted), whichever of `voidOk`/`runOk` it dispatches to |
| `Handling.Err` | src/handling.ts:47-50 | `Err(e)` has `ok` false and `error` equal to `e` |
| `Handling.Result.Assert` | src/handling.ts:27-57 | `assert()` returns exactly on a success, and returns its payload; on a failure it throws an Error instance whose message is the error's string form ("" if undefined) |
| `Handling.Result.AssertLog` | src/handling.ts:52-53 | `assert()` logs at most one value: the error itself, exactly on a failure whose string form is empty or undefined |
| `Handling.Truthy` | src/handling.ts:53 | `!message` holds exactly for an undefined or empty string form |
| `Handling.Result.Or` | src/handling.ts:27-57 | `or(f)` is the payload on a success and `f` on a failure |
| `Handling.Result.Unwrap` | src/handling.ts:27-57 | `unwrap()` gives the unchanged payload exactly on a success, and a Problem carrying the error on a failure |
| `Handling.IsProblem` | src/handling.ts:63-67 | true for every Problem; for a payload, true exactly when the payload is itself a Problem instance |
| `Handling.VoidSuccess` | src/handling.ts:24-35 | `Ok()` equals `Ok(undefined)` equals `voidOk()`; `assert`, `or` (for every fallback) and `unwrap` give undefined, and nothing is logged |
| `Handling.DefinedSuccess` | src/handling.ts:37-41 | `Ok(v)` for a defined `v` is `runOk(v)`, with `data` equal to `v`, and `assert()` returns `v` |
| `Handling.OrOnSuccess` | src/handling.ts:42 | `Ok(v).or(f)` is `v` for every fallback `f` |
| `Handling.UnwrapOnSuccess` | src/handling.ts:43 | `Ok(v).unwrap()` is `v` itself, and `isProblem` of it is false when `v` is not a Problem |
| `Handling.OrOnFailure` | src/handling.ts:47-56 | `Err(e)` has `ok` false and `error` equal to `e`, and `Err(e).or(f)` is `f` for every `f` |
| `Handling.UnwrapOnFailure` | src/handling.ts:57 | `Err(e).unwrap()` is a Problem whose `error` is `e`, and `isProblem` accepts it |
| `Handling.AssertOnFailure` | src/handling.ts:51-55 | `Err(e).assert()` never returns; it throws `new Error(e?.toString())` and logs `e` exactly when that string form is falsy |
| `Handling.IsProblemOfUnwrap` | src/handling.ts:57-67 | `isProblem(r.unwrap())` holds exactly when `r` is a failure or its payload is a Problem, and the Problem carries `r`'s error |
| `Handling.ProblemPayload` | src/handling.ts:43-67 | a success whose payload is a Problem unwraps to a value `isProblem` accepts, and to the same Problem the failure with that error unwraps to, although the two Results differ |
| `Handling.StrictnessLevelsAgree` | src/handling.ts:41-57 | `or(f)` is the unwrapped payload or `f` when unwrapping made a Problem; `assert()` returns exactly when no Problem was made, and returns the unwrapped value |
| `ErrorParser.Slice` | src/error-parser.ts:23 | `slice` never returns more characters than its input has |
| `ErrorParser.SliceDropsEnds` | src/error-parser.ts:23 | `.slice(1).slice(0, -1)` is the text without its first and last character, and "" for inputs shorter than two |
| `ErrorParser.ReplaceFrom` | src/error-parser.ts:29 | the global replace scan from a position never produces more characters than remain after it |
| `ErrorParser.ReplaceFromTail` | src/error-parser.ts:29 | past the first position the replace drops exactly a trailing quote, if any, and keeps the rest in order |
| `ErrorParser.ReplaceQuotes` | src/error-parser.ts:29 | the quote-stripping replace keeps exactly the text between at most one leading and at most one trailing quote, so at most two characters go |
| `ErrorParser.ReplaceQuotesKeepsMiddle` | src/error-parser.ts:29 | the global replace scan from the first position gives the input without at most one leading and at most one trailing quote, all else kept in order |
| `ErrorParser.ReplaceQuotesUnquoted` | src/error-parser.ts:29 | text that neither begins nor ends with a quote is returned unchanged |
| `ErrorParser.FirstMatch` | src/error-parser.ts:5-30 | the rule reader gives a message exactly when some rule of the table applies |
| `ErrorParser.FirstMatchIsEarliest` | src/error-parser.ts:5-30 | the rule reader answers with the earliest applicable rule, whatever rules follow it |
| `ErrorParser.ToString` | src/error-parser.ts:5-30 | the message is that of the earliest rule of undefined, null, string `message`, string, serialize that applies; the rule-by-rule lemmas below state each case |
| `ErrorParser.HasStringMessage` | src/error-parser.ts:10-15 | the exception test holds exactly for a non-null object that has a `message` property whose value is a string |
| `ErrorParser.Stringified` | src/error-parser.ts:21-27 | a serialized text without its first and last character ("" below two characters), or `String(item)` when the serializer throws |
| `ErrorParser.Fallback` | src/error-parser.ts:21-29 | the last rule keeps the stringified text between at most one leading and one trailing quote; a serialized text of fewer than two characters gives "", and a coerced one loses at most two characters |
| `ErrorParser.ToStringFollowsRuleOrder` | src/error-parser.ts:5-30 | `toString` gives, for every value, the message of the first rule of undefined, null, message, string, serialize that applies |
| `ErrorParser.UndefinedAndNullFirst` | src/error-parser.ts:6-7 | `toString(undefined)` is "undefined" and `toString(null)` is "null", although the catch-all rule applies to them too |
| `ErrorParser.MessageVerbatim` | src/error-parser.ts:10-16 | an object with a string `message` gives that message verbatim, whatever the serializer does |
| `ErrorParser.ErrorExample` | src/tests/error.test.ts:8-10 | `toString(new Error("An Error was thrown"))` is "An Error was thrown" |
| `ErrorParser.StringVerbatim` | src/error-parser.ts:19 | a string is returned verbatim, quotes included |
| `ErrorParser.SerializedFallback` | src/error-parser.ts:21-29 | when the serializer succeeds, the message is its output without the first and last character, then without at most one leading and one trailing quote |
| `ErrorParser.CoercedFallback` | src/error-parser.ts:24-29 | when the serializer throws, the message is `String(item)` without at most one leading and one trailing quote |
| `ErrorParser.BigIntExample` | src/tests/error.test.ts:12-14 | a value the serializer refuses and `String` renders as "10" (the bigint `10n`) gives "10" |
| `ErrorParser.ObjectExample` | src/tests/error.test.ts:16-21 | an object serialized as `[{"msg":"1"},"This is an object"]` gives the text between the brackets |
| `ErrorParser.ToCaught` | src/error-parser.ts:32-37 | `toCaught(x)` has `message` equal to `toString(x)` and `exception` equal to `x` |
| `ErrorParser.CaughtKeepsException` | src/error-parser.ts:32-37 | `toCaught` keeps the original value and carries the message of the first matching rule, whichever rule fired |
| `Checking.Check` | src/check.ts:3-13 | success exactly when the predicate returned true, carrying `value` unchanged; otherwise (false or a throw) the failure carries `message` |
| `Checking.CheckAsync` | src/check.ts:15-25 | the same mapping over the settled promise: success exactly on resolution to true, otherwise the failure carries `message` |
| `Checking.ThrowLikeFalse` | src/check.ts:9-11 | a predicate that throws yields the same `Err(message)` as one that returns false |
| `Checking.TruePassesValue` | src/check.ts:9 | a predicate returning true yields `Ok(value)`, and `unwrap()` gives `value` back |
| `Checking.DefaultMessage` | src/check.ts:6 | without a message, a failed `check` or `checkAsync` reports "Check failed" |
| `Checking.AsyncAgrees` | src/check.ts:15-24 | `checkAsync` maps every settled promise exactly as `check` maps the corresponding return or throw |
| `Guarding.Caught` | src/mayFail.ts:12-15 | the catch branch always fails with the normalized message; in raw mode it carries the CaughtError holding the thrown value |
| `Guarding.MayFail` | src/mayFail.ts:6-16 | success exactly when the callback returned, carrying its value; a throw yields `Err(toString(x))`, or with `raw` `Err({message: toString(x), exception: x})` |
| `Guarding.MayFailAsync` | src/mayFail.ts:25-35 | the same mapping over how the awaited promise settled |
| `Guarding.ReturnedIsOk` | src/mayFail.ts:11 | a callback returning undefined gives the void success, one returning `v` gives `runOk(v)` |
| `Guarding.DefaultIsNotRaw` | src/mayFail.ts:8 | `raw` defaults to false, so a failure carries the message alone |
| `Guarding.ModesAgree` | src/mayFail.ts:13-14 | raw and default mode agree on success and on the message; raw mode keeps the thrown value |
| `Guarding.ThrownErrorMessage` | src/tests/mayFail.test.ts:5-21 | throwing `new Error(m)` yields `Err(m)`, and in raw mode the exception is an Error instance |
| `Guarding.UnwrapGuardedThrow` | src/tests/problem.test.ts:11-17 | unwrapping a guarded throw gives a value `isProblem` accepts, whose error is the thrown message |
| `Guarding.GuardedAssert` | src/mayFail.ts:10-15 | guarding `r.assert()` gives back a success unchanged, and turns a failure into `Err` of its string form |
| `Guarding.AsyncAgrees` | src/mayFail.ts:25-34 | `mayFailAsync` maps every settled promise exactly as `mayFail` maps the corresponding return or throw |

## Left out

- `flatted`'s `stringify` and `String(item)`: foreign code. They are the fields of `ErrorParser.Host`, so their exact encodings (the cycle-safe format in the object and class tests) are not reproduced.
- `String(item)` throwing (for an object without a prototype, say): the model's coercion always returns a string. The model also does not capture a `message` getter that throws.
- The `console.error` call in `assert()`: I/O. `Handling.Result.AssertLog` states what would be written; the channel itself is not modelled.
- `error?.toString()` throwing, or returning a non-string: `show` returns a string or undefined.
- Promise scheduling and `await` in `checkAsync` and `mayFailAsync`: only the mapping from the settled outcome is modelled.
- Object identity and the stack of the Error that `assert()` throws: values are compared structurally, and `NewError` fixes the opaque `rest` field, so two thrown Errors with the same message are equal in the model. `Problem` freshness is not modelled either.
- The compile-time types `Not`, `ExtractedResult`, `Success`, `ExtractData` and `ExtractAsyncData`: they have no run-time behaviour.
- A predicate returning a truthy non-boolean: the model takes the predicate's result to be a `bool`.
- JavaScript strings are sequences of UTF-16 code units, and `slice(1)`/`slice(0, -1)` drop one code unit; the model's `string` is a sequence of Unicode scalar values, so a text that starts or ends with a character outside the Basic Multilingual Plane is cut differently.
- Handling.Result.Unwrap: the model's `Either` keeps a Left/Right tag that the run-time value `T | Problem<E>` does not carry; only `isProblem` reads the value, and `Handling.ProblemPayload` shows that the value alone does not determine the Result.
- `src/index.ts` (re-exports only) and the test harness `src/tests/invariant.ts`: not part of this model.
