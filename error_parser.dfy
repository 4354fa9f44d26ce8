/**
 * The error normalizer: `toString` maps any thrown value to a message by a
 * fixed first-match rule order, and `toCaught` pairs that message with the
 * value itself.
 */
module ErrorParser {
  import opened Js

  /**
   * The host functions the normalizer calls and whose code is not part of
   * this model: `flatted`'s `stringify` (which either returns a string or
   * throws) and the default coercion `String(item)`.
   */
  datatype Host = Host(stringify: JsValue -> Outcome<string>, coerce: JsValue -> string)

  /** `CaughtError`: the normalized form of a thrown value. */
  datatype CaughtError = CaughtError(message: string, exception: JsValue)

  const Quote: char := '\''

  // ---------------------------------------------------------------------------
  // String.prototype.slice

  /** How `slice` clamps an index: negative indices count from the end, and the result lies in [0, len]. */
  function RelativeIndex(len: nat, k: int): (i: nat)
    ensures i <= len
  {
    if k < 0 then (if len + k > 0 then len + k else 0)
    else if k < len then k
    else len
  }

  /** `s.slice(start, end)`, `end` omitted when `Undefined`. */
  function Slice(s: string, start: int, end: Maybe<int> := Undefined): (r: string)
    ensures |r| <= |s|
  {
    var from := RelativeIndex(|s|, start);
    var to := if end.Undefined? then |s| else RelativeIndex(|s|, end.value);
    if from < to then s[from..to] else ""
  }

  /** `s.slice(1).slice(0, -1)` drops the first and the last character, and leaves "" of anything shorter than two. */
  lemma SliceDropsEnds(s: string)
    ensures Slice(Slice(s, 1), 0, Defined(-1)) == if |s| < 2 then "" else s[1..|s| - 1]
  {
    if |s| >= 2 {
      assert Slice(s, 1) == s[1..];
      assert s[1..][0..|s| - 2] == s[1..|s| - 1];
    }
  }

  // ---------------------------------------------------------------------------
  // String.prototype.replace(/^'|'$/g, "")

  /** Whether `/^'|'$/` matches at position `i`: a quote that is the first or the last character. */
  predicate QuoteMatchAt(s: string, i: nat) {
    i < |s| && s[i] == Quote && (i == 0 || i == |s| - 1)
  }

  /**
   * The global replace from position `i` on. The pattern only ever matches
   * one character, so the scan tries each position in turn, drops a matched
   * quote and keeps every other character.
   */
  function ReplaceFrom(s: string, i: nat): (r: string)
    requires i <= |s|
    ensures |r| <= |s| - i
    decreases |s| - i
  {
    if i == |s| then ""
    else if QuoteMatchAt(s, i) then ReplaceFrom(s, i + 1)
    else [s[i]] + ReplaceFrom(s, i + 1)
  }

  /**
   * `s.replace(/^'|'$/g, "")`: the input without at most one leading and at
   * most one trailing quote, everything between them kept in order.
   */
  function ReplaceQuotes(s: string): (r: string)
    ensures r == s[KeptFrom(s)..KeptTo(s)]
    ensures |s| - 2 <= |r| <= |s|
  {
    ReplaceQuotesKeepsMiddle(s);
    ReplaceFrom(s, 0)
  }

  /** Where the text kept by the quote strip begins: after one leading quote, if there is one. */
  function KeptFrom(s: string): nat {
    if |s| > 0 && s[0] == Quote then 1 else 0
  }

  /** Where the kept text ends: before one trailing quote, unless that quote was the leading one. */
  function KeptTo(s: string): (j: nat)
    ensures KeptFrom(s) <= j <= |s|
  {
    if |s| > KeptFrom(s) && s[|s| - 1] == Quote then |s| - 1 else |s|
  }

  /** Past the first position the scan drops only a trailing quote. */
  lemma {:induction false} ReplaceFromTail(s: string, i: nat)
    requires 1 <= i <= |s|
    ensures ReplaceFrom(s, i) == (if i < |s| && s[|s| - 1] == Quote then s[i..|s| - 1] else s[i..])
    decreases |s| - i
  {
    if i < |s| {
      ReplaceFromTail(s, i + 1);
      if i < |s| - 1 {
        assert !QuoteMatchAt(s, i);
        if s[|s| - 1] == Quote {
          assert [s[i]] + s[i + 1..|s| - 1] == s[i..|s| - 1];
        } else {
          assert [s[i]] + s[i + 1..] == s[i..];
        }
      }
    }
  }

  /**
   * The global replace scan removes at most one leading and at most one
   * trailing quote and keeps everything between them, in order.
   */
  lemma ReplaceQuotesKeepsMiddle(s: string)
    ensures ReplaceFrom(s, 0) == s[KeptFrom(s)..KeptTo(s)]
  {
    if |s| > 0 {
      ReplaceFromTail(s, 1);
      if s[0] != Quote {
        assert !QuoteMatchAt(s, 0);
        if |s| > 1 && s[|s| - 1] == Quote {
          assert [s[0]] + s[1..|s| - 1] == s[0..|s| - 1];
        } else {
          assert [s[0]] + s[1..] == s;
        }
      }
    }
  }

  /** A text that neither begins nor ends with a quote passes the quote strip unchanged. */
  lemma ReplaceQuotesUnquoted(s: string)
    requires |s| == 0 || (s[0] != Quote && s[|s| - 1] != Quote)
    ensures ReplaceQuotes(s) == s
  {
  }

  // ---------------------------------------------------------------------------
  // toString

  /**
   * Whether `item` is an object with a string-valued `message` (the exception
   * shape): a non-null object, having a `message` property, of type string.
   */
  function HasStringMessage(item: JsValue): (b: bool)
    ensures b <==> item.JsObject? && item.message != Absent && !item.message.NonString?
  {
    match item
    case JsObject(StrField(_), _, _) => true
    case _ => false
  }

  /** The try/catch of the last rule: the serializer's output inside its outer brackets, or `String(item)` when it throws. */
  function Stringified(item: JsValue, host: Host): (r: string)
    ensures host.stringify(item).Returned? ==>
              var json := host.stringify(item).value;
              r == if |json| < 2 then "" else json[1..|json| - 1]
    ensures host.stringify(item).Threw? ==> r == host.coerce(item)
  {
    match host.stringify(item)
    case Returned(json) => SliceDropsEnds(json); Slice(Slice(json, 1), 0, Defined(-1))
    case Threw(_) => host.coerce(item)
  }

  /**
   * The last rule: the stringified text without at most one leading and one
   * trailing quote. A serialized text loses its first and last character too.
   */
  function Fallback(item: JsValue, host: Host): (r: string)
    ensures var s := Stringified(item, host); r == s[KeptFrom(s)..KeptTo(s)]
    ensures host.stringify(item).Returned? ==>
              var json := host.stringify(item).value;
              |r| <= |json| && (|json| < 2 ==> r == "")
    ensures host.stringify(item).Threw? ==> |host.coerce(item)| - 2 <= |r| <= |host.coerce(item)|
  {
    ReplaceQuotes(Stringified(item, host))
  }

  /**
   * `toString(item)`: undefined, null, an exception's message, a string, and
   * then the fallback, in that order. The result is the message of the
   * earliest rule of `RuleOrder` that applies to `item`.
   */
  function ToString(item: JsValue, host: Host): (r: string)
    ensures exists k :: 0 <= k < |RuleOrder| && Applies(RuleOrder[k], item)
                        && (forall j :: 0 <= j < k ==> !Applies(RuleOrder[j], item))
                        && r == Render(RuleOrder[k], item, host)
  {
    var k :=
      if item.JsUndefined? then 0
      else if item.JsNull? then 1
      else if HasStringMessage(item) then 2
      else if item.JsString? then 3
      else 4;
    assert Applies(RuleOrder[k], item);
    assert forall j :: 0 <= j < k ==> !Applies(RuleOrder[j], item);
    if item.JsUndefined? then "undefined"
    else if item.JsNull? then "null"
    else if HasStringMessage(item) then item.message.text
    else if item.JsString? then item.s
    else Fallback(item, host)
  }

  /** `toCaught(item)`: the message of `item` next to `item` itself, unchanged. */
  function ToCaught(item: JsValue, host: Host): (c: CaughtError)
    ensures c.message == ToString(item, host)
    ensures c.exception == item
  {
    CaughtError(ToString(item, host), item)
  }

  // ---------------------------------------------------------------------------
  // The rule order, as a table read by a first-match interpreter

  datatype Rule = UndefinedRule | NullRule | MessageRule | StringRule | SerializeRule

  /** The resolution order of `toString`. */
  const RuleOrder: seq<Rule> := [UndefinedRule, NullRule, MessageRule, StringRule, SerializeRule]

  predicate Applies(rule: Rule, item: JsValue) {
    match rule
    case UndefinedRule => item.JsUndefined?
    case NullRule => item.JsNull?
    case MessageRule => HasStringMessage(item)
    case StringRule => item.JsString?
    case SerializeRule => true
  }

  function Render(rule: Rule, item: JsValue, host: Host): string
    requires Applies(rule, item)
  {
    match rule
    case UndefinedRule => "undefined"
    case NullRule => "null"
    case MessageRule => item.message.text
    case StringRule => item.s
    case SerializeRule => Fallback(item, host)
  }

  /** The message of the first rule in `rules` that applies to `item`, if any does. */
  function FirstMatch(rules: seq<Rule>, item: JsValue, host: Host): (r: Maybe<string>)
    ensures r.Defined? <==> exists k :: 0 <= k < |rules| && Applies(rules[k], item)
  {
    if rules == [] then Undefined
    else if Applies(rules[0], item) then Defined(Render(rules[0], item, host))
    else
      var tail := FirstMatch(rules[1..], item, host);
      assert forall k :: 1 <= k < |rules| ==> rules[k] == rules[1..][k - 1];
      tail
  }

  /** The first-match interpreter answers with the earliest rule that applies, whatever follows it. */
  lemma {:induction false} FirstMatchIsEarliest(rules: seq<Rule>, item: JsValue, host: Host, k: nat)
    requires k < |rules| && Applies(rules[k], item)
    requires forall j :: 0 <= j < k ==> !Applies(rules[j], item)
    ensures FirstMatch(rules, item, host) == Defined(Render(rules[k], item, host))
  {
    if k > 0 {
      assert !Applies(rules[0], item);
      FirstMatchIsEarliest(rules[1..], item, host, k - 1);
    }
  }

  /** `toString` is the first matching rule of `RuleOrder`: every value gets a message. */
  lemma ToStringFollowsRuleOrder(item: JsValue, host: Host)
    ensures FirstMatch(RuleOrder, item, host) == Defined(ToString(item, host))
  {
    var k :=
      if item.JsUndefined? then 0
      else if item.JsNull? then 1
      else if HasStringMessage(item) then 2
      else if item.JsString? then 3
      else 4;
    FirstMatchIsEarliest(RuleOrder, item, host, k);
  }

  // ---------------------------------------------------------------------------
  // Properties of toString and toCaught, rule by rule

  /** undefined and null get their literal names, before any other rule looks at them. */
  lemma UndefinedAndNullFirst(host: Host)
    ensures ToString(JsUndefined, host) == "undefined"
    ensures ToString(JsNull, host) == "null"
    ensures Applies(SerializeRule, JsUndefined) && Applies(SerializeRule, JsNull)
  {
  }

  /** An object with a string `message` yields that message verbatim, whatever the serializer would say. */
  lemma MessageVerbatim(m: string, errorInstance: bool, rest: nat, host: Host)
    ensures ToString(JsObject(StrField(m), errorInstance, rest), host) == m
  {
  }

  /** `toString(new Error("An Error was thrown"))` is "An Error was thrown". */
  lemma ErrorExample(host: Host)
    ensures ToString(NewError(Defined("An Error was thrown")), host) == "An Error was thrown"
  {
  }

  /** A string is returned verbatim; in particular its quotes are not stripped. */
  lemma StringVerbatim(s: string, host: Host)
    ensures ToString(JsString(s), host) == s
    ensures ToString(JsString("'quoted'"), host) == "'quoted'"
  {
  }

  /** Whether `item` reaches the fallback rule. */
  predicate ReachesFallback(item: JsValue) {
    !item.JsUndefined? && !item.JsNull? && !HasStringMessage(item) && !item.JsString?
  }

  /**
   * When the serializer succeeds, the message is its output without the first
   * and last character, then without at most one leading and one trailing quote.
   */
  lemma SerializedFallback(item: JsValue, host: Host, json: string)
    requires ReachesFallback(item)
    requires host.stringify(item) == Returned(json)
    ensures |json| < 2 ==> ToString(item, host) == ""
    ensures |json| >= 2 ==>
              var inner := json[1..|json| - 1];
              ToString(item, host) == inner[KeptFrom(inner)..KeptTo(inner)]
  {
    SliceDropsEnds(json);
  }

  /** When the serializer throws, the message is `String(item)` without at most one leading and one trailing quote. */
  lemma CoercedFallback(item: JsValue, host: Host, x: JsValue)
    requires ReachesFallback(item)
    requires host.stringify(item) == Threw(x)
    ensures var shown := host.coerce(item);
            ToString(item, host) == shown[KeptFrom(shown)..KeptTo(shown)]
  {
  }

  /** A bigint such as `10n`, which the serializer refuses and `String` renders as "10", gives "10". */
  lemma BigIntExample(item: JsValue, host: Host, x: JsValue)
    requires item.JsOther?
    requires host.stringify(item) == Threw(x) && host.coerce(item) == "10"
    ensures ToString(item, host) == "10"
  {
    ReplaceQuotesUnquoted("10");
  }

  /** A plain object serialized as `[{"msg":"1"},"This is an object"]` gives the text inside the brackets. */
  lemma ObjectExample(item: JsValue, host: Host)
    requires item.JsObject? && item.message == Absent
    requires host.stringify(item) == Returned("[{\"msg\":\"1\"},\"This is an object\"]")
    ensures ToString(item, host) == "{\"msg\":\"1\"},\"This is an object\""
  {
    var json := "[{\"msg\":\"1\"},\"This is an object\"]";
    var inner := "{\"msg\":\"1\"},\"This is an object\"";
    SliceDropsEnds(json);
    assert json == "[" + inner + "]";
    assert json[1..|json| - 1] == inner;
    ReplaceQuotesUnquoted(inner);
  }

  /** `toCaught` keeps the original value and the message of `toString`, whichever rule fired. */
  lemma CaughtKeepsException(item: JsValue, host: Host)
    ensures ToCaught(item, host).exception == item
    ensures FirstMatch(RuleOrder, item, host) == Defined(ToCaught(item, host).message)
  {
    ToStringFollowsRuleOrder(item, host);
  }
}
