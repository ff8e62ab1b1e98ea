/** The dynamically typed JavaScript values that reach the downloader through
    its public API (configuration objects, family and subset descriptions),
    with the `typeof`, `String(...)` and `Array.from` behaviour it relies on. */
module JsValues {
  import opened Results
  import opened Strings

  /** Numbers are integers here; objects are their own enumerable string-keyed
      entries in enumeration order. */
  datatype JsValue =
    | Undefined
    | Null
    | Bool(b: bool)
    | Num(n: int)
    | Str(s: string)
    | Arr(items: seq<JsValue>)
    | Obj(entries: seq<(string, JsValue)>)

  /** The `typeof` operator. */
  function TypeOf(v: JsValue): string {
    match v
    case Undefined => "undefined"
    case Null => "object"
    case Bool(_) => "boolean"
    case Num(_) => "number"
    case Str(_) => "string"
    case Arr(_) => "object"
    case Obj(_) => "object"
  }

  /** `String(v)`; arrays join their elements with commas and print
      `undefined` and `null` elements as empty strings. */
  function ToJsString(v: JsValue): string
    decreases v, 0
  {
    match v
    case Undefined => "undefined"
    case Null => "null"
    case Bool(b) => if b then "true" else "false"
    case Num(n) => IntToString(n)
    case Str(s) => s
    case Arr(items) => Join(seq(|items|, i requires 0 <= i < |items| => ElementString(items[i])), ",")
    case Obj(_) => "[object Object]"
  }

  function ElementString(v: JsValue): string
    decreases v, 1
  {
    if v.Undefined? || v.Null? then "" else ToJsString(v)
  }

  /** `v instanceof Object`, seen through `Object.entries`: plain objects give
      their entries, arrays their indices as string keys, primitives nothing. */
  function Entries(v: JsValue): Option<seq<(string, JsValue)>> {
    match v
    case Obj(entries) => Some(entries)
    case Arr(items) => Some(seq(|items|, i requires 0 <= i < |items| => (NatToString(i), items[i])))
    case _ => None
  }

  function StrValues(parts: seq<string>): (r: seq<JsValue>)
    ensures |r| == |parts|
    ensures forall i :: 0 <= i < |r| ==> r[i] == Str(parts[i])
  {
    seq(|parts|, i requires 0 <= i < |parts| => Str(parts[i]))
  }

  /** The `arrayFrom` helper (main.js): a string is split on the delimiter,
      anything else goes through `Array.from`, which throws for `undefined`
      and `null` and yields nothing for values without a length. */
  function ArrayFrom(v: JsValue, delimiter: char): (r: Result<seq<JsValue>>)
    ensures r.Err? <==> v.Undefined? || v.Null?
    ensures v.Arr? ==> r == Ok(v.items)
    ensures v.Str? ==> r.Ok? && |r.value| >= 1 && forall i :: 0 <= i < |r.value| ==> r.value[i].Str? && delimiter !in r.value[i].s
  {
    match v
    case Str(s) => Ok(StrValues(SplitOn(s, delimiter)))
    case Arr(items) => Ok(items)
    case Undefined => Err(TypeError("Array.from requires an array-like or iterable object"))
    case Null => Err(TypeError("Array.from requires an array-like or iterable object"))
    case _ => Ok([])
  }

  /** For a string, the pieces `arrayFrom` returns put back together with the
      delimiter are the original string: nothing is lost or reordered. */
  lemma ArrayFromStringRoundTrip(s: string, delimiter: char)
    ensures ArrayFrom(Str(s), delimiter).Ok?
    ensures var items := ArrayFrom(Str(s), delimiter).value;
            Join(seq(|items|, i requires 0 <= i < |items| => items[i].s), [delimiter]) == s
  {
    var parts := SplitOn(s, delimiter);
    var items := ArrayFrom(Str(s), delimiter).value;
    assert seq(|items|, i requires 0 <= i < |items| => items[i].s) == parts;
    JoinSplit(s, delimiter);
  }
}
