/** The value `JSON.parse` hands back, with the JavaScript operations the application performs on
    it: truthiness (`if (data)`, `data && data.signal`), `typeof x === 'number'`,
    `Array.isArray`, reading and assigning a property, and `toString()`.

    JSON.parse itself is not defined here: wherever it is called it is a parameter of type
    `string -> Option<Json>`, whose `None` stands for the SyntaxError it throws. */
module JsonValue {
  import opened Maybe
  import opened JsString

  /** Objects are finite maps: JSON.parse keeps the last of duplicated keys, and nothing in the
      modelled code observes key order. */
  datatype Json =
    | JNull
    | JBool(b: bool)
    | JNum(n: real)
    | JStr(s: string)
    | JArr(items: seq<Json>)
    | JObj(fields: map<string, Json>)

  /** JavaScript truthiness. NaN cannot come out of JSON.parse, so a number is falsy only when 0. */
  predicate Truthy(j: Json) {
    match j
    case JNull => false
    case JBool(b) => b
    case JNum(n) => n != 0.0
    case JStr(s) => s != ""
    case JArr(_) => true
    case JObj(_) => true
  }

  /** An optional value as JavaScript tests it: `undefined` (None) is falsy. */
  predicate TruthyOpt(v: Option<Json>) {
    v.Some? && Truthy(v.value)
  }

  /** `j.key` for a non-null value: only objects carry the keys the application reads (none of
      them is inherited from a prototype or is `length`), so arrays, strings, numbers and booleans
      yield `undefined`. Reading a key of `null` throws, which callers rule out first. */
  function Get(j: Json, key: string): (v: Option<Json>)
    ensures v.Some? <==> j.JObj? && key in j.fields
    ensures v.Some? ==> v.value == j.fields[key]
  {
    if j.JObj? && key in j.fields then Some(j.fields[key]) else None
  }

  /** `obj.key = value` on an object. */
  function Set(j: Json, key: string, value: Json): (r: Json)
    requires j.JObj?
    ensures r.JObj? && r.fields.Keys == j.fields.Keys + {key}
    ensures r.fields[key] == value
    ensures forall k | k in j.fields && k != key :: r.fields[k] == j.fields[k]
  {
    JObj(j.fields[key := value])
  }

  /** `Array.isArray(v)` on an optional value. */
  predicate IsArray(v: Option<Json>) {
    v.Some? && v.value.JArr?
  }

  /** `typeof v === 'number'` on an optional value. */
  predicate IsNumber(v: Option<Json>) {
    v.Some? && v.value.JNum?
  }

  /** Converting the value to a string inside `join` throws a TypeError. That happens for an
      object with its own `toString` property, which JSON can only make a non-function, directly
      or inside nested arrays. A null element is written as the empty string there and does not
      throw. */
  predicate JoinThrows(j: Json)
    decreases j
  {
    match j
    case JObj(fields) => "toString" in fields
    case JArr(items) => exists i | 0 <= i < |items| :: JoinThrows(items[i])
    case _ => false
  }

  /** `j.toString()` throws a TypeError: on null, and wherever `join` would. */
  predicate ToStringThrows(j: Json) {
    j.JNull? || JoinThrows(j)
  }

  /** `j.toString()` where it does not throw. `showNum` is Number.prototype.toString, which is
      not part of this model. Arrays join their elements with commas, writing null elements as
      the empty string; objects without their own `toString` print as "[object Object]". */
  function ToJsString(j: Json, showNum: real -> string): string
    decreases j
  {
    match j
    case JNull => "null"
    case JBool(b) => if b then "true" else "false"
    case JNum(n) => showNum(n)
    case JStr(s) => s
    case JObj(_) => "[object Object]"
    case JArr(items) =>
      Join(seq(|items|, i requires 0 <= i < |items| =>
                 if items[i].JNull? then "" else ToJsString(items[i], showNum)), ",")
  }
}
