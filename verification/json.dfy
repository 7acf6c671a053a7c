/**
 * The JSON values a field of a parsed frame can hold, and JavaScript's
 * truthiness test on them (`!x` in a guard).
 */
module Json {

  /** `Absent` is a key the parsed object does not have (reads as `undefined`);
      `Composite` is any array or object, which JavaScript always treats as truthy. */
  datatype JsValue =
    | Absent
    | Null
    | Bool(b: bool)
    | Number(n: real)
    | Str(s: string)
    | Composite

  /** JavaScript truthiness for values that can come out of `JSON.parse`
      (JSON has no NaN, so the only falsy number is zero). */
  predicate Truthy(v: JsValue) {
    match v
    case Absent => false
    case Null => false
    case Bool(b) => b
    case Number(n) => n != 0.0
    case Str(s) => s != ""
    case Composite => true
  }
}
