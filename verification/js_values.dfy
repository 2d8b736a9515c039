/**
 Values that the JavaScript code tests for truthiness. A field read from a
 parsed JSON document or a query string may be missing (`undefined`), `null`,
 or a string; only a non-empty string is truthy.
 */
module JsValues {
  import opened Wrappers

  datatype JsString = Undefined | Null | Str(text: string)

  /** JavaScript truthiness of a string-valued field: `""`, `null` and `undefined` are falsy. */
  predicate Truthy(v: JsString)
  {
    v.Str? && |v.text| > 0
  }

  /** The idiom `v || null`: a truthy string is kept, every falsy value becomes `null`. */
  function OrNull(v: JsString): (r: Option<string>)
    ensures r.Some? <==> Truthy(v)
    ensures r.Some? ==> v == Str(r.value) && r.value != ""
  {
    if Truthy(v) then Some(v.text) else None
  }
}
