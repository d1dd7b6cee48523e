/**
 * The few JavaScript value semantics the thermostat bridge relies on:
 * `undefined` for absent record fields, `NaN` from a failed `Number()`
 * conversion, `<` that is false whenever a side is not a number, and
 * truthiness of `number | undefined`.
 */
module JsValue {

  /** `undefined` (None) or a present value */
  datatype Option<+T> = None | Some(value: T)

  /** A JavaScript number as the core produces them: NaN or a finite value */
  datatype Num = NaN | Val(r: real)

  /** `a < b`: false as soon as either side is NaN */
  predicate Less(a: Num, b: Num) {
    a.Val? && b.Val? && a.r < b.r
  }

  /** `a + k` for a number literal `k`: NaN stays NaN */
  function Add(a: Num, k: real): (s: Num)
    ensures s.Val? <==> a.Val?
    ensures a.Val? ==> Less(a, s) == (k > 0.0)
  {
    match a
    case NaN => NaN
    case Val(r) => Val(r + k)
  }

  /** `a < b` on `number | undefined`: `undefined` compares false both ways */
  predicate LessOpt(a: Option<Num>, b: Option<Num>) {
    a.Some? && b.Some? && Less(a.value, b.value)
  }

  /** Truthiness of `number | undefined`: undefined, NaN and 0 are falsy */
  predicate Truthy(a: Option<Num>) {
    a.Some? && a.value.Val? && a.value.r != 0.0
  }
}
