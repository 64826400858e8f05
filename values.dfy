/** JavaScript values as the widget sees them, and the two JavaScript tests the
    widget relies on: truthiness (`if (x)`, `x ? a : b`) and nullishness (`x ?? d`). */
module JsValues {

  datatype Option<+T> = None | Some(value: T)

  /** A host row id. The host numbers its rows with integers. */
  type Id = int

  /** A JavaScript value. Numbers are kept exact (`Num`), except the one
      non-number the widget can produce, NaN (`undefined / 1000`).
      A `Date` holds its epoch time in milliseconds, or `None` for an Invalid Date. */
  datatype Value =
    | Undefined
    | Null
    | Bool(b: bool)
    | Num(x: real)
    | NaN
    | Str(s: string)
    | Date(time: Option<int>)

  /** JavaScript's ToBoolean: the falsy values are undefined, null, false, 0, NaN and "". */
  predicate Truthy(v: Value)
  {
    match v
    case Undefined => false
    case Null => false
    case Bool(b) => b
    case Num(x) => x != 0.0
    case NaN => false
    case Str(s) => s != ""
    case Date(_) => true
  }

  /** The values for which `??` takes its right-hand side. */
  predicate IsNullish(v: Value)
  {
    v.Undefined? || v.Null?
  }

  /** Truthiness of an optional id field such as `this._selectedRecordId`:
      absent (undefined) and 0 are falsy. */
  predicate IdTruthy(id: Option<Id>)
  {
    id.Some? && id.value != 0
  }

  /** `obj.key` on a plain object: absent keys read as undefined. */
  function Get(obj: map<string, Value>, key: string): (v: Value)
    ensures key in obj ==> v == obj[key]
    ensures key !in obj ==> v.Undefined?
  {
    if key in obj then obj[key] else Undefined
  }
}
