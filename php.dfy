/** PHP values, as far as the soft-delete rules need to tell them apart:
    their type (for strict comparison) and their boolean conversion. */
module Php {

  /** A PHP value. Two scalars (booleans, integers, strings) or nulls are
      identical (`===`) exactly when they are equal as Dafny values: same
      variant, same payload. Objects (`Timestamp`, `Other`) are identical in
      PHP only to the same instance, which this equality does not capture;
      strict matching here is only ever against scalars. */
  datatype Value =
    | Bool(b: bool)
    | Int(i: int)
    | Str(s: string)
    | Timestamp(instant: int)         // a Carbon date-time object
    | Null
    | Other(id: int, truthy: bool)    // floats, arrays and other objects, with their boolean conversion

  /** PHP's boolean conversion of a string: only "" and "0" convert to false. */
  predicate StringTruthy(s: string)
  {
    s != "" && s != "0"
  }

  /** PHP's boolean conversion of a value (`(bool) $v`, or `$v ? … : …`). */
  predicate Truthy(v: Value)
  {
    match v
    case Bool(b) => b
    case Int(i) => i != 0
    case Str(s) => StringTruthy(s)
    case Timestamp(_) => true
    case Null => false
    case Other(_, t) => t
  }

  /** `in_array($v, $items, true)`: some element of `items` is identical to `v`. */
  function ContainsStrict(items: seq<Value>, v: Value): (found: bool)
    ensures found <==> v in items
  {
    if items == [] then false
    else items[0] == v || ContainsStrict(items[1..], v)
  }
}
