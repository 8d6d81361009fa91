/** JavaScript values as the state container sees them at run time.
    The TypeScript type parameter `T` of `LocalState<T>` is erased at run time,
    so a snapshot is an object: a map from property names to values. */
module JsValue {

  /** A JavaScript value. Numbers are modelled as integers. */
  datatype Value =
    | Undefined
    | Null
    | Bool(b: bool)
    | Num(n: int)
    | Str(s: string)
    | Arr(items: seq<Value>)
    | Obj(fields: map<string, Value>)

  /** A full state value: an object with one entry per own property. */
  type Snapshot = map<string, Value>

  /** The property read `x[key]`: a missing property reads as `undefined`. */
  function Lookup(s: Snapshot, key: string): Value
  {
    if key in s then s[key] else Undefined
  }
}
