/** JSON values as serde_json parses them. */
module Json {
  import opened Prelude

  /** `as_u64` reads exactly the non-negative integers; every other number keeps its spelling. */
  datatype Num = U64(n: nat) | OtherNumber(spelling: string)

  datatype Value =
    | Null
    | Bool(b: bool)
    | Number(num: Num)
    | Str(s: string)
    | Array(items: seq<Value>)
    | Object(fields: map<string, Value>)

  /** `Value::get(key)`. */
  function Get(v: Value, key: string): Option<Value> {
    if v.Object? && key in v.fields then Some(v.fields[key]) else None
  }

  /** `Value::as_u64`. */
  function AsU64(v: Value): Option<nat> {
    if v.Number? && v.num.U64? then Some(v.num.n) else None
  }

  /** `get(key).and_then(Value::as_str)`. */
  function GetStr(v: Value, key: string): Option<string> {
    var got := Get(v, key);
    if got.Some? && got.value.Str? then Some(got.value.s) else None
  }

  /** `get(key).and_then(Value::as_u64)`. */
  function GetU64(v: Value, key: string): Option<nat> {
    var got := Get(v, key);
    if got.Some? then AsU64(got.value) else None
  }
}
