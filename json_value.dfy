/**
  Values of the JSON documents the two engines read and write, and the small
  part of Python's dictionary protocol the engines rely on: `dict.get`,
  truthiness, and the `or` operator.
*/
module JsonValue {

  datatype Json =
    | JNull
    | JBool(b: bool)
    | JNum(n: real)
    | JStr(s: string)
    | JArr(items: seq<Json>)
    | JObj(fields: map<string, Json>)

  /** A JSON object (a Python `dict` with string keys). Key order is not modelled. */
  type Dict = map<string, Json>

  /** `d.get(key)`: the stored value, or `None` when the key is missing. */
  function Get(d: Dict, key: string): Json
  {
    if key in d then d[key] else JNull
  }

  /** `d.get(key, default)`: the default is used only when the key is missing. */
  function GetOr(d: Dict, key: string, default: Json): Json
  {
    if key in d then d[key] else default
  }

  /** Python truthiness of a JSON value. */
  predicate Truthy(j: Json)
  {
    match j
    case JNull => false
    case JBool(b) => b
    case JNum(n) => n != 0.0
    case JStr(s) => s != ""
    case JArr(items) => items != []
    case JObj(fields) => |fields| != 0
  }

  /** Python's `a or b`: `a` when it is truthy, `b` otherwise. */
  function Or(a: Json, b: Json): Json
  {
    if Truthy(a) then a else b
  }
}
