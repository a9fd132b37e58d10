/**
  The JSON-like values the auditor walks: what `item.get_data()` returns
  once parsed, i.e. dicts, lists and scalars.
 */
module JsonValue {

  datatype Json =
    | JNull
    | JBool(b: bool)
    | JNum(n: int)
    | JStr(s: string)
    | JArr(elems: seq<Json>)
    | JObj(members: seq<Member>)

  /** One key/value entry of a dict, in the dict's iteration order. */
  datatype Member = Member(key: string, value: Json)

  /** Python truthiness of a parsed JSON value (`if item_data:`). */
  predicate Truthy(j: Json) {
    match j
    case JNull => false
    case JBool(b) => b
    case JNum(n) => n != 0
    case JStr(s) => |s| > 0
    case JArr(es) => |es| > 0
    case JObj(ms) => |ms| > 0
  }
}
