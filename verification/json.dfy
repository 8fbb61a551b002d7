/**
  The already-parsed JSON value of an inbound MQTT message, with the two
  Python notions the command handler depends on: truthiness (`if command_key:`)
  and hashability (`command_key in dict` raises `TypeError` for a list or a dict).
 */
module Json {
  import opened Base

  /** JSON numbers are integers here: the handler only asks whether a number
      is zero, and a number is never a command key. */
  datatype JsonValue =
    | JNull
    | JBool(b: bool)
    | JNum(n: int)
    | JStr(s: string)
    | JArr(items: seq<JsonValue>)
    | JObj(members: seq<(string, JsonValue)>)

  /** `dict.get(key)` on an object as `json.loads` builds it: when a key is
      repeated, the last occurrence wins. */
  function Get(members: seq<(string, JsonValue)>, key: string): (r: Option<JsonValue>)
    ensures r.Some? ==> exists i :: 0 <= i < |members| && members[i] == (key, r.value)
                                  && forall j :: i < j < |members| ==> members[j].0 != key
    ensures r.None? ==> forall i :: 0 <= i < |members| ==> members[i].0 != key
  {
    if |members| == 0 then None
    else if members[|members| - 1].0 == key then Some(members[|members| - 1].1)
    else Get(members[..|members| - 1], key)
  }

  predicate Truthy(v: JsonValue)
  {
    match v
    case JNull => false
    case JBool(b) => b
    case JNum(n) => n != 0
    case JStr(s) => |s| > 0
    case JArr(items) => |items| > 0
    case JObj(members) => |members| > 0
  }

  predicate Hashable(v: JsonValue)
  {
    !v.JArr? && !v.JObj?
  }
}
