/**
 * Decoded JSON values as the Python code sees them (`dict`, `list`, `str`,
 * `int`, `bool`, `None`), with the few Python operations the core applies to
 * them: truthiness, hashability, `key in value`, `value[key]` and `dict.get`.
 */
module PyJson {
  import opened Results
  import Text

  /** A decoded JSON document; objects are `dict`s keyed by strings. */
  datatype Json =
    | JNull
    | JBool(b: bool)
    | JNum(n: int)
    | JStr(s: string)
    | JArray(items: seq<Json>)
    | JObject(fields: map<string, Json>)

  /** The Python exceptions raised by misusing a value of the wrong shape. */
  datatype PyError =
    | TypeError          // not subscriptable by a string, not a container, not iterable, or unhashable
    | KeyError(key: Json) // `d[key]` on a dict without that key

  /** Python truthiness: `None`, `False`, `0`, `""`, `[]` and `{}` are false, everything else true. */
  predicate Truthy(v: Json) {
    match v
    case JNull => false
    case JBool(b) => b
    case JNum(n) => n != 0
    case JStr(s) => s != ""
    case JArray(a) => a != []
    case JObject(m) => m != map[]
  }

  /** Values usable as a `set` element or `dict` key: lists and dicts are not. */
  predicate Hashable(v: Json) {
    !v.JArray? && !v.JObject?
  }

  /** Python's `key in v` for a string `key`: key membership on a dict, substring on a str, element on a list, `TypeError` otherwise. */
  function Contains(v: Json, key: string): (r: Result<bool, PyError>)
    ensures v.JObject? ==> r == Ok(key in v.fields)
    ensures r.Err? <==> !(v.JObject? || v.JStr? || v.JArray?)
  {
    match v
    case JObject(m) => Ok(key in m)
    case JStr(s) => Ok(Text.IsInfix(key, s))
    case JArray(a) => Ok(JStr(key) in a)
    case _ => Err(TypeError)
  }

  /** Python's `v[key]` for a string `key`: only a dict holding `key` yields a value. */
  function Subscript(v: Json, key: string): (r: Result<Json, PyError>)
    ensures r.Ok? <==> (v.JObject? && key in v.fields)
    ensures r.Ok? ==> r.value == v.fields[key]
    ensures v.JObject? && key !in v.fields ==> r == Err(KeyError(JStr(key)))
    ensures !v.JObject? ==> r == Err(TypeError)
  {
    match v
    case JObject(m) => if key in m then Ok(m[key]) else Err(KeyError(JStr(key)))
    case _ => Err(TypeError)
  }

  /** Python's `d.get(key, default)` on a dict's fields. */
  function Get(fields: map<string, Json>, key: string, default: Json): Json {
    if key in fields then fields[key] else default
  }

  /** A dict carrying an `id` key. */
  predicate HasId(v: Json) {
    v.JObject? && "id" in v.fields
  }

  /** The `id` of a node that has one. */
  function IdOf(v: Json): Json
    requires HasId(v)
  {
    v.fields["id"]
  }

  /** The ids of those nodes that are dicts with an `id`. */
  ghost function IdsOf(nodes: seq<Json>): set<Json> {
    set i | 0 <= i < |nodes| && HasId(nodes[i]) :: IdOf(nodes[i])
  }

  /** A string field of a dict, for examples: `{"key": "value"}`. */
  function Field(key: string, value: string): (m: map<string, Json>)
    ensures m.Keys == {key} && m[key] == JStr(value)
  {
    map[key := JStr(value)]
  }
}
