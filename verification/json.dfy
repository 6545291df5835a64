/** JSON values as JavaScript sees them after `JSON.parse`, plus the two pieces of
    JavaScript semantics the modelled code applies to them: property lookup and truthiness. */
module Json {
  import opened Options

  /** A JSON value. Numbers are integers; objects keep their members in insertion order. */
  datatype Json =
    | JNull
    | JBool(b: bool)
    | JNum(n: int)
    | JStr(s: string)
    | JArr(items: seq<Json>)
    | JObj(fields: seq<Field>)

  datatype Field = Field(key: string, value: Json)

  /** Whether the value is a JavaScript object (`typeof v === 'object' && v !== null`). */
  predicate IsObjectLike(j: Json) {
    j.JArr? || j.JObj?
  }

  /** The keys of an object, in order. */
  function Keys(fields: seq<Field>): (ks: seq<string>)
    ensures |ks| == |fields|
    ensures forall i :: 0 <= i < |fields| ==> ks[i] == fields[i].key
  {
    if |fields| == 0 then [] else [fields[0].key] + Keys(fields[1..])
  }

  /** `obj[key]` on an object's members; the last duplicate wins, as with `JSON.parse`. */
  function Lookup(fields: seq<Field>, key: string): (r: Option<Json>)
    ensures r.None? <==> forall i :: 0 <= i < |fields| ==> fields[i].key != key
    ensures r.Some? ==> exists i :: 0 <= i < |fields| && fields[i].key == key && fields[i].value == r.value
                                  && forall j :: i < j < |fields| ==> fields[j].key != key
  {
    if |fields| == 0 then None
    else if fields[|fields| - 1].key == key then Some(fields[|fields| - 1].value)
    else Lookup(fields[..|fields| - 1], key)
  }

  /** `v.key` for a value that is not `null`: only objects have members. */
  function Member(j: Json, key: string): Option<Json> {
    if j.JObj? then Lookup(j.fields, key) else None
  }

  /** JavaScript truthiness of a JSON value. */
  predicate Truthy(j: Json) {
    match j
    case JNull => false
    case JBool(b) => b
    case JNum(n) => n != 0
    case JStr(s) => |s| > 0
    case _ => true
  }
}
