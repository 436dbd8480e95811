/**
 * JSON values as the browser tools hold them after `JSON.parse`: objects
 * keep their keys in insertion order. Numbers are integers here.
 */
module JsonValues {
  import opened Wrappers
  import opened Strings
  import opened Dicts

  datatype Json =
    | JNull
    | JBool(b: bool)
    | JNum(n: int)
    | JStr(s: string)
    | JArr(items: seq<Json>)
    | JObj(obj: ODict<string, Json>)

  /** JavaScript truthiness. */
  predicate Truthy(v: Json) {
    match v
    case JNull => false
    case JBool(b) => b
    case JNum(n) => n != 0
    case JStr(s) => s != ""
    case JArr(_) => true
    case JObj(_) => true
  }

  /** `typeof v === 'object'`: true for `null`, arrays and objects. */
  predicate IsObjectType(v: Json) {
    v.JNull? || v.JArr? || v.JObj?
  }

  /** `v[key]` for an object; `None` is `undefined`. */
  function Member(v: Json, key: string): Option<Json> {
    if v.JObj? then Get(v.obj, key) else None
  }

  /** `v || {}` for an optional value. */
  function OrEmptyObject(v: Option<Json>): Json {
    if v.Some? && Truthy(v.value) then v.value else JObj(Empty())
  }

  /** The own enumerable properties, as `Object.keys` and the spread operator list them. */
  function OwnEntries(v: Json): (es: seq<(string, Json)>)
    ensures v.JObj? ==> es == Items(v.obj)
    ensures v.JArr? ==> |es| == |v.items| && forall i :: 0 <= i < |es| ==> es[i] == (IntToDecimal(i), v.items[i])
    ensures !(v.JObj? || v.JArr? || v.JStr?) ==> es == []
  {
    match v
    case JObj(d) => Items(d)
    case JArr(items) => seq(|items|, i requires 0 <= i < |items| => (IntToDecimal(i), items[i]))
    case JStr(s) => seq(|s|, i requires 0 <= i < |s| => (IntToDecimal(i), JStr([s[i]])))
    case _ => []
  }

  /** `{ ...v }`. */
  function Spread(v: Json): ODict<string, Json> {
    FromPairs(OwnEntries(v))
  }

  /** Spreading an object copies it as it is: same keys, same order, same values; spreading `null` gives `{}`. */
  lemma SpreadObject(v: Json)
    ensures v.JObj? ==> Spread(v) == v.obj
    ensures v.JNull? ==> Spread(v) == Empty()
  {
    if v.JObj? {
      ItemsFromPairs(v.obj);
    }
  }
}
