/** JSON documents as the pipeline templates hold them (`serde_json::Value`). */
module JsonTree {

  datatype Json =
    | JNull
    | JBool(b: bool)
    | JNumber(n: int)
    | JString(s: string)
    | JArray(items: seq<Json>)
    | JObject(fields: map<string, Json>)

  /** `a` and `b` differ at most in the text of their string leaves. */
  ghost predicate SameShape(a: Json, b: Json) {
    match (a, b)
    case (JString(_), JString(_)) => true
    case (JArray(xs), JArray(ys)) =>
      |xs| == |ys| && forall i :: 0 <= i < |xs| ==> SameShape(xs[i], ys[i])
    case (JObject(m), JObject(n)) =>
      m.Keys == n.Keys && forall k :: k in m && k in n ==> SameShape(m[k], n[k])
    case _ => a == b
  }
}
