/** Parsed JSON values as the request-body tests compare them: objects are
    maps from key to value, so key order does not matter; arrays are
    sequences, so element order does. */
module Json {
  import opened Wrappers

  datatype Json =
    | JNull
    | JBool(b: bool)
    | JInt(i: int)
    | JStr(s: string)
    | JArr(items: seq<Json>)
    | JObj(fields: map<string, Json>)

  /** The value reached by following object keys from `j`, if every key is there. */
  function Get(j: Json, path: seq<string>): (r: Option<Json>)
    ensures path == [] ==> r == Some(j)
    decreases |path|
  {
    if path == [] then Some(j)
    else match j
      case JObj(m) => if path[0] in m then Get(m[path[0]], path[1..]) else None
      case _ => None
  }

  /** Following a path in two legs. */
  lemma {:induction false} GetAppend(j: Json, p: seq<string>, q: seq<string>)
    ensures Get(j, p + q) == if Get(j, p).Some? then Get(Get(j, p).value, q) else None
    decreases |p|
  {
    if p == [] {
      assert p + q == q;
    } else {
      assert (p + q)[0] == p[0] && (p + q)[1..] == p[1..] + q;
      if j.JObj? && p[0] in j.fields {
        GetAppend(j.fields[p[0]], p[1..], q);
      }
    }
  }

  /** Two steps into nested objects. */
  lemma GetPath2(j: Json, a: string, b: string)
    requires j.JObj? && a in j.fields && j.fields[a].JObj? && b in j.fields[a].fields
    ensures Get(j, [a, b]) == Some(j.fields[a].fields[b])
  {
    assert [a, b][1..] == [b] && [b][1..] == [];
  }

  /** Three steps into nested objects. */
  lemma GetPath3(j: Json, a: string, b: string, c: string)
    requires j.JObj? && a in j.fields && j.fields[a].JObj? && b in j.fields[a].fields
    requires j.fields[a].fields[b].JObj? && c in j.fields[a].fields[b].fields
    ensures Get(j, [a, b, c]) == Some(j.fields[a].fields[b].fields[c])
  {
    assert [a, b, c][1..] == [b, c];
    GetPath2(j.fields[a], b, c);
  }

  /** One step into an object. */
  lemma GetKey(m: map<string, Json>, k: string, rest: seq<string>)
    requires k in m
    ensures Get(JObj(m), [k] + rest) == Get(m[k], rest)
  {
    assert ([k] + rest)[0] == k && ([k] + rest)[1..] == rest;
  }
}
