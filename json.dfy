/**
 * Parsed JSON documents, as both JSON.parse and Python's json.loads
 * leave them. Parsing itself is not modelled: an object is the parser's
 * output, one member per key, in document order.
 */
module Json {
  import opened Wrappers

  datatype Json =
    | JNull
    | JBool(b: bool)
    | JInt(i: int)        // a number written without fraction or exponent
    | JFloat(r: real)     // a number written with a fraction or an exponent
    | JStr(s: string)
    | JArr(items: seq<Json>)
    | JObj(members: seq<(string, Json)>)

  /** The value of the first member named key, if there is one. */
  function Lookup(members: seq<(string, Json)>, key: string): (r: Option<Json>)
    ensures r.None? <==> forall i :: 0 <= i < |members| ==> members[i].0 != key
    ensures r.Some? ==> exists i :: 0 <= i < |members| && members[i] == (key, r.value)
  {
    if members == [] then None
    else if members[0].0 == key then Some(members[0].1)
    else
      var r := Lookup(members[1..], key);
      assert forall i :: 1 <= i < |members| ==> members[i] == members[1..][i - 1];
      r
  }

  /** The member named key of an object; nothing for any other value. */
  function Member(j: Json, key: string): Option<Json> {
    if j.JObj? then Lookup(j.members, key) else None
  }

  /**
   * Python's `d[key] = v` on a dict: the member keeps its place when key
   * is present and is appended otherwise.
   */
  function SetMember(members: seq<(string, Json)>, key: string, v: Json): (r: seq<(string, Json)>)
    ensures Lookup(r, key) == Some(v)
    ensures forall k :: k != key ==> Lookup(r, k) == Lookup(members, k)
    ensures |r| == |members| || |r| == |members| + 1
  {
    if members == [] then [(key, v)]
    else if members[0].0 == key then [(key, v)] + members[1..]
    else [members[0]] + SetMember(members[1..], key, v)
  }
}
