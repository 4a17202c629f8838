/** JSON documents: what the Prism Central serves, and what every file here reads or writes. */
module Json {
  import opened Wrappers

  /** Numbers are whole; members keep the order they were written in. */
  datatype Value =
    | Null
    | Bool(b: bool)
    | Number(n: int)
    | String(s: string)
    | Array(items: seq<Value>)
    | Object(members: seq<Member>)

  datatype Member = Member(key: string, value: Value)

  /** The value at a key of an object's members: the first, and in a document the only one. */
  function Get(members: seq<Member>, key: string): (r: Option<Value>)
    ensures r.Some? <==> exists i :: 0 <= i < |members| && members[i].key == key
    ensures r.Some? ==> r.value in (set i | 0 <= i < |members| :: members[i].value)
  {
    if members == [] then None
    else if members[0].key == key then Some(members[0].value)
    else
      var r := Get(members[1..], key);
      assert forall i :: 1 <= i < |members| ==> members[i] == members[1..][i - 1];
      r
  }

  /** `Value::get` by key: the member of an object, nothing of anything else. */
  function Lookup(v: Value, key: string): Option<Value> {
    if v.Object? then Get(v.members, key) else None
  }

  predicate DistinctKeys(members: seq<Member>) {
    forall i, j :: 0 <= i < j < |members| ==> members[i].key != members[j].key
  }
}
