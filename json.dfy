/**
 * A finite JSON tree, the shape of Newtonsoft's JToken as the schema reader
 * sees it. Object members keep their order. A loaded JObject holds each key
 * once (DistinctKeys); for such an object, looking a key up by its first
 * occurrence finds the only member with that key, as the JObject indexer does.
 */
module Json {
  import opened Wrappers

  datatype Json =
    | JNull
    | JBool(b: bool)
    | JNumber(n: int)
    | JString(s: string)
    | JArray(elements: seq<Json>)
    | JObject(members: seq<Member>)

  datatype Member = Member(key: string, value: Json)

  /** Each key names at most one member, as in a loaded JObject. */
  predicate DistinctKeys(members: seq<Member>)
  {
    forall i, j :: 0 <= i < j < |members| ==> members[i].key != members[j].key
  }

  /** The position of the first member named `key`, or None when there is none
      (the JObject indexer then yields C# null). */
  function IndexOf(members: seq<Member>, key: string): (r: Option<nat>)
    ensures r.None? <==> forall i :: 0 <= i < |members| ==> members[i].key != key
    ensures r.Some? ==> r.value < |members| && members[r.value].key == key
    ensures r.Some? ==> forall i :: 0 <= i < r.value ==> members[i].key != key
  {
    if members == [] then None
    else if members[0].key == key then Some(0)
    else match IndexOf(members[1..], key)
      case None => None
      case Some(i) => Some(i + 1)
  }

  /** With distinct keys the lookup finds the one member with that key. */
  lemma IndexOfUnique(members: seq<Member>, i: nat)
    requires DistinctKeys(members) && i < |members|
    ensures IndexOf(members, members[i].key) == Some(i)
  {
  }
}
