/**
 * A JSON object as `json.load` hands it to the analysis: a Python `dict`,
 * that is, key/value pairs in insertion order with no key twice.
 */
module JsonObject {
  import opened Wrappers

  type Object<V> = seq<(string, V)>

  /** Every key occurs once, as in a Python `dict`. */
  predicate UniqueKeys<V>(o: Object<V>)
  {
    forall i, j :: 0 <= i < j < |o| ==> o[i].0 != o[j].0
  }

  /** `o[key]` when `key in o`, and `None` otherwise. */
  function Get<V>(o: Object<V>, key: string): (r: Option<V>)
    ensures r.None? <==> forall i :: 0 <= i < |o| ==> o[i].0 != key
    ensures r.Some? ==> exists i :: 0 <= i < |o| && o[i] == (key, r.value)
  {
    if o == [] then None
    else if o[0].0 == key then Some(o[0].1)
    else Get(o[1..], key)
  }

  /** In a dict, looking up the key of an entry yields that entry's value. */
  lemma GetEntry<V>(o: Object<V>, i: int)
    requires UniqueKeys(o)
    requires 0 <= i < |o|
    ensures Get(o, o[i].0) == Some(o[i].1)
  {
  }
}
