/** The insertion-ordered maps keyed by ItemEntry: a sequence of bindings in insertion
    order, looked up by scanning for the first key that equals the given one. */
module ItemMap {
  import opened Aspects

  datatype Binding<V> = Binding(key: ItemEntry, value: V)

  /** No key occurs twice. */
  ghost predicate DistinctKeys<V>(m: seq<Binding<V>>) {
    forall i, j :: 0 <= i < j < |m| ==> m[i].key != m[j].key
  }

  /** Two maps have the same keys in the same order. */
  ghost predicate SameKeys<V, W>(m: seq<Binding<V>>, n: seq<Binding<W>>) {
    |m| == |n| && forall i :: 0 <= i < |m| ==> m[i].key == n[i].key
  }

  /** The position of the first key equal to `key`, if any. */
  function KeyIndex<V>(m: seq<Binding<V>>, key: ItemEntry): (r: Option<nat>)
    ensures r.Some? ==> r.value < |m| && m[r.value].key.Equals(key)
    ensures r.Some? ==> forall j :: 0 <= j < r.value ==> !m[j].key.Equals(key)
    ensures r.None? <==> forall j :: 0 <= j < |m| ==> !m[j].key.Equals(key)
    decreases |m|
  {
    if |m| == 0 then None
    else if m[0].key.Equals(key) then Some(0)
    else
      match KeyIndex(m[1..], key)
      case None => None
      case Some(i) => Some(i + 1)
  }

  /** The value stored under the first key equal to `key`, or `default`. */
  function ValueOr<V>(m: seq<Binding<V>>, key: ItemEntry, default: V): V {
    match KeyIndex(m, key)
    case Some(i) => m[i].value
    case None => default
  }

  /** With distinct keys the first equal key is the only one. */
  lemma {:induction false} KeyIndexUnique<V>(m: seq<Binding<V>>, i: nat)
    requires DistinctKeys(m) && i < |m|
    ensures KeyIndex(m, m[i].key) == Some(i)
    ensures ValueOr(m, m[i].key, m[i].value) == m[i].value
  {
  }
}
