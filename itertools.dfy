/**
 * `itemize` (`utils/itertools.py`): one item per key of `order`, in that order, carrying the
 * mapping's value for the key or the default. The item type is a pair here; callers that pass
 * `item_type=DayCount` rebuild their own record from it.
 */
module Itertools {
  function Itemize<K, V>(order: seq<K>, mapping: map<K, V>, default: V): (r: seq<(K, V)>)
    ensures |r| == |order|
    ensures forall i :: 0 <= i < |r| ==> r[i].0 == order[i]
    ensures forall i :: 0 <= i < |r| && order[i] in mapping ==> r[i].1 == mapping[order[i]]
    ensures forall i :: 0 <= i < |r| && order[i] !in mapping ==> r[i].1 == default
  {
    if order == [] then []
    else
      var key := order[0];
      [(key, if key in mapping then mapping[key] else default)] + Itemize(order[1..], mapping, default)
  }

  /** Keys of the mapping that are not in `order` never appear; every item is a key of `order`. */
  lemma ItemizeOnlyOrderKeys<K, V>(order: seq<K>, mapping: map<K, V>, default: V, item: (K, V))
    requires item in Itemize(order, mapping, default)
    ensures item.0 in order
    ensures item.0 in mapping ==> item.1 == mapping[item.0]
    ensures item.0 !in mapping ==> item.1 == default
  {
    var r := Itemize(order, mapping, default);
    var i :| 0 <= i < |r| && r[i] == item;
    assert order[i] == item.0;
  }

  /** Itemizing a concatenation of orders concatenates the items. */
  lemma {:induction false} ItemizeAppend<K, V>(a: seq<K>, b: seq<K>, mapping: map<K, V>, default: V)
    ensures Itemize(a + b, mapping, default) == Itemize(a, mapping, default) + Itemize(b, mapping, default)
  {
    if a != [] {
      assert (a + b)[1..] == a[1..] + b;
      ItemizeAppend(a[1..], b, mapping, default);
    }
  }
}
