/**
 * JavaScript objects used as dictionaries (`Record<string, ...>`): the keys in insertion order,
 * which is the order `for ... in` and `Object.values` enumerate them, and the key/value map.
 */
module Dicts {

  datatype Dict<K, V> = Dict(order: seq<K>, values: map<K, V>)

  /** The keys are listed once each, and exactly the keys of the map are listed. */
  predicate Valid<K, V>(d: Dict<K, V>) {
    && (forall i, j :: 0 <= i < j < |d.order| ==> d.order[i] != d.order[j])
    && d.values.Keys == set i | 0 <= i < |d.order| :: d.order[i]
  }

  /** `{}`. */
  function Empty<K, V>(): (d: Dict<K, V>)
    ensures Valid(d) && d.values == map[]
  {
    Dict([], map[])
  }

  /** `d[k] || default`. */
  function Get<K, V>(d: Dict<K, V>, k: K, default: V): V {
    if k in d.values then d.values[k] else default
  }

  /** `d[k] = v`: an existing key keeps its place in the order, a new key goes last. */
  function Put<K, V>(d: Dict<K, V>, k: K, v: V): (r: Dict<K, V>)
    requires Valid(d)
    ensures Valid(r) && r.values == d.values[k := v]
    ensures k in d.values ==> r.order == d.order
    ensures k !in d.values ==> r.order == d.order + [k]
  {
    var order := if k in d.values then d.order else d.order + [k];
    assert (set i | 0 <= i < |order| :: order[i]) == d.values.Keys + {k} by {
      assert forall i :: 0 <= i < |d.order| ==> order[i] == d.order[i];
      if k !in d.values {
        assert order[|d.order|] == k;
      }
    }
    Dict(order, d.values[k := v])
  }

  /** `Object.values(d)`. */
  function Values<K, V>(d: Dict<K, V>): (vs: seq<V>)
    requires Valid(d)
    ensures |vs| == |d.order|
    ensures forall i :: 0 <= i < |vs| ==> vs[i] == d.values[d.order[i]]
  {
    seq(|d.order|, i requires 0 <= i < |d.order| => d.values[d.order[i]])
  }
}
