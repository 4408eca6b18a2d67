/**
  A model of the JavaScript `Map` as it is used by the graph explorer:
  keys remember the order in which they were first inserted, `set` on a
  key that is already present replaces its value without moving the key,
  and `values()` yields the values in key-insertion order.
 */
module OrderedMaps {

  /** The state of a `Map`: its keys in insertion order and the value under each key. */
  datatype OrderedMap<K(==), V> = OrderedMap(keys: seq<K>, entries: map<K, V>) {

    /** Every key is listed exactly once, and the listed keys are the stored ones. */
    ghost predicate Valid() {
      && (forall i, j :: 0 <= i < j < |keys| ==> keys[i] != keys[j])
      && entries.Keys == (set i | 0 <= i < |keys| :: keys[i])
    }

    /** `map.set(k, v)`. */
    function Put(k: K, v: V): (r: OrderedMap<K, V>)
      requires Valid()
      ensures r.Valid()
      ensures r.entries.Keys == entries.Keys + {k}
      ensures r.entries[k] == v
      ensures forall k' :: k' in entries && k' != k ==> r.entries[k'] == entries[k']
      ensures k in entries ==> r.keys == keys
      ensures k !in entries ==> r.keys == keys + [k]
    {
      if k in entries then OrderedMap(keys, entries[k := v])
      else
        var ks := keys + [k];
        assert (set i | 0 <= i < |ks| :: ks[i]) == (set i | 0 <= i < |keys| :: keys[i]) + {k} by {
          assert ks[|keys|] == k;
          assert forall i :: 0 <= i < |keys| ==> ks[i] == keys[i];
        }
        OrderedMap(ks, entries[k := v])
    }

    /** `Array.from(map.values())`: the stored values in key-insertion order. */
    function Values(): (r: seq<V>)
      requires Valid()
      ensures |r| == |keys|
      ensures forall i :: 0 <= i < |keys| ==> r[i] == entries[keys[i]]
    {
      seq(|keys|, i requires 0 <= i < |keys| => entries[keys[i]])
    }
  }

  /** `new Map()`. */
  function Empty<K(==), V>(): (m: OrderedMap<K, V>)
    ensures m.Valid()
    ensures |m.keys| == 0 && |m.entries| == 0
  {
    OrderedMap([], map[])
  }

  /** A sequence without repetitions has as many distinct elements as it is long. */
  lemma {:induction false} DistinctCard<K>(s: seq<K>)
    requires forall i, j :: 0 <= i < j < |s| ==> s[i] != s[j]
    ensures |set x | x in s| == |s|
  {
    if |s| > 0 {
      var t := s[..|s| - 1];
      DistinctCard(t);
      assert (set x | x in s) == (set x | x in t) + {s[|s| - 1]};
      assert s[|s| - 1] !in (set x | x in t);
    }
  }

  /** A map holds as many values as it has distinct keys. */
  lemma ValuesCount<K, V>(m: OrderedMap<K, V>)
    requires m.Valid()
    ensures |m.Values()| == |m.entries|
  {
    DistinctCard(m.keys);
    assert m.entries.Keys == (set x | x in m.keys);
  }

  /** A mutable `Map` object, updated in place by `Set`. */
  class MapObject<K(==), V> {
    var keys: seq<K>
    var entries: map<K, V>

    ghost predicate Valid()
      reads this
    {
      Model().Valid()
    }

    /** The current contents, as a value. */
    function Model(): OrderedMap<K, V>
      reads this
    {
      OrderedMap(keys, entries)
    }

    /** `new Map()`. */
    constructor ()
      ensures Valid() && Model() == Empty()
    {
      keys := [];
      entries := map[];
    }

    /** `map.set(k, v)`. */
    method Set(k: K, v: V)
      requires Valid()
      modifies this
      ensures Valid()
      ensures Model() == old(Model()).Put(k, v)
    {
      ghost var after := Model().Put(k, v);
      if k !in entries {
        keys := keys + [k];
      }
      entries := entries[k := v];
      assert Model() == after;
    }

    /** `Array.from(map.values())`. */
    function Values(): (r: seq<V>)
      reads this
      requires Valid()
      ensures |r| == |keys| == |entries|
      ensures forall i :: 0 <= i < |keys| ==> r[i] == entries[keys[i]]
    {
      ValuesCount(Model());
      Model().Values()
    }
  }
}
