/** A JavaScript `Map`: a finite map together with the order in which its keys were
    first inserted, which is the order `values()` walks them in. */
module OrderedMaps {
  import opened Wrappers

  datatype OrderedMap<K, V> = OrderedMap(entries: map<K, V>, order: seq<K>) {

    /** Every key is listed once, and the listed keys are the keys of the map. */
    ghost predicate Valid() {
      && (forall i, j :: 0 <= i < j < |order| ==> order[i] != order[j])
      && (forall i :: 0 <= i < |order| ==> order[i] in entries)
      && (forall k :: k in entries ==> k in order)
    }

    /** `get(k)`, with `undefined` as None: it finds exactly the keys `values()`
        walks, and gives the value listed in that key's slot. */
    function Get(k: K): (r: Option<V>)
      requires Valid()
      ensures r.Some? <==> k in order
      ensures forall i :: 0 <= i < |order| && order[i] == k ==> r == Some(Values()[i])
    {
      if k in entries then Some(entries[k]) else None
    }

    /** `set(k, v)`: a new key goes to the end of the order, an existing key keeps
        its place and only its value changes. */
    function Set(k: K, v: V): OrderedMap<K, V> {
      OrderedMap(entries[k := v], if k in entries then order else order + [k])
    }

    /** `[...values()]`: the values in key order, exactly one per key. */
    function Values(): (vs: seq<V>)
      requires Valid()
      ensures |vs| == |order| == |entries|
      ensures forall i :: 0 <= i < |order| ==> order[i] in entries && vs[i] == entries[order[i]]
    {
      DistinctCardinality(order);
      assert entries.Keys == set x | x in order;
      seq(|order|, i requires 0 <= i < |order| => entries[order[i]])
    }
  }

  function Empty<K, V>(): (m: OrderedMap<K, V>)
    ensures m.Valid() && m.Values() == []
  {
    OrderedMap(map[], [])
  }

  /** `set` keeps the map well formed. */
  lemma SetValid<K, V>(m: OrderedMap<K, V>, k: K, v: V)
    requires m.Valid()
    ensures m.Set(k, v).Valid()
  {
    var n := m.Set(k, v);
    if k !in m.entries {
      forall i, j | 0 <= i < j < |n.order| ensures n.order[i] != n.order[j] {
        if j == |m.order| {
          assert n.order[i] == m.order[i] && m.order[i] in m.entries;
        }
      }
    }
  }

  /** After `set(k, v)` the listing is the old one with k's value replaced in place
      when k was present, and with v appended when it was not. */
  lemma {:induction false} SetValues<K, V>(m: OrderedMap<K, V>, k: K, v: V)
    requires m.Valid()
    ensures m.Set(k, v).Valid()
    ensures k in m.entries ==>
      && |m.Set(k, v).Values()| == |m.Values()|
      && forall i :: 0 <= i < |m.order| ==>
           m.Set(k, v).Values()[i] == if m.order[i] == k then v else m.Values()[i]
    ensures k !in m.entries ==> m.Set(k, v).Values() == m.Values() + [v]
  {
    SetValid(m, k, v);
    var n := m.Set(k, v);
    if k !in m.entries {
      assert n.order == m.order + [k];
      forall i | 0 <= i < |n.order| ensures n.Values()[i] == (m.Values() + [v])[i] {
        if i < |m.order| {
          assert n.order[i] == m.order[i] != k;
        }
      }
    }
  }

  /** The keys listed in a repetition-free order are as many as the order is long. */
  lemma {:induction false} DistinctCardinality<K>(s: seq<K>)
    requires forall i, j :: 0 <= i < j < |s| ==> s[i] != s[j]
    ensures |set x | x in s| == |s|
  {
    if s != [] {
      var last := s[|s| - 1];
      var init := s[..|s| - 1];
      DistinctCardinality(init);
      assert (set x | x in s) == (set x | x in init) + {last};
      assert last !in init;
    }
  }
}
