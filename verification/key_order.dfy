/**
 The iteration order of the underlying hash.

 QHash enumerates its keys in an order that depends on hashing and is not part
 of the container's contract. The model therefore takes that order as a
 parameter: any duplicate-free enumeration of exactly the present keys. Every
 result that depends on it (the `keys()` list, the flattened `values()` list,
 the order in which a copy is built) is stated so that it holds for EVERY such
 order, and order-independent facts are stated up to multiset.
 */
module KeyOrder {
  import opened ValueList

  /** `order` lists every key of `m` exactly once and nothing else. */
  predicate IsKeyOrder<K(==), L>(order: seq<K>, m: map<K, L>)
  {
    && !HasDuplicates(order)
    && (forall i | 0 <= i < |order| :: order[i] in m)
    && (forall k | k in m :: k in order)
  }

  /** Dropping the first key of an enumeration enumerates the rest of the map. */
  lemma KeyOrderTail<K, L>(order: seq<K>, m: map<K, L>)
    requires IsKeyOrder(order, m)
    requires |order| > 0
    ensures IsKeyOrder(order[1..], m - {order[0]})
    ensures |m - {order[0]}| == |m| - 1
  {
    forall k | k in m - {order[0]} ensures k in order[1..] {
      var i :| 0 <= i < |order| && order[i] == k;
    }
    forall i | 0 <= i < |order[1..]| ensures order[1..][i] in m - {order[0]} {
      assert order[1..][i] == order[i + 1] != order[0];
    }
    assert (m - {order[0]}).Keys == m.Keys - {order[0]};
  }

  /**
   The `keys()` list has as many entries as the map has keys, whatever order
   the hash enumerates them in.
   */
  lemma {:induction false} KeyOrderLength<K, L>(order: seq<K>, m: map<K, L>)
    requires IsKeyOrder(order, m)
    ensures |order| == |m|
    decreases |order|
  {
    if order != [] {
      KeyOrderTail(order, m);
      KeyOrderLength(order[1..], m - {order[0]});
    }
  }

  /**
   The lists of `m` concatenated in the enumeration order `order` (the body of
   `values()`, which appends each list as the hash yields it).
   */
  function Flatten<K(==), V>(m: map<K, seq<V>>, order: seq<K>): (r: seq<V>)
    requires IsKeyOrder(order, m)
    decreases |order|
  {
    if order == [] then []
    else
      KeyOrderTail(order, m);
      m[order[0]] + Flatten(m - {order[0]}, order[1..])
  }

  /** All values held under all keys of `m`, counted with multiplicity. */
  ghost function Bag<K, V>(m: map<K, seq<V>>): multiset<V>
    decreases |m|
  {
    if m == map[] then multiset{}
    else
      var k :| k in m;
      assert (m - {k}).Keys == m.Keys - {k};
      multiset(m[k]) + Bag(m - {k})
  }

  /** `Bag` splits off any key, not only the one its definition happens to pick. */
  lemma {:induction false} BagRemove<K, V>(m: map<K, seq<V>>, k: K)
    requires k in m
    ensures Bag(m) == multiset(m[k]) + Bag(m - {k})
    decreases |m|
  {
    var k' :| k' in m && Bag(m) == multiset(m[k']) + Bag(m - {k'});
    if k' != k {
      assert (m - {k'}).Keys == m.Keys - {k'};
      assert (m - {k}).Keys == m.Keys - {k};
      BagRemove(m - {k'}, k);
      BagRemove(m - {k}, k');
      assert m - {k'} - {k} == m - {k} - {k'};
    }
  }

  /**
   Whatever order the hash enumerates its keys in, the flattened list holds
   exactly the values of all lists, each as often as it is stored.
   */
  lemma {:induction false} FlattenIsBag<K, V>(m: map<K, seq<V>>, order: seq<K>)
    requires IsKeyOrder(order, m)
    ensures multiset(Flatten(m, order)) == Bag(m)
    ensures |Flatten(m, order)| == |Bag(m)|
    decreases |order|
  {
    if order != [] {
      KeyOrderTail(order, m);
      FlattenIsBag(m - {order[0]}, order[1..]);
      BagRemove(m, order[0]);
    }
  }

  /**
   The number of values stored under all keys of `m`: the sum of the lengths
   of its lists, independent of any enumeration order.
   */
  ghost function TotalLength<K, V>(m: map<K, seq<V>>): nat
    decreases |m|
  {
    if m == map[] then 0
    else
      var k :| k in m;
      assert (m - {k}).Keys == m.Keys - {k};
      |m[k]| + TotalLength(m - {k})
  }

  /** `TotalLength` splits off any key, not only the one its definition happens to pick. */
  lemma {:induction false} TotalLengthRemove<K, V>(m: map<K, seq<V>>, k: K)
    requires k in m
    ensures TotalLength(m) == |m[k]| + TotalLength(m - {k})
    decreases |m|
  {
    var k' :| k' in m && TotalLength(m) == |m[k']| + TotalLength(m - {k'});
    if k' != k {
      assert (m - {k'}).Keys == m.Keys - {k'};
      assert (m - {k}).Keys == m.Keys - {k};
      TotalLengthRemove(m - {k'}, k);
      TotalLengthRemove(m - {k}, k');
      assert m - {k'} - {k} == m - {k} - {k'};
    }
  }

  /** Whatever the enumeration order, the flattened list has one entry per stored value. */
  lemma {:induction false} FlattenLength<K, V>(m: map<K, seq<V>>, order: seq<K>)
    requires IsKeyOrder(order, m)
    ensures |Flatten(m, order)| == TotalLength(m)
    decreases |order|
  {
    if order != [] {
      KeyOrderTail(order, m);
      FlattenLength(m - {order[0]}, order[1..]);
      TotalLengthRemove(m, order[0]);
    }
  }
}
