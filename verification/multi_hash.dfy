/**
 A multi-valued hash: each key maps to one ordered list of values, and a flag
 fixed at construction decides whether a key may hold the same value twice
 (the `SingleKeyMultiHash<Key, T>` template of qt-toolbox).

 The container is a value: every mutating member is a function from the old
 state to the new one (plus the integer the member returns, where it returns
 one). The per-key lists are owned values, so the heap allocation, `delete`
 and pointer checks of the original have no counterpart here.
 */
module SingleKeyMultiHash {
  import opened ValueList
  import opened KeyOrder

  /**
   The storage `QHash<Key, QList<T>*>` and the duplicate policy. A map holds
   exactly one list per key.
   */
  datatype MultiHash<K, V> = MultiHash(hash: map<K, seq<V>>, duplicatesAllowed: bool)

  /**
   The invariants every public member re-establishes: no key is left holding
   an empty list, and without the duplicate permission no list holds a value
   twice.
   */
  predicate Valid<K(!new), V(==)>(h: MultiHash<K, V>)
  {
    && (forall k | k in h.hash :: |h.hash[k]| > 0)
    && (!h.duplicatesAllowed ==> forall k | k in h.hash :: !HasDuplicates(h.hash[k]))
  }

  // ---------------------------------------------------------------------------
  // Construction

  /** The constructor: an empty container; duplicates are allowed by default. */
  function New<K(!new), V(==)>(duplicatesAllowed: bool := true): (h: MultiHash<K, V>)
    ensures h.duplicatesAllowed == duplicatesAllowed
    ensures Count(h) == 0
    ensures Valid(h)
  {
    MultiHash(map[], duplicatesAllowed)
  }

  // ---------------------------------------------------------------------------
  // Queries. None of them changes the container: each is a function of it.

  /**
   The list under `key`, or the empty list when the key is absent. The const
   and non-const overloads of `values(key)` behave alike and both return a
   copy.
   */
  function ValuesOf<K(!new), V(==)>(h: MultiHash<K, V>, key: K): (r: seq<V>)
    ensures key !in h.hash ==> r == []
    ensures Valid(h) ==> (|r| > 0 <==> key in h.hash)
    ensures Valid(h) && !h.duplicatesAllowed ==> !HasDuplicates(r)
  {
    if key in h.hash then h.hash[key] else []
  }

  /** `contains(key)`. */
  function Contains<K(!new), V(==)>(h: MultiHash<K, V>, key: K): (b: bool)
    ensures Valid(h) ==> (b <==> |ValuesOf(h, key)| > 0)
  {
    key in h.hash
  }

  /** `count(key)`: how many values the key holds, 0 when it is absent. */
  function CountOf<K(!new), V(==)>(h: MultiHash<K, V>, key: K): (n: nat)
    ensures n == |ValuesOf(h, key)|
    ensures !Contains(h, key) ==> n == 0
    ensures Valid(h) ==> (n > 0 <==> Contains(h, key))
  {
    if key in h.hash then |h.hash[key]| else 0
  }

  /** `count(key, value)`: occurrences of the value under the key, 0 when the key is absent. */
  function CountValue<K(!new), V(==)>(h: MultiHash<K, V>, key: K, value: V): (n: nat)
    ensures n == multiset(ValuesOf(h, key))[value]
    ensures n <= CountOf(h, key)
    ensures !Contains(h, key) ==> n == 0
    ensures Valid(h) && !h.duplicatesAllowed ==> n <= 1
  {
    if key in h.hash then
      NoDuplicatesIffAtMostOnce(h.hash[key]);
      assert Valid(h) && !h.duplicatesAllowed ==> Occurrences(h.hash[key], value) <= 1 by {
        if Valid(h) && !h.duplicatesAllowed {
          assert !HasDuplicates(h.hash[key]);
        }
      }
      Occurrences(h.hash[key], value)
    else 0
  }

  /** `contains(key, value)`: false when the key is absent. */
  function ContainsValue<K(!new), V(==)>(h: MultiHash<K, V>, key: K, value: V): (b: bool)
    ensures b <==> CountValue(h, key, value) > 0
    ensures b <==> value in ValuesOf(h, key)
    ensures b ==> Contains(h, key)
  {
    if key in h.hash then value in h.hash[key] else false
  }

  /** `count()`: the number of distinct keys. */
  function Count<K(!new), V>(h: MultiHash<K, V>): (n: nat)
    ensures n == 0 <==> h.hash == map[]
  {
    |h.hash|
  }

  /** `keys()`, as a set: the order of the list the hash returns is not defined. */
  function Keys<K(!new), V>(h: MultiHash<K, V>): (ks: set<K>)
    ensures forall k :: k in ks <==> Contains(h, k)
  {
    h.hash.Keys
  }

  /**
   `keys()` as the list the hash returns, enumerated in `order`: it holds every
   present key once, so its length is `count()`.
   */
  lemma KeysListMatchesCount<K(!new), V>(h: MultiHash<K, V>, order: seq<K>)
    requires IsKeyOrder(order, h.hash)
    ensures |order| == Count(h)
    ensures forall k :: k in order <==> k in Keys(h)
  {
    KeyOrderLength(order, h.hash);
  }

  /**
   `values()`: every list, concatenated in the hash's key order `order`, each
   list in insertion order.
   */
  function AllValues<K(!new), V(==)>(h: MultiHash<K, V>, order: seq<K>): (r: seq<V>)
    requires IsKeyOrder(order, h.hash)
    ensures multiset(r) == Bag(h.hash)
    ensures |r| == |Bag(h.hash)|
  {
    FlattenIsBag(h.hash, order);
    Flatten(h.hash, order)
  }

  /**
   Which order the hash happens to use changes only the arrangement of
   `values()`, never its contents or length.
   */
  lemma AllValuesOrderIndependent<K(!new), V>(h: MultiHash<K, V>, o1: seq<K>, o2: seq<K>)
    requires IsKeyOrder(o1, h.hash)
    requires IsKeyOrder(o2, h.hash)
    ensures multiset(AllValues(h, o1)) == multiset(AllValues(h, o2))
    ensures |AllValues(h, o1)| == |AllValues(h, o2)|
  {
  }

  /**
   `values()` has one entry per stored value: its length is the sum of
   `count(k)` (the length of `k`'s list) over all present keys, whatever the
   hash order.
   */
  lemma AllValuesLength<K(!new), V>(h: MultiHash<K, V>, order: seq<K>)
    requires IsKeyOrder(order, h.hash)
    ensures |AllValues(h, order)| == TotalLength(h.hash)
  {
    FlattenLength(h.hash, order);
  }

  // ---------------------------------------------------------------------------
  // Insertion

  /** `_initKey`: give an absent key an empty list; a present key keeps its list. */
  function InitKey<K(!new), V>(m: map<K, seq<V>>, key: K): (r: map<K, seq<V>>)
    ensures key in r
    ensures key in m ==> r == m
    ensures key !in m ==> r[key] == [] && r.Keys == m.Keys + {key}
    ensures forall k | k in m :: k in r && r[k] == m[k]
  {
    if key !in m then m[key := []] else m
  }

  /**
   `insert(key, value)`: append the value to the key's list (creating the list
   if needed), except when duplicates are disallowed and the value is already
   there, in which case nothing changes. No other key is touched.
   */
  function Insert<K(!new), V(==)>(h: MultiHash<K, V>, key: K, value: V): (r: MultiHash<K, V>)
    ensures Contains(r, key) && ContainsValue(r, key, value)
    ensures r.duplicatesAllowed == h.duplicatesAllowed
    ensures !h.duplicatesAllowed && ContainsValue(h, key, value) ==> r == h
    ensures h.duplicatesAllowed || !ContainsValue(h, key, value) ==>
              ValuesOf(r, key) == ValuesOf(h, key) + [value]
    ensures Keys(r) == Keys(h) + {key}
    ensures forall k | k != key :: ValuesOf(r, k) == ValuesOf(h, k)
    ensures Valid(h) ==> Valid(r)
  {
    var m := InitKey(h.hash, key);
    if h.duplicatesAllowed || value !in m[key] then
      assert !HasDuplicates(m[key]) && value !in m[key] ==> !HasDuplicates(m[key] + [value]) by {
        if !HasDuplicates(m[key]) && value !in m[key] {
          AppendFreshKeepsNoDuplicates(m[key], value);
        }
      }
      MultiHash(m[key := m[key] + [value]], h.duplicatesAllowed)
    else
      MultiHash(m, h.duplicatesAllowed)
  }

  /** `insertMulti`: the same operation as `insert` under a second name. */
  function InsertMulti<K(!new), V(==)>(h: MultiHash<K, V>, key: K, value: V): (r: MultiHash<K, V>)
    ensures r == Insert(h, key, value)
  {
    Insert(h, key, value)
  }

  /**
   Effect of `insert` on the counts: with duplicates allowed the value's count
   and the key's count both grow by one; otherwise the value is present exactly
   once afterwards and the key's count grows only if the value was new.
   */
  lemma InsertCounts<K(!new), V>(h: MultiHash<K, V>, key: K, value: V)
    requires Valid(h)
    ensures h.duplicatesAllowed ==>
      && CountValue(Insert(h, key, value), key, value) == CountValue(h, key, value) + 1
      && CountOf(Insert(h, key, value), key) == CountOf(h, key) + 1
    ensures !h.duplicatesAllowed ==>
      && CountValue(Insert(h, key, value), key, value) == 1
      && CountOf(Insert(h, key, value), key)
           == CountOf(h, key) + (if ContainsValue(h, key, value) then 0 else 1)
    ensures Count(Insert(h, key, value)) == Count(h) + (if Contains(h, key) then 0 else 1)
  {
    var r := Insert(h, key, value);
    assert multiset(ValuesOf(h, key) + [value]) == multiset(ValuesOf(h, key)) + multiset{value};
    if Contains(h, key) {
      assert r.hash.Keys == h.hash.Keys;
    } else {
      assert r.hash.Keys == h.hash.Keys + {key};
    }
  }

  /** With duplicates disallowed, inserting the same pair twice stores it once. */
  lemma DuplicateSuppression<K(!new), V>(key: K, value: V)
    ensures var h := Insert(Insert(New(false), key, value), key, value);
            CountValue(h, key, value) == 1 && CountOf(h, key) == 1
  {
    var h1 := Insert(New(false), key, value);
    InsertCounts(New(false), key, value);
    InsertCounts(h1, key, value);
  }

  /** With duplicates allowed, inserting the same pair twice stores it twice. */
  lemma DuplicateAllowance<K(!new), V>(key: K, value: V)
    ensures var h := Insert(Insert(New(true), key, value), key, value);
            CountValue(h, key, value) == 2 && CountOf(h, key) == 2
  {
    var h1 := Insert(New(true), key, value);
    InsertCounts(New(true), key, value);
    InsertCounts(h1, key, value);
  }

  // ---------------------------------------------------------------------------
  // Removal

  /**
   `_removeKey(key)`, also `remove(key)`: drop the key and its whole list and
   return how many values it held, or 0 if the key was absent. Exactly that
   key disappears.
   */
  function RemoveKey<K(!new), V(==)>(h: MultiHash<K, V>, key: K): (r: (MultiHash<K, V>, nat))
    ensures r.1 == CountOf(h, key)
    ensures !Contains(r.0, key)
    ensures Keys(r.0) == Keys(h) - {key}
    ensures Count(r.0) == if Contains(h, key) then Count(h) - 1 else Count(h)
    ensures forall k | k != key :: ValuesOf(r.0, k) == ValuesOf(h, k)
    ensures r.0.duplicatesAllowed == h.duplicatesAllowed
    ensures Valid(h) ==> Valid(r.0)
  {
    if key in h.hash then
      assert (h.hash - {key}).Keys == h.hash.Keys - {key};
      (MultiHash(h.hash - {key}, h.duplicatesAllowed), |h.hash[key]|)
    else
      (h, 0)
  }

  /** `clear(key)`: `remove(key)` with the count discarded. */
  function ClearKey<K(!new), V(==)>(h: MultiHash<K, V>, key: K): (r: MultiHash<K, V>)
    ensures r == RemoveKey(h, key).0
    ensures !Contains(r, key)
  {
    RemoveKey(h, key).0
  }

  /**
   `remove(key, value)`: delete every occurrence of the value from the key's
   list and return how many there were (0 if the key is absent). A list left
   empty takes its key with it; the other keys are untouched.
   */
  function RemoveValue<K(!new), V(==)>(h: MultiHash<K, V>, key: K, value: V): (r: (MultiHash<K, V>, nat))
    ensures r.1 == CountValue(h, key, value)
    ensures !ContainsValue(r.0, key, value)
    ensures ValuesOf(r.0, key) == RemoveAll(ValuesOf(h, key), value)
    ensures Contains(r.0, key) <==> Contains(h, key) && RemoveAll(ValuesOf(h, key), value) != []
    ensures forall k | k != key :: ValuesOf(r.0, k) == ValuesOf(h, k) && (Contains(r.0, k) <==> Contains(h, k))
    ensures r.0.duplicatesAllowed == h.duplicatesAllowed
    ensures Valid(h) ==> Valid(r.0)
  {
    if key in h.hash then
      var rest := RemoveAll(h.hash[key], value);
      var removed := |h.hash[key]| - |rest|;
      if rest == [] then
        (RemoveKey(h, key).0, removed)
      else
        RemoveValueKeepsValid(h, key, value);
        (MultiHash(h.hash[key := rest], h.duplicatesAllowed), removed)
    else
      (h, 0)
  }

  /** Replacing a list by what `removeAll` leaves of it keeps the invariants. */
  lemma RemoveValueKeepsValid<K(!new), V>(h: MultiHash<K, V>, key: K, value: V)
    requires key in h.hash
    requires RemoveAll(h.hash[key], value) != []
    ensures Valid(h) ==> Valid(MultiHash(h.hash[key := RemoveAll(h.hash[key], value)], h.duplicatesAllowed))
  {
    if Valid(h) && !h.duplicatesAllowed {
      RemoveAllKeepsNoDuplicates(h.hash[key], value);
    }
  }

  /** `clear()`: no keys remain; the duplicate policy is kept. */
  function Clear<K(!new), V(==)>(h: MultiHash<K, V>): (r: MultiHash<K, V>)
    ensures Count(r) == 0
    ensures forall k :: !Contains(r, k) && ValuesOf(r, k) == []
    ensures r.duplicatesAllowed == h.duplicatesAllowed
    ensures Valid(r)
  {
    MultiHash(map[], h.duplicatesAllowed)
  }

  /** Removes the values of `vs` from the key's list one after the other. */
  function RemoveEach<K(!new), V(==)>(h: MultiHash<K, V>, key: K, vs: seq<V>): (r: MultiHash<K, V>)
    decreases |vs|
  {
    if vs == [] then h else RemoveEach(RemoveValue(h, key, vs[0]).0, key, vs[1..])
  }

  /**
   Removing values one by one keeps exactly the values of the key's list that
   were not removed: nothing comes back and nothing else is lost.
   */
  lemma {:induction false} RemoveEachLeaves<K(!new), V>(h: MultiHash<K, V>, key: K, vs: seq<V>)
    ensures forall x :: x in ValuesOf(RemoveEach(h, key, vs), key) <==>
              x in ValuesOf(h, key) && x !in vs
    ensures RemoveEach(h, key, vs).duplicatesAllowed == h.duplicatesAllowed
    ensures Valid(h) ==> Valid(RemoveEach(h, key, vs))
    decreases |vs|
  {
    if vs != [] {
      var h1 := RemoveValue(h, key, vs[0]).0;
      RemoveEachLeaves(h1, key, vs[1..]);
      forall x ensures x in ValuesOf(h1, key) <==> x in ValuesOf(h, key) && x != vs[0] {
        assert x in ValuesOf(h1, key) <==> multiset(ValuesOf(h1, key))[x] > 0;
        assert x in ValuesOf(h, key) <==> multiset(ValuesOf(h, key))[x] > 0;
      }
    }
  }

  /**
   Key pruning: after `remove(key, value)` has been called for each value of
   `vs`, the key is gone exactly when `vs` covered every value it held.
   */
  lemma RemoveEachPrunesKey<K(!new), V>(h: MultiHash<K, V>, key: K, vs: seq<V>)
    requires Valid(h)
    ensures !Contains(RemoveEach(h, key, vs), key) <==> forall x | x in ValuesOf(h, key) :: x in vs
    ensures !Contains(RemoveEach(h, key, vs), key) <==> key !in Keys(RemoveEach(h, key, vs))
  {
    RemoveEachLeaves(h, key, vs);
    var r := RemoveEach(h, key, vs);
    if Contains(r, key) {
      var x := ValuesOf(r, key)[0];
      assert x in ValuesOf(r, key);
    }
  }

  /**
   `remove(key, value)` undoes an `insert(key, value)` of a value the key did
   not hold: the container is back where it was and one value was removed.
   */
  lemma RemoveValueUndoesInsert<K(!new), V>(h: MultiHash<K, V>, key: K, value: V)
    requires Valid(h)
    requires !ContainsValue(h, key, value)
    ensures RemoveValue(Insert(h, key, value), key, value) == (h, 1)
  {
    if key in h.hash {
      UndoAppendToPresentKey(h, key, value);
    } else {
      UndoInsertOfAbsentKey(h, key, value);
    }
  }

  /** The case of `RemoveValueUndoesInsert` where the key already held values. */
  lemma UndoAppendToPresentKey<K(!new), V>(h: MultiHash<K, V>, key: K, value: V)
    requires key in h.hash
    requires |h.hash[key]| > 0
    requires value !in h.hash[key]
    ensures RemoveValue(Insert(h, key, value), key, value) == (h, 1)
  {
    var l := h.hash[key];
    RemoveAllUndoesAppend(l, value);
    assert Insert(h, key, value).hash == h.hash[key := l + [value]];
    assert h.hash[key := l + [value]][key := l] == h.hash;
  }

  /** The case of `RemoveValueUndoesInsert` where the insertion created the key. */
  lemma UndoInsertOfAbsentKey<K(!new), V>(h: MultiHash<K, V>, key: K, value: V)
    requires key !in h.hash
    ensures RemoveValue(Insert(h, key, value), key, value) == (h, 1)
  {
    assert InitKey(h.hash, key)[key] + [value] == [value];
    assert Insert(h, key, value).hash == h.hash[key := [value]];
    assert RemoveAll([value], value) == [];
    assert h.hash[key := [value]] - {key} == h.hash;
  }

  /** `remove(key)` after `insert(key, value)` leaves the container as `remove(key)` alone would. */
  lemma RemoveKeyUndoesInsert<K(!new), V>(h: MultiHash<K, V>, key: K, value: V)
    ensures RemoveKey(Insert(h, key, value), key).0 == RemoveKey(h, key).0
  {
    var a := RemoveKey(Insert(h, key, value), key).0;
    var b := RemoveKey(h, key).0;
    assert a.hash == b.hash by {
      forall k ensures (k in a.hash <==> k in b.hash) && (k in a.hash ==> a.hash[k] == b.hash[k]) {
        assert Keys(a) == Keys(b);
        if k != key {
          assert ValuesOf(a, k) == ValuesOf(b, k);
        }
      }
    }
  }

  // ---------------------------------------------------------------------------
  // Copying

  /**
   The loop shared by the copy constructor and assignment: for each key of
   `order`, initialise it in `acc` and append the source's values one by one.
   */
  function CopyFrom<K(!new), V>(src: map<K, seq<V>>, order: seq<K>, acc: map<K, seq<V>>): (r: map<K, seq<V>>)
    requires !HasDuplicates(order)
    requires forall i | 0 <= i < |order| :: order[i] in src && order[i] !in acc
    ensures forall k :: k in r <==> k in acc || k in order
    ensures forall k | k in acc :: r[k] == acc[k]
    ensures forall k | k in order :: r[k] == src[k]
    decreases |order|
  {
    if order == [] then acc
    else
      var key := order[0];
      var m := InitKey(acc, key);
      assert !HasDuplicates(order[1..]) && key !in order[1..];
      CopyFrom(src, order[1..], m[key := AppendEach(m[key], src[key])])
  }

  /** Copying every key of `src`, in any enumeration order, rebuilds `src` exactly. */
  function CopyLists<K(!new), V>(src: map<K, seq<V>>, order: seq<K>): (r: map<K, seq<V>>)
    requires IsKeyOrder(order, src)
    ensures r == src
  {
    CopyFrom(src, order, map[])
  }

  /**
   The copy constructor. It copies every key and list but never initialises
   the duplicate flag, so the copy's flag is whatever value the member happens
   to hold; `indeterminate` stands for it.
   */
  function CopyConstruct<K(!new), V>(other: MultiHash<K, V>, order: seq<K>, indeterminate: bool): (r: MultiHash<K, V>)
    requires IsKeyOrder(order, other.hash)
    ensures Keys(r) == Keys(other)
    ensures forall k | k in other.hash :: r.hash[k] == other.hash[k]
    ensures r.duplicatesAllowed == indeterminate
  {
    MultiHash(CopyLists(other.hash, order), indeterminate)
  }

  /**
   The body of `operator=` inside the self-assignment guard: the target's lists
   are dropped and its hash cleared, then the keys and lists `other` holds at
   that point are copied in, enumerated in `order`. `sameObject` says whether
   `other` is the target itself; if so it has just been cleared too, so there
   is nothing left to copy.
   */
  function AssignBody<K(!new), V>(target: MultiHash<K, V>, other: MultiHash<K, V>, order: seq<K>, sameObject: bool): (r: MultiHash<K, V>)
    requires sameObject ==> target == other
    requires IsKeyOrder(order, if sameObject then map[] else other.hash)
    ensures sameObject ==> r.hash == map[]
    ensures !sameObject ==> r.hash == other.hash
    ensures r.duplicatesAllowed == target.duplicatesAllowed
  {
    var cleared := MultiHash(map[], target.duplicatesAllowed);
    var source := if sameObject then cleared else other;
    MultiHash(CopyLists(source.hash, order), target.duplicatesAllowed)
  }

  /**
   `operator=`. Self-assignment is caught by the guard and changes nothing.
   Otherwise the target's lists are discarded and replaced by copies of
   `other`'s, while the target keeps its own duplicate flag.
   */
  function Assign<K(!new), V>(target: MultiHash<K, V>, other: MultiHash<K, V>, order: seq<K>, sameObject: bool): (r: MultiHash<K, V>)
    requires sameObject ==> target == other
    requires IsKeyOrder(order, other.hash)
    ensures sameObject ==> r == target
    ensures Keys(r) == Keys(other)
    ensures forall k | k in other.hash :: r.hash[k] == other.hash[k]
    ensures r.duplicatesAllowed == target.duplicatesAllowed
  {
    if !sameObject then AssignBody(target, other, order, false) else target
  }

  /**
   Guarded self-assignment leaves the container unchanged, and so does
   assigning a distinct container with equal contents.
   */
  lemma SelfAssignmentIsNoOp<K(!new), V>(h: MultiHash<K, V>, order: seq<K>)
    requires IsKeyOrder(order, h.hash)
    ensures Assign(h, h, order, true) == h
    ensures Assign(h, h, order, false) == h
  {
    var r := Assign(h, h, order, false);
    assert r.hash == h.hash;
  }

  /**
   The guard is needed: without it, assigning a non-empty container to itself
   clears it before its keys are read, and leaves it empty.
   */
  lemma UnguardedSelfAssignmentEmpties<K(!new), V>(h: MultiHash<K, V>)
    requires Count(h) > 0
    ensures AssignBody(h, h, [], true) == MultiHash(map[], h.duplicatesAllowed)
    ensures Count(AssignBody(h, h, [], true)) == 0
    ensures AssignBody(h, h, [], true) != h
  {
    var none: seq<K> := [];
    assert !HasDuplicates(none);
  }
}
