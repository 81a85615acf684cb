/**
 Operations on one key's value list (a `QList<T>` in the container).

 Only the list operations the container relies on are modelled: counting the
 occurrences of a value, the duplicate check, `removeAll` and the element-wise
 append loop used when copying.
 */
module ValueList {

  /** Number of occurrences of `v` in `s` (QList's `count(value)`). */
  function Occurrences<V(==)>(s: seq<V>, v: V): (n: nat)
    ensures n == multiset(s)[v]
    ensures n <= |s|
    ensures n > 0 <==> v in s
  {
    if s == [] then 0
    else
      assert s == [s[0]] + s[1..];
      (if s[0] == v then 1 else 0) + Occurrences(s[1..], v)
  }

  /** True when some value appears at two different positions of `s`. */
  predicate HasDuplicates<V(==)>(s: seq<V>)
  {
    exists i, j | 0 <= i < j < |s| :: s[i] == s[j]
  }

  /** A list has no duplicates exactly when every value occurs at most once. */
  lemma {:induction false} NoDuplicatesIffAtMostOnce<V>(s: seq<V>)
    ensures !HasDuplicates(s) <==> forall v :: Occurrences(s, v) <= 1
  {
    if s == [] {
    } else {
      NoDuplicatesIffAtMostOnce(s[1..]);
      if HasDuplicates(s) {
        var i, j :| 0 <= i < j < |s| && s[i] == s[j];
        if i == 0 {
          assert s[1..][j - 1] == s[0];
          assert Occurrences(s, s[0]) >= 2;
        } else {
          assert s[1..][i - 1] == s[1..][j - 1];
          assert HasDuplicates(s[1..]);
          var v :| Occurrences(s[1..], v) > 1;
          assert Occurrences(s, v) > 1;
        }
      } else {
        assert !HasDuplicates(s[1..]);
        assert s[0] !in s[1..];
        forall v ensures Occurrences(s, v) <= 1 {
          assert Occurrences(s[1..], v) <= 1;
        }
      }
    }
  }

  /** Appending a value that is absent keeps a duplicate-free list duplicate-free. */
  lemma AppendFreshKeepsNoDuplicates<V>(s: seq<V>, v: V)
    requires !HasDuplicates(s)
    requires v !in s
    ensures !HasDuplicates(s + [v])
  {
    NoDuplicatesIffAtMostOnce(s);
    forall x ensures Occurrences(s + [v], x) <= 1 {
      assert multiset(s + [v]) == multiset(s) + multiset{v};
      assert Occurrences(s, x) <= 1;
      assert Occurrences(s, v) == 0;
    }
    NoDuplicatesIffAtMostOnce(s + [v]);
  }

  /**
   `s` with every occurrence of `v` removed, the other values keeping their
   order (QList's `removeAll(value)`; the number removed is `|s| - |r|`).
   */
  function RemoveAll<V(==)>(s: seq<V>, v: V): (r: seq<V>)
    ensures v !in r
    ensures multiset(r) == multiset(s)[v := 0]
    ensures |r| == |s| - Occurrences(s, v)
  {
    if s == [] then []
    else
      assert s == [s[0]] + s[1..];
      if s[0] == v then RemoveAll(s[1..], v)
      else [s[0]] + RemoveAll(s[1..], v)
  }

  /** Removal works piecewise, so the surviving values keep their relative order. */
  lemma {:induction false} RemoveAllAppend<V>(a: seq<V>, b: seq<V>, v: V)
    ensures RemoveAll(a + b, v) == RemoveAll(a, v) + RemoveAll(b, v)
  {
    if a == [] {
      assert a + b == b;
    } else {
      assert (a + b)[1..] == a[1..] + b;
      RemoveAllAppend(a[1..], b, v);
    }
  }

  /** Removing a value that is absent leaves the list unchanged. */
  lemma {:induction false} RemoveAllAbsent<V>(s: seq<V>, v: V)
    requires v !in s
    ensures RemoveAll(s, v) == s
  {
    if s != [] {
      assert v !in s[1..];
      RemoveAllAbsent(s[1..], v);
    }
  }

  /** Removing the value just appended, when it was not there before, gives back the list. */
  lemma RemoveAllUndoesAppend<V>(s: seq<V>, v: V)
    requires v !in s
    ensures RemoveAll(s + [v], v) == s
  {
    RemoveAllAppend(s, [v], v);
    RemoveAllAbsent(s, v);
    assert RemoveAll([v], v) == [];
  }

  /** Removing values never introduces a duplicate. */
  lemma RemoveAllKeepsNoDuplicates<V>(s: seq<V>, v: V)
    requires !HasDuplicates(s)
    ensures !HasDuplicates(RemoveAll(s, v))
  {
    NoDuplicatesIffAtMostOnce(s);
    var r := RemoveAll(s, v);
    forall x ensures Occurrences(r, x) <= 1 {
      assert Occurrences(s, x) <= 1;
    }
    NoDuplicatesIffAtMostOnce(r);
  }

  /**
   Appends the values of `vs` to `acc` one at a time, in order, as the copy
   constructor and assignment fill each freshly created list.
   */
  function AppendEach<V>(acc: seq<V>, vs: seq<V>): (r: seq<V>)
    ensures r == acc + vs
    decreases |vs|
  {
    if vs == [] then acc
    else
      assert acc + vs == (acc + [vs[0]]) + vs[1..];
      AppendEach(acc + [vs[0]], vs[1..])
  }
}
