/**
 The duplicate flag under copying.

 Neither the copy constructor nor `operator=` transfers the duplicate flag:
 the constructor leaves it uninitialised and assignment keeps the target's.
 Both as-written members live in `SingleKeyMultiHash`; this module exhibits
 what goes wrong with them and gives the corrected versions, which copy the
 flag along with the lists.
 */
module CopyPolicy {
  import opened ValueList
  import opened KeyOrder
  import opened SingleKeyMultiHash

  /** Two `insert(0, 0)` calls on a default container give key 0 the list `[0, 0]`. */
  lemma InsertTwiceAllowed()
    ensures Insert(Insert(New<int, int>(), 0, 0), 0, 0) == MultiHash(map[0 := [0, 0]], true)
  {
    var h0 := New<int, int>();
    var h1 := Insert(h0, 0, 0);
    assert h1.hash.Keys == {0} && ValuesOf(h1, 0) == [0];
    assert h1.hash == map[0 := [0]];
    var h2 := Insert(h1, 0, 0);
    assert h2.hash.Keys == {0} && ValuesOf(h2, 0) == [0, 0];
  }

  /**
   Assigning a container that holds a value twice (the one built above) to a
   container that forbids duplicates yields a container that breaks its own
   invariant.
   */
  lemma AssignCanBreakNoDuplicates()
    ensures var source := MultiHash(map[0 := [0, 0]], true);
            var r := Assign(New<int, int>(false), source, [0], false);
            && Valid(source)
            && r == MultiHash(map[0 := [0, 0]], false)
            && !Valid(r)
  {
    AssignOfDoubledValue();
    DoubledValueIsInvalid();
  }

  /** The assignment itself: lists copied, target's flag kept. */
  lemma AssignOfDoubledValue()
    ensures var source := MultiHash(map[0 := [0, 0]], true);
            IsKeyOrder([0], source.hash)
            && Assign(New<int, int>(false), source, [0], false) == MultiHash(map[0 := [0, 0]], false)
  {
    var source := MultiHash(map[0 := [0, 0]], true);
    assert !HasDuplicates([0]);
    assert IsKeyOrder([0], source.hash);
    assert CopyLists(source.hash, [0]) == source.hash;
  }

  /** A list holding a value twice is valid only when duplicates are allowed. */
  lemma DoubledValueIsInvalid()
    ensures Valid(MultiHash(map[0 := [0, 0]], true))
    ensures !Valid(MultiHash(map[0 := [0, 0]], false))
  {
    var l: seq<int> := [0, 0];
    assert l[0] == l[1];
    assert HasDuplicates(l);
    var m := map[0 := l];
    assert 0 in m && m[0] == l;
  }

  /**
   The next `insert` under that key then fails the check that a list of a
   duplicate-free container has no duplicates.
   */
  lemma InsertAfterBrokenAssign()
    ensures var broken := MultiHash(map[0 := [0, 0]], false);
            && !Insert(broken, 0, 1).duplicatesAllowed
            && HasDuplicates(ValuesOf(Insert(broken, 0, 1), 0))
  {
    var broken := MultiHash(map[0 := [0, 0]], false);
    assert !ContainsValue(broken, 0, 1);
    var l := ValuesOf(Insert(broken, 0, 1), 0);
    assert l == [0, 0] + [1];
    assert l[0] == l[1];
  }

  /**
   A copy of a container that forbids duplicates may accept them: whether it
   does depends on the uninitialised flag.
   */
  lemma CopyConstructCanDropPolicy()
    ensures var other := MultiHash(map[0 := [0]], false);
            var copy := CopyConstruct(other, [0], true);
            && other == Insert(New<int, int>(false), 0, 0)
            && Keys(copy) == Keys(other)
            && CountValue(Insert(other, 0, 0), 0, 0) == 1
            && CountValue(Insert(copy, 0, 0), 0, 0) == 2
  {
    InsertOnceRefused();
    CopyWithFlagSet();
    InsertDuplicateAccepted();
  }

  /** A container built with duplicates disallowed, holding `0 → [0]`, refuses a second 0. */
  lemma InsertOnceRefused()
    ensures Insert(New<int, int>(false), 0, 0) == MultiHash(map[0 := [0]], false)
    ensures Insert(MultiHash(map[0 := [0]], false), 0, 0) == MultiHash(map[0 := [0]], false)
  {
    var h := Insert(New<int, int>(false), 0, 0);
    assert h.hash.Keys == {0} && ValuesOf(h, 0) == [0];
    assert h.hash == map[0 := [0]];
    assert ContainsValue(h, 0, 0);
  }

  /** Its copy whose flag happens to read true. */
  lemma CopyWithFlagSet()
    ensures IsKeyOrder([0], map[0 := [0]])
    ensures CopyConstruct(MultiHash(map[0 := [0]], false), [0], true) == MultiHash(map[0 := [0]], true)
  {
    var m: map<int, seq<int>> := map[0 := [0]];
    assert !HasDuplicates([0]);
    assert IsKeyOrder([0], m);
    var c := CopyConstruct(MultiHash(m, false), [0], true);
    assert c.hash.Keys == {0};
    assert c.hash[0] == [0];
  }

  /** That copy accepts a second 0, which the original refuses. */
  lemma InsertDuplicateAccepted()
    ensures CountValue(MultiHash(map[0 := [0]], false), 0, 0) == 1
    ensures CountValue(Insert(MultiHash(map[0 := [0]], true), 0, 0), 0, 0) == 2
  {
    var l: seq<int> := [0];
    assert multiset(l)[0] == 1;
    assert ValuesOf(Insert(MultiHash(map[0 := l], true), 0, 0), 0) == l + [0];
    assert multiset(l + [0])[0] == 2;
  }

  /**
   The copy constructor with the flag copied: the copy equals the original, so
   every later member call behaves on it exactly as on the original.
   */
  function CopyOf<K(!new), V>(other: MultiHash<K, V>, order: seq<K>): (r: MultiHash<K, V>)
    requires IsKeyOrder(order, other.hash)
    ensures r == other
    ensures Valid(other) ==> Valid(r)
  {
    MultiHash(CopyLists(other.hash, order), other.duplicatesAllowed)
  }

  /**
   `operator=` with the flag assigned too: the target becomes equal to the
   source (self-assignment included), so a valid source gives a valid target.
   */
  function AssignWithPolicy<K(!new), V>(target: MultiHash<K, V>, other: MultiHash<K, V>, order: seq<K>, sameObject: bool): (r: MultiHash<K, V>)
    requires sameObject ==> target == other
    requires IsKeyOrder(order, other.hash)
    ensures r == other
    ensures Valid(other) ==> Valid(r)
  {
    if !sameObject then
      MultiHash(CopyLists(other.hash, order), other.duplicatesAllowed)
    else
      target
  }
}
