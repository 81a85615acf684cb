# SingleKeyMultiHash in Dafny

A model of `SingleKeyMultiHash<Key, T>` from qt-toolbox: a multi-valued hash in
which each key owns one ordered list of values. A flag set at construction
(`duplicateValuesAllowed`, `true` by default) decides whether a key may hold
the same value twice. The Dafny model states what the class's `Q_ASSERT`
pre- and postconditions and its comments promise, and proves it.

The container is an immutable value, `MultiHash(hash: map<K, seq<V>>,
duplicatesAllowed: bool)`. Each mutating member is a pure function from the
old state to the new one. Where the C++ member returns a count, the function
returns the new state paired with that count. The queries are functions of the
state, so reading never changes the container. This is what the C++ code
achieves by returning lists by value. The invariant `Valid` has two parts:

- every present key holds a non-empty list;
- when duplicates are disallowed, no list holds a value twice.

Every mutating member except `operator=` preserves `Valid`. `operator=` can
break it (see Findings).

Files and modules:

- `value_list.dfy`, module `ValueList`: the per-key list operations the class
  relies on. These are the occurrence count, the duplicate check, `removeAll`
  and the value-by-value append used when copying.
- `key_order.dfy`, module `KeyOrder`: the hash's key order. QHash enumerates
  keys in an order the class does not define, so the model takes that order as
  a parameter `order`. The parameter must list every present key exactly once
  (`IsKeyOrder`). `keys()` and `values()` are proved for every such order, and
  `values()` is stated up to multiset.
- `multi_hash.dfy`, module `SingleKeyMultiHash`: the class itself, from
  construction through queries, insertion, removal, clearing, copying and
  assignment.
- `copy_policy.dfy`, module `CopyPolicy`: the findings about the duplicate
  flag under copying, with corrected copy and assignment.

The comments in the copy constructor and `operator=` (cxx:45 and cxx:60) say
that a copy gets its own lists. The code does copy the keys and lists, but it
does not copy the duplicate flag. The copy constructor leaves the flag uninitialised.
`operator=` keeps the target's flag. `CopyConstruct` and `Assign` model this as
written: the copy's flag is a parameter `indeterminate`, and the assignment's
result keeps `target.duplicatesAllowed`. Neither one claims the flag is
preserved. Because the model uses values, a copy and its original are
independent by construction: changing one cannot affect the other.

## Model

| member | source | states |
|---|---|---|
| `SingleKeyMultiHash.New` | qt-toolbox/SingleKeyMultiHash.h:43 | a new container has `count() == 0`, is valid and keeps the requested policy; the policy defaults to allowing duplicates |
| `SingleKeyMultiHash.ValuesOf` | qt-toolbox/SingleKeyMultiHash.cxx:125-141 | `values(key)` is empty for an absent key; in a valid container it is non-empty exactly for present keys, and duplicate-free when duplicates are disallowed |
| `SingleKeyMultiHash.Contains` | qt-toolbox/SingleKeyMultiHash.cxx:143-147 | in a valid container, `contains(key)` holds exactly when `values(key)` is non-empty |
| `SingleKeyMultiHash.CountOf` | qt-toolbox/SingleKeyMultiHash.cxx:164-171 | `count(key)` is the length of `values(key)`; it is 0 for an absent key and positive for a present key of a valid container |
| `SingleKeyMultiHash.CountValue` | qt-toolbox/SingleKeyMultiHash.cxx:173-180 | `count(key, value)` is the value's multiplicity in `values(key)` and at most `count(key)`; it is 0 for an absent key and at most 1 when duplicates are disallowed |
| `SingleKeyMultiHash.ContainsValue` | qt-toolbox/SingleKeyMultiHash.cxx:149-156 | `contains(key, value)` holds exactly when `count(key, value) > 0`, exactly when the value is in `values(key)`; it implies `contains(key)` |
| `SingleKeyMultiHash.Count` | qt-toolbox/SingleKeyMultiHash.cxx:158-162 | `count()` is 0 exactly when the container holds no key |
| `SingleKeyMultiHash.Keys` | qt-toolbox/SingleKeyMultiHash.cxx:292-296 | `keys()`, taken as a set, holds exactly the keys for which `contains(key)` is true |
| `SingleKeyMultiHash.KeysListMatchesCount` | qt-toolbox/SingleKeyMultiHash.cxx:268-278 | the `keys()` list has exactly `count()` entries, one per present key, whatever the hash order |
| `SingleKeyMultiHash.AllValues` | qt-toolbox/SingleKeyMultiHash.cxx:114-123 | `values()`, the concatenation of the lists in hash order (`KeyOrder.Flatten`), holds exactly the stored values of all keys, each as often as it is stored, whatever the hash order |
| `SingleKeyMultiHash.AllValuesOrderIndependent` | qt-toolbox/SingleKeyMultiHash.cxx:119-120 | two hash orders give `values()` lists that are permutations of each other |
| `SingleKeyMultiHash.AllValuesLength` | qt-toolbox/SingleKeyMultiHash.cxx:114-123 | the length of `values()` is the sum of `count(k)` over all present keys (`TotalLength`, defined without any key order), whatever order the hash uses |
| `SingleKeyMultiHash.InitKey` | qt-toolbox/SingleKeyMultiHash.cxx:232-242 | `_initKey` makes the key present; an absent key gets an empty list, and every existing entry is unchanged |
| `SingleKeyMultiHash.Insert` | qt-toolbox/SingleKeyMultiHash.cxx:87-106 | after `insert`, both `contains(key)` and `contains(key, value)` hold; the value is appended to the end of the key's list unless duplicates are disallowed and it is already there, in which case nothing changes; no other key's list changes; validity and the policy are kept |
| `SingleKeyMultiHash.InsertMulti` | qt-toolbox/SingleKeyMultiHash.cxx:108-112 | `insertMulti` is the same operation as `insert` |
| `SingleKeyMultiHash.InsertCounts` | qt-toolbox/SingleKeyMultiHash.cxx:95-101 | with duplicates allowed, `insert` raises `count(key, value)` and `count(key)` by one; otherwise `count(key, value)` becomes 1 and `count(key)` grows only for a new value; `count()` grows only for a new key |
| `SingleKeyMultiHash.DuplicateSuppression` | qt-toolbox/SingleKeyMultiHash.cxx:96-101 | with duplicates disallowed, inserting one pair twice leaves `count(key, value) == 1` and `count(key) == 1` |
| `SingleKeyMultiHash.DuplicateAllowance` | qt-toolbox/SingleKeyMultiHash.cxx:96-101 | with duplicates allowed, inserting one pair twice leaves `count(key, value) == 2` and `count(key) == 2` |
| `SingleKeyMultiHash.RemoveKey` | qt-toolbox/SingleKeyMultiHash.cxx:256-290 | `_removeKey` (and `remove(key)`, lines 182-186) returns the old `count(key)`, or 0 for an absent key; exactly that key disappears, `count()` drops by one when it was present, and the other lists are unchanged |
| `SingleKeyMultiHash.ClearKey` | qt-toolbox/SingleKeyMultiHash.cxx:250-254 | `clear(key)` has the effect of `remove(key)`, and the key is absent afterwards |
| `SingleKeyMultiHash.RemoveValue` | qt-toolbox/SingleKeyMultiHash.cxx:188-230 | `remove(key, value)` returns the old `count(key, value)`, or 0 for an absent key; afterwards `contains(key, value)` is false and the key's list is the old one without that value, in the same order; the key stays present exactly when something is left; other keys and validity are kept |
| `SingleKeyMultiHash.RemoveValueKeepsValid` | qt-toolbox/SingleKeyMultiHash.cxx:220-223 | a list that is still non-empty after `removeAll` keeps the container valid |
| `SingleKeyMultiHash.RemoveEachLeaves` | qt-toolbox/SingleKeyMultiHash.cxx:199-200 | after `remove(key, v)` for each `v` of a sequence, a value is still under the key exactly when it was there before and is not in the sequence; validity and the policy are kept |
| `SingleKeyMultiHash.RemoveEachPrunesKey` | qt-toolbox/SingleKeyMultiHash.cxx:202-216 | removing values one by one makes the key absent from `contains` and from `keys()` exactly when every value it held has been removed |
| `SingleKeyMultiHash.RemoveValueUndoesInsert` | qt-toolbox/SingleKeyMultiHash.cxx:188-230 | `remove(key, value)` right after inserting a value the key did not hold restores the container and returns 1 |
| `SingleKeyMultiHash.RemoveKeyUndoesInsert` | qt-toolbox/SingleKeyMultiHash.cxx:256-290 | `remove(key)` after `insert(key, value)` gives the same container as `remove(key)` alone |
| `SingleKeyMultiHash.Clear` | qt-toolbox/SingleKeyMultiHash.cxx:244-248 | after `clear()`, `count()` is 0, no key is present, every `values(key)` is empty, and the policy is kept |
| `SingleKeyMultiHash.CopyFrom` | qt-toolbox/SingleKeyMultiHash.cxx:69-75 | the copy loop adds exactly the listed keys, each with the source's list in the same order, and leaves the existing entries alone |
| `SingleKeyMultiHash.CopyLists` | qt-toolbox/SingleKeyMultiHash.cxx:46-52 | the copy loop, run over every key in any hash order, reproduces the source's keys and lists exactly |
| `SingleKeyMultiHash.CopyConstruct` | qt-toolbox/SingleKeyMultiHash.cxx:42-53 | the copy constructor transfers every key with the same values in the same order; the copy's flag is the indeterminate value and is not the source's |
| `SingleKeyMultiHash.AssignBody` | qt-toolbox/SingleKeyMultiHash.cxx:60-75 | the guarded body of `operator=` leaves the target with exactly the lists `other` holds once the target is cleared: `other`'s lists for a distinct container, none when `other` is the target itself; the target's flag is kept |
| `SingleKeyMultiHash.Assign` | qt-toolbox/SingleKeyMultiHash.cxx:55-78 | self-assignment is caught by the guard and changes nothing; otherwise the target ends up with exactly the source's keys and lists and keeps its own flag |
| `SingleKeyMultiHash.SelfAssignmentIsNoOp` | qt-toolbox/SingleKeyMultiHash.cxx:58-76 | guarded self-assignment leaves the container unchanged, and so does assigning a distinct container with equal contents |
| `SingleKeyMultiHash.UnguardedSelfAssignmentEmpties` | qt-toolbox/SingleKeyMultiHash.cxx:58-75 | without the guard at line 58, assigning a non-empty container to itself clears it before its keys are read and leaves it empty, so it differs from the original |
| `ValueList.Occurrences` | qt-toolbox/SingleKeyMultiHash.cxx:177 | the occurrence count of a value in a list is its multiplicity; it is positive exactly when the value is in the list |
| `ValueList.NoDuplicatesIffAtMostOnce` | qt-toolbox/SingleKeyMultiHash.cxx:298-311 | `_hasDuplicates` (the predicate `ValueList.HasDuplicates`) is false exactly when every value occurs at most once |
| `ValueList.AppendFreshKeepsNoDuplicates` | qt-toolbox/SingleKeyMultiHash.cxx:96-105 | appending a value that is not yet in a duplicate-free list keeps it duplicate-free |
| `ValueList.RemoveAll` | qt-toolbox/SingleKeyMultiHash.cxx:199 | `removeAll` leaves no occurrence of the value, keeps every other value's multiplicity, and shortens the list by the number of occurrences |
| `ValueList.RemoveAllAppend` | qt-toolbox/SingleKeyMultiHash.cxx:199 | `removeAll` distributes over concatenation, so the remaining values keep their order |
| `ValueList.RemoveAllAbsent` | qt-toolbox/SingleKeyMultiHash.cxx:199 | `removeAll` of an absent value leaves the list unchanged |
| `ValueList.RemoveAllUndoesAppend` | qt-toolbox/SingleKeyMultiHash.cxx:199 | removing a value that was just appended to a list without it gives back the list |
| `ValueList.RemoveAllKeepsNoDuplicates` | qt-toolbox/SingleKeyMultiHash.cxx:199-200 | `removeAll` never introduces a duplicate |
| `ValueList.AppendEach` | qt-toolbox/SingleKeyMultiHash.cxx:50-51 | appending the values one at a time yields the old list followed by all of them in order |
| `KeyOrder.KeyOrderLength` | qt-toolbox/SingleKeyMultiHash.cxx:271 | any enumeration of the keys has as many entries as the hash has keys |
| `KeyOrder.FlattenIsBag` | qt-toolbox/SingleKeyMultiHash.cxx:119-120 | concatenating the lists in any enumeration order yields every stored value with its multiplicity |
| `KeyOrder.TotalLengthRemove` | qt-toolbox/SingleKeyMultiHash.cxx:119-120 | the total number of stored values is the length of any one key's list plus the total of the other keys |
| `KeyOrder.FlattenLength` | qt-toolbox/SingleKeyMultiHash.cxx:119-120 | concatenating the lists in any enumeration order gives a list as long as the total number of stored values |
| `CopyPolicy.InsertTwiceAllowed` | qt-toolbox/SingleKeyMultiHash.cxx:96-101 | two `insert(0, 0)` calls on a default container give key 0 the list `[0, 0]` |
| `CopyPolicy.AssignCanBreakNoDuplicates` | qt-toolbox/SingleKeyMultiHash.cxx:55-78 | assigning the container `0 → [0, 0]` to a container that disallows duplicates yields an invalid container holding `[0, 0]` with duplicates disallowed |
| `CopyPolicy.InsertAfterBrokenAssign` | qt-toolbox/SingleKeyMultiHash.cxx:103-105 | inserting into that container leaves a list with a duplicate, while duplicates are disallowed, which is the state the check at line 105 rejects |
| `CopyPolicy.CopyConstructCanDropPolicy` | qt-toolbox/SingleKeyMultiHash.cxx:42-53 | a copy of a container that disallows duplicates stores a value twice when its uninitialised flag reads true, where the original stores it once |
| `CopyPolicy.CopyOf` | qt-toolbox/SingleKeyMultiHash.cxx:42-53 | the corrected copy constructor yields a container equal to the original, and valid when the original is |
| `CopyPolicy.AssignWithPolicy` | qt-toolbox/SingleKeyMultiHash.cxx:55-78 | the corrected assignment makes the target equal to the source, self-assignment included, so a valid source gives a valid target |

## Left out

- `ThreadSafeCounter` (qt-toolbox/ThreadSafeCounter.h) is not part of this model. It is a blocking cross-thread counter over a semaphore, and the acquire/release semantics it relies on are not visible. One oddity in it, not modelled: a negative initial value is passed unchanged to `decrement`, so `release` is called with a negative count.
- `bash.py`, `python_toolbox/bash.py` and `qt-toolbox/pqmake.py` are not part of this model. They are subprocess, console and build-script wrappers made of I/O.
- Heap allocation of the per-key lists, the `delete` calls and the destructor are left out. The lists are owned values, so ownership is not observable. This covers the lists `clear()` leaks, since it never deletes them, and the NULL-pointer checks, since a present key always has a list.
- The `qWarning` diagnostic printed on a refused duplicate insert is left out because it is a debug-build side effect.
- The `QSet`-based scan inside `_hasDuplicates` is left out; it is modelled by the predicate `HasDuplicates`.
- The concrete QHash iteration order is not modelled. It is the parameter `order`, and results are proved for every order.
- Object identity in `operator=` (`this != &other`) is the parameter `sameObject`. Aliasing is modelled only for self-assignment, where `AssignBody` reads `other` after the target is cleared. A distinct container with equal contents is a different value of `sameObject`.
- The uninitialised flag of the copy constructor is the parameter `indeterminate`, because its real value is undefined.
- `CountOf`, `CountValue`, `Count` and the count returned by `RemoveKey` and `RemoveValue` are unbounded naturals. They do not model the 32-bit `int` the C++ members return, because overflow needs more than 2^31 entries.

## Findings

| source | as written | input that shows it | evidently intended | confidence | as-written member | corrected member |
|---|---|---|---|---|---|---|
| qt-toolbox/SingleKeyMultiHash.cxx:55-78 | `operator=` copies the keys and lists but never assigns the duplicate flag, so the target keeps its own | target built with duplicates disallowed; source default-constructed, after `insert(0, 0)` twice holds `0 → [0, 0]`; after `target = source` the target holds `[0, 0]` with duplicates disallowed, and `insert(0, 1)` then fails the assertion at line 105 | the flag is assigned along with the lists, so the target equals the source | medium, not executed | `CopyPolicy.AssignCanBreakNoDuplicates` | `CopyPolicy.AssignWithPolicy` |
| qt-toolbox/SingleKeyMultiHash.cxx:42-53 | the copy constructor never initialises the duplicate flag | copy a container built with duplicates disallowed that holds `0 → [0]`; when the copy's flag reads true, `insert(0, 0)` on the copy stores 0 twice, while the original refuses it | the copy takes the original's flag | high, not executed | `CopyPolicy.CopyConstructCanDropPolicy` | `CopyPolicy.CopyOf` |
