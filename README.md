# Skip list index, modelled in Dafny

This project models the sequential core of a C++ skip list:
`SkipList<KeyType, ValueType, KeyComparator>` together with its nodes, its forward iterator and the fixed-width key codec the list is instantiated with.

The list is an ordered map from keys to values. A head sentinel of height `max_height` starts every level. Each node carries a key, a value, a height and an array of `height` forward links.

The model keeps that structure in the heap, as the C++ code does:
- every node is a `SkipListNode` object;
- its `forward` field is an `array` whose cells `Insert`, `Remove` and the destructor rewrite in place;
- the `SkipList` class holds the comparator, `max_height`, the seed, the head and `size_`.

Three ghost fields of `SkipList` say what the links mean:
- `levels[l]` is the sequence of nodes a walk along level `l` visits, the head first;
- `contents` is the map its level-0 nodes stand for;
- `Repr` is the set of forward arrays the list owns.

`Valid()` is the list's representation invariant. It requires that:
- every level is linked by the forward arrays and strictly sorted by the comparator;
- no node occurs twice on a level;
- the levels form a ladder: a node is on exactly the levels below its height, and every level is a subset of level 0;
- `size_` is one less than the length of level 0;
- the nodes past the head represent `contents`.

Every operation is a method proved against that invariant and the abstract map:
- `Lookup`, `Insert` and `Remove` are the staircase descents of `src/skiplist.cpp`. Each is split into one method per level and one lemma per step of the invariant.
- `RandomHeight` draws from a model of the C library's `srand`/`rand` (`Rand`). The numbers rand returns after a seed are a parameter (an oracle), not computed.
- The iterator walks level 0 from `begin()` to `end()`. `Scan` in `skiplist_tests.dfy` is the tests' traversal loop, proved to yield the map's entries in strictly increasing key order.
- `GenericKey<8>`, `GenericValue<8>` and `GenericComparator<8>` are modelled on byte buffers. The comparator is proved to be the strict total order the list requires of its `KeyComparator`.

The scenarios of the sequential tests are methods of `skiplist_tests.dfy`. Their assertions restate the tests' expectations on small lists:
- an empty list (EmptyTest);
- a refused duplicate insert (MixTest1); the scenario also asserts that the first value is kept, which goes beyond the tests, since they re-insert the same value;
- iteration order (InsertTest); the scenario inserts 2 before 1, while InsertTest inserts its keys in increasing order, so the sorted traversal does not follow from the insertion order;
- removing a key, not finding it, and removing it again (DeleteTest2 and MixTest1).

Where the header and the implementation disagree, the model follows `src/skiplist.cpp`:
- The header declares a four-argument constructor with a `branching` parameter and a `branching_` field (`src/skiplist.h:19-20`, `src/skiplist.h:92`). The implementation defines a three-argument constructor `(comparator, max_height, rnd)` and never reads `branching_` (`src/skiplist.cpp:11`). The model's constructor takes no branching factor; the branching factor is the constant 2 inside `RandomHeight` (`src/skiplist.cpp:125`). The model's constructor has three parameters the C++ one does not. `headKey` and `headValue` stand for the value-initialised `KeyType key{}` and `ValueType value{}` of the head (`src/skiplist.cpp:16-17`). `rng` stands for the process-wide C generator that `srand` seeds.
- The header comments out `mtx_` (`src/skiplist.h:89`), while `Lookup`, `Insert` and `Remove` lock it in the implementation (`src/skiplist.cpp:23`, `45` and `86`). `Size()`, `begin()`, `end()`, `RandomHeight` and the destructor take no lock. The model is sequential and has no lock.
- The explicit instantiation uses `int64_t` values (`src/skiplist.cpp:202`), while the tests use `GenericValue<8>`. The list is generic in its value type; the scenarios use `int64`.

Encoding and width decisions:
- Keys are modelled as byte sequences of length 8, because the code and tests instantiate `GenericKey<8>` only. `SetFromInteger` writes the eight bytes of an `int64_t` least significant byte first: that byte order is the model's own choice. `ToInteger` reads the same bytes back in the same order as two's complement, so no property proved here depends on it.
- Unbounded `nat` stands for `size_t`. The list's `size_` and heights never come near 2^64.

## Model

| member | source | states |
|---|---|---|
| GenericKeys.DecodeEncode | src/generic_key.h:12-16 | ToInteger of a buffer just set by SetFromInteger(k) is k, for every key size of at least 8 bytes |
| GenericKeys.EncodeDecode | src/generic_key.h:12-16 | for 8-byte keys the codec is a bijection: setting a buffer from its own integer gives back the same bytes |
| GenericKeys.EncodePadding | src/generic_key.h:13-14 | every byte past the first 8 is zero after SetFromInteger |
| GenericKeys.SetBuffer | src/generic_key.h:13-14 | the memset-then-memcpy loops leave the buffer equal to the encoding of the integer |
| GenericKeys.GenericKey.SetFromInteger | src/generic_key.h:12-16 | the key buffer holds the encoding of k, and ToInteger() returns k afterwards |
| GenericKeys.GenericValue.SetFromInteger | src/generic_key.h:31-35 | the value buffer holds the encoding of v, and ToInteger() returns v afterwards |
| GenericKeys.GenericValue.Equals | src/generic_key.h:42 | operator== holds exactly when the two buffers hold the same bytes |
| GenericKeys.BytesEqualEncoded | src/generic_key.h:31-42 | two values set from integers compare equal exactly when the integers are equal |
| GenericKeys.CompareEncoded | src/generic_key.h:51-58 | the comparator on encoded keys returns -1, 0 or 1 as the integers compare by <, == or > |
| GenericKeys.CompareIsTotalOrder | src/generic_key.h:51-58 | the comparator returns -1, 0 or 1, is reflexive, antisymmetric and transitive, and returns 0 exactly when the decoded integers are equal |
| GenericKeys.CompareOnKey8IsTotalOrder | src/generic_key.h:48-59 | on 8-byte keys the comparator is a strict three-way total order whose 0 means equal keys, which is what the list demands of KeyComparator |
| SkipListNodes.SkipListNode.constructor | src/skiplist.h:35-42 | the node holds the given key, value and height, and a fresh forward array of exactly height slots, all null |
| SkipListNodes.WalkLevel | src/skiplist.cpp:29-33 | the inner loop stops on the last node of the level whose key is below the target (or where it started), and p is its successor, null or not below the target |
| SkipListNodes.KeyAbsent | src/skiplist.cpp:34-38 | where a walk stops without an equal key next, no node of that level carries the key |
| SkipListNodes.SortedInsert | src/skiplist.cpp:74-77 | splicing a node in where the walk stopped keeps the level strictly sorted |
| SkipListNodes.LinkedSplice | src/skiplist.cpp:75-76 | the two rewritten links, plus the untouched ones, link exactly the level with the new node spliced in |
| SkipListNodes.LinkedUnlink | src/skiplist.cpp:100 | the rewritten link, plus the untouched ones, link exactly the level with the node dropped |
| SkipLists.Rand.Srand | src/skiplist.cpp:14 | srand sets the seed and restarts the sequence of draws |
| SkipLists.Rand.NextDraw | src/skiplist.cpp:127 | rand returns the next draw of the current seed, at most RAND_MAX, and advances the count |
| SkipLists.Descend | src/skiplist.cpp:26-40 | the staircase descent returns a node of the list with the key, or null when no node of level 0 carries it |
| SkipLists.DescendLevel | src/skiplist.cpp:29-38 | one level of the descent either reports the node with an equal key or shows the level lacks the key, and gives the position the walk resumes from one level down |
| SkipLists.SpliceAfter | src/skiplist.cpp:75-76 | rewriting the two links splices the new node into one level and leaves every other level linked as before |
| SkipLists.WalkAndDrop | src/skiplist.cpp:69-73 | the inner walk of Insert's second descent and of Remove (also 93-97) stops on the last node below the key, with p its successor, and gives the position it resumes from one level down |
| SkipLists.SpliceInto | src/skiplist.cpp:74-77 | splicing the new node in where the walk stopped rewrites exactly that level to the spliced level and moves the insertion one level down |
| SkipLists.SpliceLevel | src/skiplist.cpp:69-78 | one pass of Insert's second descent: walk the level, splice the node in if the level is below its height, and resume one level down |
| SkipLists.SpliceAll | src/skiplist.cpp:66-79 | the second descent of Insert adds the new node, and no other, to every level below its height, and leaves the levels at or above its height unchanged; the result is a well-formed list with one more level-0 node, representing the old map plus the new entry |
| SkipLists.UnlinkAfter | src/skiplist.cpp:100 | rewriting the predecessor's link drops the node from one level and leaves every other level linked as before |
| SkipLists.UnlinkLevel | src/skiplist.cpp:93-101 | one level of Remove unlinks the node with the key if the level holds it, and makes it the node to delete |
| SkipLists.UnlinkAll | src/skiplist.cpp:89-103 | the descent of Remove returns the node with the key (null if none) after unlinking it from every level it was on; the list is well formed and no longer reaches that node |
| SkipLists.RemovedEntries | src/skiplist.cpp:98-107 | no node is found exactly when the key is absent, and level 0 afterwards represents the map without the key |
| SkipLists.RepresentsInsert | src/skiplist.cpp:74-80 | adding a node with a new key to level 0 adds exactly its entry to the map |
| SkipLists.RepresentsRemove | src/skiplist.cpp:98-109 | dropping the only node with a key from level 0 drops exactly that key's entry |
| SkipLists.LadderInsert | src/skiplist.cpp:74-77 | adding a node to exactly the levels below its height keeps the ladder of levels |
| SkipLists.LadderRemove | src/skiplist.cpp:98-101 | dropping a node from exactly the levels below its height keeps the ladder of levels |
| SkipLists.EntryCount | src/skiplist.cpp:80-109 | on a sorted level 0, the map has one entry per node past the head, so size_ counts the map's entries |
| SkipLists.EntriesRepresent | src/skiplist.cpp:168-188 | the (key, value) pairs of the nodes past the head are exactly the entries of the map they represent |
| SkipLists.FreeAll | src/skiplist.cpp:193-197 | the destructor's loop frees every node past the head, in level-0 order, and leaves the head's level-0 link null |
| SkipLists.SkipList.constructor | src/skiplist.cpp:11-19 | a new list is valid, empty and of size 0, with a fresh head of max_height null links, and the generator seeded with rnd |
| SkipLists.SkipList.Size | src/skiplist.h:26 | Size() reads size_ without changing anything, and it equals the number of entries of the map and of level-0 nodes past the head |
| SkipLists.SkipList.Search | src/skiplist.cpp:26-40 | the descent finds a node exactly when the key is in the map, and the node found carries that key |
| SkipLists.SkipList.Lookup | src/skiplist.cpp:22-41 | returns true exactly when the key is in the map; on true it appends exactly the value stored with the key, on false the result is unchanged |
| SkipLists.SkipList.Insert | src/skiplist.cpp:44-82 | returns true exactly when the key was absent; then the map gains the entry and size_ grows by 1; on false the map, size_, links, footprint and draws are unchanged; the list stays valid |
| SkipLists.SkipList.Link | src/skiplist.cpp:64-81 | splicing a fresh node with a new key keeps the list valid, adds its entry to the map and grows size_ by 1 |
| SkipLists.SkipList.Remove | src/skiplist.cpp:85-111 | returns true exactly when the key was present; the map afterwards lacks the key and keeps every other entry; size_ drops by 1 on true; on true exactly one array leaves the footprint; on false the levels and footprint are unchanged; the list stays valid |
| SkipLists.SkipList.Release | src/skiplist.cpp:104-110 | with no node found it reports false and keeps the footprint; otherwise it frees the node (its forward array, which the list owned, leaves the footprint) and decrements size_, keeping the list valid |
| SkipLists.SkipList.Adopt | src/skiplist.cpp:80 | once the levels reach the new node, its forward array joins the footprint, the map gains its entry and size_ grows by 1, keeping the list valid |
| SkipLists.SkipList.RandomHeight | src/skiplist.cpp:123-133 | the height is between 1 and max_height; every draw but the last one taken was below RAND_MAX / 2, and the loop stops early only on a draw at or above it |
| SkipLists.SkipList.Begin | src/skiplist.cpp:168-171 | begin() is an iterator on the first node past the head, null for an empty list |
| SkipLists.SkipList.End | src/skiplist.cpp:173-188 | end() is the null position |
| SkipLists.SkipList.Destroy | src/skiplist.cpp:191-200 | the destructor frees exactly the nodes past the head, in level-0 order |
| SkipLists.SkipList.EntriesInOrder | src/skiplist.cpp:168-188 | the pairs a traversal from begin() meets have strictly increasing keys by the comparator |
| SkipLists.SkipList.EntriesAreContents | src/skiplist.cpp:168-188 | the traversal meets as many pairs as size_, and they are exactly the map's entries |
| SkipLists.SkipList.DerefAt | src/skiplist.h:66-69 | operator* on a node of level 0 gives that node's key and value, which is the corresponding pair of the traversal and an entry of the map |
| SkipLists.SkipList.EndAt | src/skiplist.h:76-77 | an iterator compares equal to end() exactly when it is past the last node, and operator!= is the complement |
| SkipLists.Iterator.constructor | src/skiplist.h:64 | the iterator stands on the given node |
| SkipLists.Iterator.Advance | src/skiplist.h:71-75 | operator++ moves from a node of a level to the next node of that level (null past the last node), changing nothing else |
| SkipListTests.KeyOf | src/generic_key.h:12-16 | the buffer SetFromInteger(k) leaves in a GenericKey<8> decodes to k |
| SkipListTests.Walk | test/skiplist_sequential_test.cpp:54-57 | the loop from begin() to end() collects the (key, value) pairs of level 0 past the head, in order |
| SkipListTests.Scan | test/skiplist_sequential_test.cpp:47-57 | a traversal of a valid list yields its pairs in strictly increasing key order, one per entry of the map, and no others |
| SkipListTests.EmptyScenario | test/skiplist_sequential_test.cpp:8-18 | a new list of height 5 has size 0, and neither Lookup nor Remove finds key 0 |
| SkipListTests.DuplicateScenario | test/skiplist_sequential_test.cpp:177-182 | a first insert of a key reports true and a second reports false; Lookup then finds exactly the first value |
| SkipListTests.IterateScenario | test/skiplist_sequential_test.cpp:47-57 | after inserting 2 and then 1, the traversal yields the pairs of 1 and 2 in that order |
| SkipListTests.DeleteScenario | test/skiplist_sequential_test.cpp:129-147 | removing an inserted key reports true, Lookup then misses it, and removing it again reports false |
| SkipListTests.StaysRemoved | test/skiplist_sequential_test.cpp:184-187 | on a key not in the list, Lookup reports false and Remove reports false |
| SkipListTests.InsertOneAndScan | test/skiplist_sequential_test.cpp:32-57 | after inserting 2 and then 1, the traversal yields 1 before 2 |
| SkipListTests.TwoEntries | test/skiplist_sequential_test.cpp:47-57 | a strictly ordered listing of the entries for 1 and 2 is the listing [1, 2] |

## Left out

- The `std::mutex` lock that `Lookup`, `Insert` and `Remove` take, and the `ReaderWriterLatch` field: the model is sequential.
- `Print` and `InsertFromFile`: console and file I/O.
- The `LOG_INFO` and `LOG_WARN` calls: the logger is not part of this model.
- The `operator<<` stream printers of `GenericKey` and `GenericValue`: output only.
- The explicit template instantiation: the list is generic in its key, value and comparator. The map is keyed by the key buffers.
- `CreateNode`: the constructor allocates the head with `new SkipListNode` directly. The null check after `new` cannot fail in Dafny.
- The numbers `rand()` returns for a seed are a parameter of `Rand`, not computed. The distribution of heights and the expected cost of the operations are not modelled either.
- SkipList.RandomHeight: promises the bound and the stopping rule only in terms of the oracle's draws.
- SkipList.Remove: frees the node by dropping its forward array from `Repr`. Dafny has no `delete`, so a dangling pointer cannot be expressed.
- SkipList.Destroy: lists the freed nodes in `freed`. The deletion of the head and of each node's `forward_` array (the node destructor, `src/skiplist.h:44-48`) is not modelled.
- SkipList.Lookup: returns the extended `result` vector as a new sequence, rather than appending through a pointer.
- SkipList.Insert, SkipList.Lookup, SkipList.Remove: do not model the wrap-around of `size_t size_` or the `int level = max_height_ - 1` conversion (`src/skiplist.cpp:26`, `47`, `66` and `89`), because `nat` and `int` are unbounded. The same holds for the `size_t` to `int` narrowings of a height (`CreateNode`'s `int height` parameter at `src/skiplist.cpp:18`, `new SkipListNode(key, value, height)` at `64` and `static_cast<int>(height)` at `74`).
- SkipList.constructor: requires `1 <= max_height`, which the source enforces through the `assert(0 < height)` of the head node's constructor.
- SkipList.constructor: requires the comparator to be a total order whose 0 means equal keys. `GenericComparator<KeySize>` meets this only for `KeySize == 8`, where the key bytes are exactly the integer's bytes (CompareOnKey8IsTotalOrder). For wider keys, two buffers that differ past byte 8 compare equal, and the model does not cover that case.
- Compare, Decode, GenericKey.ToInteger, GenericValue.ToInteger: these are plain reads (`GenericComparator::operator()` at `src/generic_key.h:51-58`, and `ToInteger` at `16` and `35`). What they return is stated by DecodeEncode, EncodeDecode, CompareEncoded, CompareIsTotalOrder and the two SetFromInteger contracts.
- Rand.Srand: the seed is stored as passed. The `size_t` to `unsigned int` conversion of `srand(rnd_)` (`src/skiplist.cpp:14`) is part of the oracle.
- Iterator.Deref, Iterator.Equals, Iterator.NotEquals: these are plain reads. What they return is stated by SkipList.DerefAt and SkipList.EndAt.
- The 1000-key loops, random deletions and concurrent, performance and print tests: only the test scenarios named above are modelled.
