/**
 * The scenarios of the sequential tests, on SkipList<GenericKey<8>, int64_t,
 * GenericComparator<8>>: keys are 8-byte buffers set from integers, the
 * comparator orders them by the integers they decode to.
 */
module SkipListTests {
  import opened GenericKeys
  import opened SkipListNodes
  import opened SkipLists

  /** GenericComparator<8> as the list's comparator. */
  function KeyOrder(): (Key8, Key8) -> int
  {
    (a: Key8, b: Key8) => Compare(a, b)
  }

  /** The key buffer SetFromInteger(k) leaves in a GenericKey<8>. */
  function KeyOf(k: int64): (b: Key8)
    ensures Decode(b) == k
  {
    DecodeEncode(k, IntWidth);
    Encode(k, IntWidth)
  }

  /**
   * The tests' traversal: `for (iter = begin(); iter != end(); ++iter)`
   * collecting `*iter`. It yields the list's pairs in level-0 order, which
   * are its entries in strictly increasing key order.
   */
  method Scan<K(==, !new), V>(list: SkipList<K, V>) returns (kvs: seq<(K, V)>)
    requires list.Valid()
    ensures kvs == list.Entries()
    ensures forall i, j :: 0 <= i < j < |kvs| ==> list.comparator(kvs[i].0, kvs[j].0) < 0
    ensures |kvs| == |list.contents| && forall k, v :: (k, v) in kvs <==> k in list.contents && list.contents[k] == v
  {
    list.EntriesInOrder();
    list.EntriesAreContents();
    assert LevelOk(0, list.levels[0], list.comparator);
    var it := list.Begin();
    var end := list.End();
    kvs := Walk(list.levels[0], it, end);
  }

  /** The loop of the traversal, over the level-0 run L: one pair per node past the head. */
  method Walk<K, V>(ghost L: seq<SkipListNode<K, V>>, it: Iterator<K, V>, end: Iterator<K, V>) returns (kvs: seq<(K, V)>)
    requires Linked(0, L) && 1 <= |L| && it.cur == Next(L, 0) && end.cur == null && it != end
    modifies it
    ensures kvs == EntriesOf(L[1..])
  {
    ghost var i := 0;
    kvs := [];
    while it.NotEquals(end)
      invariant 0 <= i < |L| && it.cur == Next(L, i)
      invariant kvs == EntriesOf(L[1..i + 1])
      decreases |L| - i
    {
      assert EntriesOf(L[1..i + 2]) == EntriesOf(L[1..i + 1]) + [(L[i + 1].key, L[i + 1].value)];
      kvs := kvs + [it.Deref()];
      it.Advance(L, i + 1);
      i := i + 1;
    }
    assert L[1..i + 1] == L[1..];
  }

  /** EmptyTest: a new list has size 0, and neither finds nor removes a key. */
  method EmptyScenario(rng: Rand) returns (size: nat, found: bool, removed: bool)
    modifies rng
    ensures size == 0 && !found && !removed
  {
    CompareOnKey8IsTotalOrder();
    var list := new SkipList(KeyOrder(), 5, 0xdeadbeef, rng, KeyOf(0), 0 as int64);
    size := list.Size();
    var values;
    found, values := list.Lookup(KeyOf(0), []);
    removed := list.Remove(KeyOf(0));
  }

  /**
   * MixTest1's refused re-insert: a second insert of a key reports false.
   * That the first value is the one found afterwards goes beyond the tests,
   * which re-insert the same value.
   */
  method DuplicateScenario(rng: Rand) returns (first: bool, second: bool, found: bool, values: seq<int64>)
    modifies rng
    ensures first && !second && found && values == [1]
  {
    CompareOnKey8IsTotalOrder();
    var list := new SkipList(KeyOrder(), 12, 0xdeadbeef, rng, KeyOf(0), 0 as int64);
    first := list.Insert(KeyOf(1), 1);
    second := list.Insert(KeyOf(1), 10);
    found, values := list.Lookup(KeyOf(1), []);
  }

  /** InsertTest's traversal, on keys inserted out of order: after inserting 2 and then 1 it yields 1 before 2. */
  method IterateScenario(rng: Rand) returns (kvs: seq<(Key8, int64)>)
    modifies rng
    ensures kvs == [(KeyOf(1), 1), (KeyOf(2), 2)]
  {
    CompareOnKey8IsTotalOrder();
    var list := new SkipList(KeyOrder(), 12, 0xdeadbeef, rng, KeyOf(0), 0 as int64);
    var ok := list.Insert(KeyOf(2), 2);
    kvs := InsertOneAndScan(list);
  }

  /** Inserting 1 into a list holding only 2, then traversing it. */
  method InsertOneAndScan(list: SkipList<Key8, int64>) returns (kvs: seq<(Key8, int64)>)
    requires list.Valid() && list.comparator == KeyOrder()
    requires list.contents == map[KeyOf(2) := 2]
    modifies list, list.Repr, list.rng
    ensures kvs == [(KeyOf(1), 1), (KeyOf(2), 2)]
  {
    assert KeyOf(1) != KeyOf(2);
    var ok := list.Insert(KeyOf(1), 1);
    assert list.contents == map[KeyOf(2) := 2, KeyOf(1) := 1];
    kvs := Scan(list);
    TwoEntries(kvs, list.contents);
  }

  /** A strictly ordered listing of the two entries for 1 and 2 is [1, 2]. */
  lemma TwoEntries(kvs: seq<(Key8, int64)>, m: map<Key8, int64>)
    requires m == map[KeyOf(2) := 2, KeyOf(1) := 1]
    requires |kvs| == |m| && forall k, v :: (k, v) in kvs <==> k in m && m[k] == v
    requires forall i, j :: 0 <= i < j < |kvs| ==> Compare(kvs[i].0, kvs[j].0) < 0
    ensures kvs == [(KeyOf(1), 1), (KeyOf(2), 2)]
  {
    assert KeyOf(1) != KeyOf(2);
    assert m.Keys == {KeyOf(1), KeyOf(2)};
    assert kvs[0] in kvs && kvs[1] in kvs;
  }

  /** DeleteTest2 and MixTest1: a removed key is no longer found, and removing it again fails. */
  method DeleteScenario(rng: Rand) returns (removed: bool, found: bool, again: bool)
    modifies rng
    ensures removed && !found && !again
  {
    CompareOnKey8IsTotalOrder();
    var list := new SkipList(KeyOrder(), 12, 0xdeadbeef, rng, KeyOf(0), 0 as int64);
    var ok := list.Insert(KeyOf(1), 1);
    removed := list.Remove(KeyOf(1));
    found, again := StaysRemoved(list, KeyOf(1));
  }

  /** Once a key is gone, Lookup does not find it and a second Remove reports false. */
  method StaysRemoved(list: SkipList<Key8, int64>, key: Key8) returns (found: bool, removed: bool)
    requires list.Valid() && key !in list.contents
    modifies list, list.Repr
    ensures !found && !removed
  {
    var values;
    found, values := list.Lookup(key, []);
    removed := list.Remove(key);
  }
}
