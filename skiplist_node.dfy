/**
 * SkipListNode and the facts about one level of the list.
 *
 * A level is described by the ghost sequence of nodes a level-l walk from
 * the head visits, the head itself first: `s[0]` is the head and every
 * `s[j].forward[l]` is `s[j + 1]`, the last one's null. Keys are ordered by
 * the list's comparator `cmp`, a three-way comparison.
 */
module SkipListNodes {
  import opened Orders

  /** A node: one key, one value, its height and one forward link per level below it. */
  class SkipListNode<K, V> {
    const key: K
    const value: V
    const height: nat
    const forward: array<SkipListNode?<K, V>>

    constructor (key: K, value: V, height: nat)
      requires 0 < height
      ensures this.key == key && this.value == value && this.height == height
      ensures fresh(forward) && forward.Length == height
      ensures forall i :: 0 <= i < height ==> forward[i] == null
    {
      this.key := key;
      this.value := value;
      this.height := height;
      var links := new SkipListNode?<K, V>[height];
      for i := 0 to height
        invariant forall j :: 0 <= j < i ==> links[j] == null
      {
        links[i] := null;
      }
      forward := links;
    }
  }

  /** The node after position j on a level, or null past the end. */
  function Next<K, V>(s: seq<SkipListNode<K, V>>, j: int): SkipListNode?<K, V>
  {
    if 0 <= j && j + 1 < |s| then s[j + 1] else null
  }

  /** Every node of s has a level-l link, and those links spell s. */
  ghost predicate Linked<K, V>(l: nat, s: seq<SkipListNode<K, V>>)
    reads set x | x in s :: x.forward
  {
    (forall x :: x in s ==> l < x.forward.Length) &&
    (forall j {:trigger s[j].forward[l]} :: 0 <= j < |s| ==> s[j].forward[l] == Next(s, j))
  }

  /** Keys strictly increase along the level (the head, at 0, has no key to compare). */
  ghost predicate Sorted<K, V>(s: seq<SkipListNode<K, V>>, cmp: (K, K) -> int)
  {
    forall i, j :: 1 <= i < j < |s| ==> cmp(s[i].key, s[j].key) < 0
  }

  /** No two positions share a forward array, so no node occurs twice. */
  ghost predicate DistinctArrays<K, V>(s: seq<SkipListNode<K, V>>)
  {
    forall i, j :: 0 <= i < j < |s| ==> s[i].forward != s[j].forward
  }

  ghost predicate LevelOk<K, V>(l: nat, s: seq<SkipListNode<K, V>>, cmp: (K, K) -> int)
    reads set x | x in s :: x.forward
  {
    1 <= |s| && Linked(l, s) && Sorted(s, cmp) && DistinctArrays(s)
  }

  /**
   * The inner loop of every descent: from `cur`, follow level-l links while
   * the next key compares less than `key`. Ends on the last node whose key
   * is below `key` (or where it started if that is the head), with `p` the
   * node after it.
   */
  method WalkLevel<K, V>(l: nat, ghost s: seq<SkipListNode<K, V>>, cmp: (K, K) -> int,
                         cur: SkipListNode<K, V>, ghost pos: nat, key: K)
    returns (last: SkipListNode<K, V>, p: SkipListNode?<K, V>, ghost at: nat)
    requires LevelOk(l, s, cmp)
    requires pos < |s| && s[pos] == cur && (pos == 0 || cmp(cur.key, key) < 0)
    ensures pos <= at < |s| && s[at] == last && (at == 0 || cmp(last.key, key) < 0)
    ensures p == Next(s, at)
    ensures p == null || 0 <= cmp(p.key, key)
  {
    last, at := cur, pos;
    p := cur.forward[l];
    while p != null && cmp(p.key, key) < 0
      invariant at < |s| && s[at] == last && (at == 0 || cmp(last.key, key) < 0)
      invariant p == Next(s, at)
      decreases |s| - at
    {
      p := p.forward[l];
      last := last.forward[l];
      at := at + 1;
    }
  }

  /** No node past the head of level s carries key. */
  ghost predicate Missing<K, V>(s: seq<SkipListNode<K, V>>, key: K)
  {
    forall i :: 1 <= i < |s| ==> s[i].key != key
  }

  /** Where a descent stops with no equal key, the level holds no node with that key. */
  lemma KeyAbsent<K(!new), V>(s: seq<SkipListNode<K, V>>, cmp: (K, K) -> int, pos: nat, key: K)
    requires IsTotalOrder(cmp) && Sorted(s, cmp) && pos < |s|
    requires pos == 0 || cmp(s[pos].key, key) < 0
    requires Next(s, pos) == null || 0 < cmp(s[pos + 1].key, key)
    ensures Missing(s, key)
  {
    forall i | 1 <= i < |s|
      ensures s[i].key != key
    {
      if i < pos {
        Transitive(cmp, s[i].key, s[pos].key, key);
      } else if pos + 1 < i {
        Transitive(cmp, key, s[pos + 1].key, s[i].key);
      }
    }
  }

  /** Keys along a sorted level are distinct: two positions past the head with one key are one position. */
  lemma SameKeySamePosition<K(!new), V>(s: seq<SkipListNode<K, V>>, cmp: (K, K) -> int, i: nat, j: nat)
    requires IsTotalOrder(cmp) && Sorted(s, cmp)
    requires 1 <= i < |s| && 1 <= j < |s| && s[i].key == s[j].key
    ensures i == j
  {
  }

  /** A node whose key falls between positions pos and pos + 1 keeps the level sorted. */
  lemma SortedInsert<K(!new), V>(s: seq<SkipListNode<K, V>>, cmp: (K, K) -> int, pos: nat, n: SkipListNode<K, V>)
    requires IsTotalOrder(cmp) && Sorted(s, cmp) && pos < |s|
    requires pos == 0 || cmp(s[pos].key, n.key) < 0
    requires pos + 1 < |s| ==> cmp(n.key, s[pos + 1].key) < 0
    ensures Sorted(Spliced(s, pos, n), cmp)
  {
    var t := Spliced(s, pos, n);
    forall i, j | 1 <= i < j < |t|
      ensures cmp(t[i].key, t[j].key) < 0
    {
      if j <= pos {
        assert t[i] == s[i] && t[j] == s[j];
      } else if j == pos + 1 {
        assert t[i] == s[i];
        if i < pos {
          Transitive(cmp, s[i].key, s[pos].key, n.key);
        }
      } else if i <= pos {
        assert t[i] == s[i] && t[j] == s[j - 1];
      } else if i == pos + 1 {
        assert t[j] == s[j - 1];
        if pos + 1 < j - 1 {
          Transitive(cmp, n.key, s[pos + 1].key, s[j - 1].key);
        }
      } else {
        assert t[i] == s[i - 1] && t[j] == s[j - 1];
      }
    }
  }

  lemma DistinctInsert<K, V>(s: seq<SkipListNode<K, V>>, pos: nat, n: SkipListNode<K, V>)
    requires DistinctArrays(s) && pos < |s|
    requires forall x :: x in s ==> x.forward != n.forward
    ensures DistinctArrays(Spliced(s, pos, n))
  {
    var t := Spliced(s, pos, n);
  }

  /** Dropping position pos + 1 keeps the level sorted. */
  lemma SortedRemove<K, V>(s: seq<SkipListNode<K, V>>, cmp: (K, K) -> int, pos: nat)
    requires Sorted(s, cmp) && pos + 1 < |s|
    ensures Sorted(Unlinked(s, pos), cmp)
  {
    var t := Unlinked(s, pos);
  }

  lemma DistinctRemove<K, V>(s: seq<SkipListNode<K, V>>, pos: nat)
    requires DistinctArrays(s) && pos + 1 < |s|
    ensures DistinctArrays(Unlinked(s, pos))
  {
    var t := Unlinked(s, pos);
  }

  /** The level s with n spliced in after position pos. */
  function Spliced<K, V>(s: seq<SkipListNode<K, V>>, pos: nat, n: SkipListNode<K, V>): (t: seq<SkipListNode<K, V>>)
    requires pos < |s|
    ensures |t| == |s| + 1 && t[pos + 1] == n
    ensures forall i :: 0 <= i <= pos ==> t[i] == s[i]
    ensures forall i :: pos + 1 < i < |t| ==> t[i] == s[i - 1]
  {
    s[..pos + 1] + [n] + s[pos + 1..]
  }

  /** The level s without its node at position pos + 1. */
  function Unlinked<K, V>(s: seq<SkipListNode<K, V>>, pos: nat): (t: seq<SkipListNode<K, V>>)
    requires pos + 1 < |s|
    ensures |t| == |s| - 1
    ensures forall i :: 0 <= i <= pos ==> t[i] == s[i]
    ensures forall i :: pos < i < |t| ==> t[i] == s[i + 1]
  {
    s[..pos + 1] + s[pos + 2..]
  }

  /** Splicing n in after position pos: the two rewritten links and the untouched ones spell the longer level. */
  lemma LinkedSplice<K, V>(l: nat, s: seq<SkipListNode<K, V>>, pos: nat, n: SkipListNode<K, V>)
    requires pos < |s|
    requires forall x :: x in s ==> l < x.forward.Length
    requires l < n.forward.Length
    requires forall j :: 0 <= j < |s| && j != pos ==> s[j].forward[l] == Next(s, j)
    requires s[pos].forward[l] == n && n.forward[l] == Next(s, pos)
    ensures Linked(l, Spliced(s, pos, n))
  {
    var t := Spliced(s, pos, n);
    forall j | 0 <= j < |t|
      ensures t[j].forward[l] == Next(t, j)
    {
      if j < pos {
        assert t[j] == s[j] && t[j + 1] == s[j + 1];
      } else if pos + 1 < j {
        assert t[j] == s[j - 1];
      }
    }
  }

  /** Unlinking position pos + 1: the rewritten link and the untouched ones spell the shorter level. */
  lemma LinkedUnlink<K, V>(l: nat, s: seq<SkipListNode<K, V>>, pos: nat)
    requires pos + 1 < |s|
    requires forall x :: x in s ==> l < x.forward.Length
    requires forall j :: 0 <= j < |s| && j != pos ==> s[j].forward[l] == Next(s, j)
    requires s[pos].forward[l] == Next(s, pos + 1)
    ensures Linked(l, Unlinked(s, pos))
  {
    var t := Unlinked(s, pos);
    forall j | 0 <= j < |t|
      ensures t[j].forward[l] == Next(t, j)
    {
      if j < pos {
        assert t[j] == s[j] && t[j + 1] == s[j + 1];
      } else if pos < j {
        assert t[j] == s[j + 1];
      }
    }
  }

  lemma SplicedMembers<K, V>(s: seq<SkipListNode<K, V>>, pos: nat, n: SkipListNode<K, V>)
    requires pos < |s|
    ensures forall x :: x in Spliced(s, pos, n) <==> x in s || x == n
  {
    var t := Spliced(s, pos, n);
    assert s == s[..pos + 1] + s[pos + 1..];
  }

  lemma UnlinkedMembers<K, V>(s: seq<SkipListNode<K, V>>, pos: nat)
    requires pos + 1 < |s| && DistinctArrays(s)
    ensures forall x :: x in Unlinked(s, pos) <==> x in s && x != s[pos + 1]
  {
    var t := Unlinked(s, pos);
    assert s == s[..pos + 1] + [s[pos + 1]] + s[pos + 2..];
    forall x | x in t
      ensures x != s[pos + 1]
    {
      var i := IndexOf(t, x);
      if i <= pos {
        assert s[i].forward != s[pos + 1].forward;
      } else {
        assert s[i + 1].forward != s[pos + 1].forward;
      }
    }
  }

  /** The position of a node on a level. */
  lemma IndexOf<K, V>(s: seq<SkipListNode<K, V>>, x: SkipListNode<K, V>) returns (i: nat)
    requires x in s
    ensures i < |s| && s[i] == x
  {
    i :| 0 <= i < |s| && s[i] == x;
  }
}
