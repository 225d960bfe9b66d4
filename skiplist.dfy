/**
 * The skip list SkipList<KeyType, ValueType, KeyComparator> and its forward
 * iterator.
 *
 * The linked structure is kept in the heap as the source keeps it: a head
 * node of height maxHeight, and nodes whose forward arrays are rewritten in
 * place. The ghost field `levels` names, for every level, the nodes a walk
 * along that level visits (the head first); `contents` is the map from keys
 * to values the list stands for.
 */
module SkipLists {
  import opened Orders
  import opened SkipListNodes

  /** RAND_MAX, taken here as 2^31 - 1 (the C library in use defines the actual value). */
  const RandMax: nat := 0x7fff_ffff

  /**
   * The C library's srand/rand pair, the process-wide generator the height
   * draws come from. Which numbers a seed produces is not modelled: `oracle`
   * gives the n-th draw after srand(seed), taking the seed as passed, so the
   * conversion of the size_t seed to srand's unsigned int is folded into it.
   */
  class Rand {
    const oracle: (nat, nat) -> nat
    var seed: nat
    var calls: nat

    constructor (oracle: (nat, nat) -> nat)
      ensures this.oracle == oracle && seed == 1 && calls == 0
    {
      this.oracle := oracle;
      seed, calls := 1, 0;
    }

    /** The n-th number rand() returns after srand(seed). */
    function Draw(seed: nat, n: nat): (r: nat)
      ensures r <= RandMax
    {
      oracle(seed, n) % (RandMax + 1)
    }

    method Srand(s: nat)
      modifies this
      ensures seed == s && calls == 0
    {
      seed, calls := s, 0;
    }

    method NextDraw() returns (r: nat)
      modifies this
      ensures seed == old(seed) && calls == old(calls) + 1
      ensures r == Draw(seed, old(calls))
    {
      r := Draw(seed, calls);
      calls := calls + 1;
    }
  }

  /** Presence at a level implies presence at level 0, and a node is at exactly the levels below its height. */
  ghost predicate Ladder<K, V>(ls: seq<seq<SkipListNode<K, V>>>)
  {
    1 <= |ls| &&
    (forall l, x {:trigger x in ls[l]} :: 0 <= l < |ls| && x in ls[l] ==> x in ls[0] && l < x.height) &&
    (forall l, x {:trigger x in ls[l]} :: 0 <= l < |ls| && x in ls[0] && l < x.height ==> x in ls[l])
  }

  /** Every level starts at the head. */
  ghost predicate HeadFirst<K, V>(ls: seq<seq<SkipListNode<K, V>>>, head: SkipListNode<K, V>)
  {
    forall l :: 0 <= l < |ls| ==> 1 <= |ls[l]| && ls[l][0] == head
  }

  /** Where a descent that stopped at position pos of level l + 1 carries on at level l. */
  lemma DropLevel<K, V>(ls: seq<seq<SkipListNode<K, V>>>, head: SkipListNode<K, V>, l: nat, pos: nat) returns (pos': nat)
    requires Ladder(ls) && HeadFirst(ls, head) && l + 1 < |ls|
    requires DistinctArrays(ls[l + 1]) && pos < |ls[l + 1]|
    ensures pos' < |ls[l]| && ls[l][pos'] == ls[l + 1][pos]
    ensures pos' == 0 <==> pos == 0
  {
    var cur := ls[l + 1][pos];
    if pos == 0 {
      pos' := 0;
    } else {
      assert cur.forward != ls[l + 1][0].forward;
      assert cur in ls[l + 1];
      assert cur in ls[0] && l + 1 < cur.height;
      assert cur in ls[l];
      pos' := IndexOf(ls[l], cur);
    }
  }

  /** A node past position 0 of any level is a node of level 0 other than the head. */
  lemma PastHeadOnLevelZero<K, V>(ls: seq<seq<SkipListNode<K, V>>>, head: SkipListNode<K, V>, l: nat, i: nat)
    requires Ladder(ls) && HeadFirst(ls, head) && l < |ls| && DistinctArrays(ls[l]) && 1 <= i < |ls[l]|
    ensures ls[l][i] in ls[0] && ls[l][i] != head
  {
    var x := ls[l][i];
    assert x.forward != ls[l][0].forward;
    assert x in ls[l];
  }

  /** The ladder facts a descent relies on, for a list whose top level is maxHeight - 1. */
  ghost predicate Descendable<K(!new), V>(ls: seq<seq<SkipListNode<K, V>>>, head: SkipListNode<K, V>, cmp: (K, K) -> int)
    reads set l, x {:trigger x in ls[l]} | 0 <= l < |ls| && x in ls[l] :: x.forward
  {
    IsTotalOrder(cmp) && Ladder(ls) && HeadFirst(ls, head) &&
    forall l :: 0 <= l < |ls| ==> LevelOk(l, ls[l], cmp)
  }

  /**
   * From the head at the top level, walk each level to the last key below
   * `key` and drop a level, stopping at the first node with an equal key on
   * any level.
   */
  method Descend<K(!new), V>(ghost ls: seq<seq<SkipListNode<K, V>>>, maxHeight: nat, head: SkipListNode<K, V>,
                             cmp: (K, K) -> int, key: K)
    returns (found: SkipListNode?<K, V>)
    requires Descendable(ls, head, cmp) && |ls| == maxHeight
    ensures found != null ==> found in ls[0] && found != head && found.key == key
    ensures found == null ==> Missing(ls[0], key)
  {
    var level: int := maxHeight - 1;
    var cur := head;
    ghost var pos: nat := 0;
    found := null;
    while level >= 0
      invariant -1 <= level < |ls| && found == null
      invariant 0 <= level ==> pos < |ls[level]| && ls[level][pos] == cur && (pos == 0 || cmp(cur.key, key) < 0)
      invariant level + 1 < |ls| ==> Missing(ls[level + 1], key)
      decreases level
    {
      found, cur, pos := DescendLevel(ls, head, cmp, key, level, cur, pos);
      if found != null {
        return;
      }
      level := level - 1;
    }
  }

  /**
   * One level of a descent: walk level l from cur, report a node with an
   * equal key, or else where the walk carries on one level down.
   */
  method DescendLevel<K(!new), V>(ghost ls: seq<seq<SkipListNode<K, V>>>, head: SkipListNode<K, V>, cmp: (K, K) -> int,
                                  key: K, l: nat, cur: SkipListNode<K, V>, ghost pos: nat)
    returns (found: SkipListNode?<K, V>, next: SkipListNode<K, V>, ghost pos': nat)
    requires Descendable(ls, head, cmp) && l < |ls|
    requires pos < |ls[l]| && ls[l][pos] == cur && (pos == 0 || cmp(cur.key, key) < 0)
    ensures found != null ==> found in ls[0] && found != head && found.key == key
    ensures found == null ==> Missing(ls[l], key)
    ensures found == null && 0 < l ==> pos' < |ls[l - 1]| && ls[l - 1][pos'] == next && (pos' == 0 || cmp(next.key, key) < 0)
  {
    var p: SkipListNode?<K, V>;
    ghost var at: nat;
    assert LevelOk(l, ls[l], cmp);
    next, p, at := WalkLevel(l, ls[l], cmp, cur, pos, key);
    if p != null && cmp(p.key, key) == 0 {
      PastHeadOnLevelZero(ls, head, l, at + 1);
      return p, next, at;
    }
    KeyAbsent(ls[l], cmp, at, key);
    pos' := at;
    if 0 < l {
      pos' := DropLevel(ls, head, l - 1, at);
    }
    found := null;
  }

  /** Every level's links spell that level. */
  ghost predicate AllLinked<K, V>(ls: seq<seq<SkipListNode<K, V>>>)
    reads set l, x {:trigger x in ls[l]} | 0 <= l < |ls| && x in ls[l] :: x.forward
  {
    forall l :: 0 <= l < |ls| ==> Linked(l, ls[l])
  }

  /** Splice n into level l after position at: n takes over that node's level-l link and the node now points to n. */
  method SpliceAfter<K, V>(ghost ls: seq<seq<SkipListNode<K, V>>>, l: nat, last: SkipListNode<K, V>, ghost at: nat,
                           n: SkipListNode<K, V>)
    requires AllLinked(ls) && l < |ls| && at < |ls[l]| && ls[l][at] == last
    requires DistinctArrays(ls[l]) && l < n.forward.Length
    requires forall j :: 0 <= j < |ls[l]| ==> ls[l][j].forward != n.forward
    modifies last.forward, n.forward
    ensures AllLinked(ls[l := Spliced(ls[l], at, n)])
  {
    ghost var S := ls[l];
    assert Linked(l, S);
    n.forward[l] := last.forward[l];
    last.forward[l] := n;
    forall j | 0 <= j < |S| && j != at
      ensures S[j].forward[l] == Next(S, j)
    {
      assert S[j].forward != S[at].forward;
      assert S[j].forward != n.forward;
    }
    LinkedSplice(l, S, at, n);
    forall k | 0 <= k < |ls| && k != l
      ensures Linked(k, ls[k])
    {
      assert old(Linked(k, ls[k]));
      forall j | 0 <= j < |ls[k]|
        ensures ls[k][j].forward[k] == Next(ls[k], j)
      {
        assert ls[k][j] in ls[k];
        assert old(ls[k][j].forward[k]) == Next(ls[k], j);
      }
    }
  }

  /** One spliced level of an insertion: the links are rewritten and the insertion moves a level down. */
  method SpliceInto<K(!new), V>(ghost ls: seq<seq<SkipListNode<K, V>>>, level: nat, ghost L: seq<seq<SkipListNode<K, V>>>,
                                n: SkipListNode<K, V>, ghost R: set<array<SkipListNode?<K, V>>>,
                                cmp: (K, K) -> int, head: SkipListNode<K, V>, last: SkipListNode<K, V>, ghost at: nat)
    returns (ghost ls': seq<seq<SkipListNode<K, V>>>)
    requires Inserting(ls, level, L, n, R, cmp, head) && AllLinked(ls) && level < n.height
    requires at < |L[level]| && L[level][at] == last && (at == 0 || cmp(last.key, n.key) < 0)
    requires at + 1 < |L[level]| ==> cmp(n.key, L[level][at + 1].key) < 0
    modifies last.forward, n.forward
    ensures ls' == ls[level := Spliced(L[level], at, n)]
    ensures Inserting(ls', level - 1, L, n, R, cmp, head) && AllLinked(ls')
  {
    assert ls[level] == L[level];
    SpliceAfter(ls, level, last, at, n);
    SpliceStep(ls, level, L, n, R, cmp, head, at);
    ls' := ls[level := Spliced(L[level], at, n)];
  }

  /**
   * An insertion of n into the list whose levels were L, under way at
   * `level`: every level above it has n spliced in if it is below n's
   * height, the levels from `level` down are still those of L. The links
   * themselves are AllLinked(ls).
   */
  ghost predicate Inserting<K(!new), V>(ls: seq<seq<SkipListNode<K, V>>>, level: int, L: seq<seq<SkipListNode<K, V>>>,
                                        n: SkipListNode<K, V>, R: set<array<SkipListNode?<K, V>>>,
                                        cmp: (K, K) -> int, head: SkipListNode<K, V>)
  {
    && -1 <= level < |L| && |ls| == |L|
    && IsTotalOrder(cmp) && Ladder(L) && HeadFirst(L, head)
    && 1 <= n.height <= |L| && n.forward.Length == n.height && n != head
    && (forall l :: 0 <= l < |L| ==> Missing(L[l], n.key))
    && (forall l, j :: 0 <= l < |L| && 0 <= j < |L[l]| ==> L[l][j].forward != n.forward)
    && (forall l :: 0 <= l <= level ==> ls[l] == L[l])
    && (forall l :: level < l < |L| && n.height <= l ==> ls[l] == L[l])
    && (forall l :: level < l < |L| && l < n.height ==> AddsNode(ls[l], L[l], n) && |ls[l]| == |L[l]| + 1)
    && (forall l :: 0 <= l < |L| ==> 1 <= |ls[l]| && ls[l][0] == head)
    && (forall l :: 0 <= l < |L| ==> Sorted(ls[l], cmp) && DistinctArrays(ls[l]))
    && (forall l, x {:trigger x in ls[l]} :: 0 <= l < |L| && x in ls[l] ==> x.forward in R || x == n)
  }

  /** Splicing n in after position at of `level`, where its key belongs, moves the insertion one level down. */
  lemma SpliceStep<K(!new), V>(ls: seq<seq<SkipListNode<K, V>>>, level: nat, L: seq<seq<SkipListNode<K, V>>>,
                               n: SkipListNode<K, V>, R: set<array<SkipListNode?<K, V>>>,
                               cmp: (K, K) -> int, head: SkipListNode<K, V>, at: nat)
    requires Inserting(ls, level, L, n, R, cmp, head) && level < n.height
    requires at < |L[level]| && (at == 0 || cmp(L[level][at].key, n.key) < 0)
    requires at + 1 < |L[level]| ==> cmp(n.key, L[level][at + 1].key) < 0
    ensures Inserting(ls[level := Spliced(L[level], at, n)], level - 1, L, n, R, cmp, head)
  {
    var S := L[level];
    var T := Spliced(S, at, n);
    var ls' := ls[level := T];
    assert ls[level] == S;
    SortedInsert(S, cmp, at, n);
    forall x | x in S
      ensures x.forward != n.forward
    {
      var j := IndexOf(S, x);
    }
    DistinctInsert(S, at, n);
    SplicedMembers(S, at, n);
    assert AddsNode(T, S, n);
    forall l | 0 <= l < |L|
      ensures 1 <= |ls'[l]| && ls'[l][0] == head
      ensures Sorted(ls'[l], cmp) && DistinctArrays(ls'[l])
    {
      if l == level {
        assert T[0] == S[0];
      }
    }
    forall l, x: SkipListNode<K, V> {:trigger x in ls'[l]} | 0 <= l < |L| && x in ls'[l]
      ensures x.forward in R || x == n
    {
      if l == level && x != n {
        assert x in ls[level];
      }
    }
  }

  /** A level at or above n's height is left alone. */
  lemma SkipStep<K(!new), V>(ls: seq<seq<SkipListNode<K, V>>>, level: nat, L: seq<seq<SkipListNode<K, V>>>,
                             n: SkipListNode<K, V>, R: set<array<SkipListNode?<K, V>>>,
                             cmp: (K, K) -> int, head: SkipListNode<K, V>)
    requires Inserting(ls, level, L, n, R, cmp, head) && n.height <= level
    ensures Inserting(ls, level - 1, L, n, R, cmp, head)
  {
  }

  /** Walk level l as far as key allows, and find where the walk carries on one level down. */
  method WalkAndDrop<K, V>(ghost ls: seq<seq<SkipListNode<K, V>>>, head: SkipListNode<K, V>, cmp: (K, K) -> int,
                           l: nat, cur: SkipListNode<K, V>, ghost pos: nat, key: K)
    returns (last: SkipListNode<K, V>, p: SkipListNode?<K, V>, ghost at: nat, ghost pos': nat)
    requires Ladder(ls) && HeadFirst(ls, head) && l < |ls| && LevelOk(l, ls[l], cmp)
    requires pos < |ls[l]| && ls[l][pos] == cur && (pos == 0 || cmp(cur.key, key) < 0)
    ensures at < |ls[l]| && ls[l][at] == last && (at == 0 || cmp(last.key, key) < 0)
    ensures p == Next(ls[l], at) && (p == null || 0 <= cmp(p.key, key))
    ensures 0 < l ==> pos' < |ls[l - 1]| && ls[l - 1][pos'] == last && (pos' == 0 || cmp(last.key, key) < 0)
  {
    last, p, at := WalkLevel(l, ls[l], cmp, cur, pos, key);
    pos' := at;
    if 0 < l {
      pos' := DropLevel(ls, head, l - 1, at);
    }
  }

  /** The insertion's second descent: from the top level down, splice n in on every level below its height. */
  method SpliceAll<K(!new), V>(ghost L: seq<seq<SkipListNode<K, V>>>, maxHeight: nat, n: SkipListNode<K, V>,
                               ghost R: set<array<SkipListNode?<K, V>>>, cmp: (K, K) -> int, head: SkipListNode<K, V>,
                               ghost C: map<K, V>)
    returns (ghost ls: seq<seq<SkipListNode<K, V>>>)
    requires |L| == maxHeight && Inserting(L, maxHeight - 1, L, n, R, cmp, head) && AllLinked(L)
    requires Represents(L[0], head, C) && n.key !in C
    requires forall x :: x in L[0] ==> 1 <= x.height <= maxHeight && x.forward.Length == x.height
    requires head.height == maxHeight && head.forward.Length == maxHeight
    modifies R, n.forward
    ensures WellFormed(ls, head, cmp, maxHeight)
    ensures forall l, x {:trigger x in ls[l]} :: 0 <= l < |ls| && x in ls[l] ==> x.forward in R + {n.forward}
    ensures |ls[0]| == |L[0]| + 1
    ensures Represents(ls[0], head, C[n.key := n.value])
    ensures forall l :: 0 <= l < |L| && l < n.height ==> AddsNode(ls[l], L[l], n)
    ensures forall l :: 0 <= l < |L| && n.height <= l ==> ls[l] == L[l]
  {
    ls := L;
    var level: int := maxHeight - 1;
    var cur := head;
    ghost var pos: nat := 0;
    while level >= 0
      invariant Inserting(ls, level, L, n, R, cmp, head) && AllLinked(ls)
      invariant 0 <= level ==> pos < |L[level]| && L[level][pos] == cur && (pos == 0 || cmp(cur.key, n.key) < 0)
      decreases level
    {
      ls, cur, pos := SpliceLevel(ls, level, L, n, R, cmp, head, cur, pos);
      level := level - 1;
    }
    InsertionDone(ls, L, n, R, cmp, head, C);
  }

  /** Once every level is done, the new levels form a list again, and it holds n's entry besides those of L. */
  lemma InsertionDone<K(!new), V>(ls: seq<seq<SkipListNode<K, V>>>, L: seq<seq<SkipListNode<K, V>>>, n: SkipListNode<K, V>,
                                  R: set<array<SkipListNode?<K, V>>>, cmp: (K, K) -> int, head: SkipListNode<K, V>, C: map<K, V>)
    requires Inserting(ls, -1, L, n, R, cmp, head) && AllLinked(ls)
    requires Represents(L[0], head, C) && n.key !in C
    requires forall x :: x in L[0] ==> 1 <= x.height <= |L| && x.forward.Length == x.height
    requires head.height == |L| && head.forward.Length == |L|
    ensures WellFormed(ls, head, cmp, |L|)
    ensures forall l, x {:trigger x in ls[l]} :: 0 <= l < |ls| && x in ls[l] ==> x.forward in R + {n.forward}
    ensures |ls[0]| == |L[0]| + 1
    ensures Represents(ls[0], head, C[n.key := n.value])
  {
    assert n !in L[0];
    LadderInsert(L, ls, n);
    RepresentsInsert(L[0], ls[0], head, C, n);
  }

  /** One level of the insertion's second descent, splicing n in if the level is below its height. */
  method SpliceLevel<K(!new), V>(ghost ls: seq<seq<SkipListNode<K, V>>>, level: nat, ghost L: seq<seq<SkipListNode<K, V>>>,
                                 n: SkipListNode<K, V>, ghost R: set<array<SkipListNode?<K, V>>>,
                                 cmp: (K, K) -> int, head: SkipListNode<K, V>, cur: SkipListNode<K, V>, ghost pos: nat)
    returns (ghost ls': seq<seq<SkipListNode<K, V>>>, next: SkipListNode<K, V>, ghost pos': nat)
    requires Inserting(ls, level, L, n, R, cmp, head) && AllLinked(ls)
    requires pos < |L[level]| && L[level][pos] == cur && (pos == 0 || cmp(cur.key, n.key) < 0)
    modifies R, n.forward
    ensures Inserting(ls', level - 1, L, n, R, cmp, head) && AllLinked(ls')
    ensures 0 < level ==> pos' < |L[level - 1]| && L[level - 1][pos'] == next && (pos' == 0 || cmp(next.key, n.key) < 0)
  {
    var p: SkipListNode?<K, V>;
    ghost var at: nat;
    assert ls[level] == L[level] && Linked(level, L[level]);
    next, p, at, pos' := WalkAndDrop(L, head, cmp, level, cur, pos, n.key);
    if level < n.height {
      assert next in ls[level];
      if p != null {
        assert cmp(n.key, p.key) < 0;
      }
      ls' := SpliceInto(ls, level, L, n, R, cmp, head, next, at);
    } else {
      SkipStep(ls, level, L, n, R, cmp, head);
      ls' := ls;
    }
  }

  /** A list of maxHeight levels whose nodes reach at most that high, with a head of full height. */
  ghost predicate WellFormed<K(!new), V>(ls: seq<seq<SkipListNode<K, V>>>, head: SkipListNode<K, V>, cmp: (K, K) -> int, maxHeight: nat)
    reads set l, x {:trigger x in ls[l]} | 0 <= l < |ls| && x in ls[l] :: x.forward
  {
    && Descendable(ls, head, cmp) && |ls| == maxHeight
    && head.height == maxHeight && head.forward.Length == maxHeight
    && (forall x :: x in ls[0] ==> 1 <= x.height <= maxHeight && x.forward.Length == x.height)
  }

  /** Unlink the node p after position at of level l: the node before it takes over p's level-l link. */
  method UnlinkAfter<K, V>(ghost ls: seq<seq<SkipListNode<K, V>>>, l: nat, last: SkipListNode<K, V>, ghost at: nat,
                           p: SkipListNode<K, V>)
    requires AllLinked(ls) && l < |ls| && at + 1 < |ls[l]| && ls[l][at] == last && ls[l][at + 1] == p
    requires DistinctArrays(ls[l])
    modifies last.forward
    ensures AllLinked(ls[l := Unlinked(ls[l], at)])
  {
    ghost var S := ls[l];
    assert Linked(l, S);
    last.forward[l] := p.forward[l];
    forall j | 0 <= j < |S| && j != at
      ensures S[j].forward[l] == Next(S, j)
    {
      assert S[j].forward != S[at].forward;
    }
    LinkedUnlink(l, S, at);
    forall k | 0 <= k < |ls| && k != l
      ensures Linked(k, ls[k])
    {
      assert old(Linked(k, ls[k]));
      forall j | 0 <= j < |ls[k]|
        ensures ls[k][j].forward[k] == Next(ls[k], j)
      {
        assert ls[k][j] in ls[k];
        assert old(ls[k][j].forward[k]) == Next(ls[k], j);
      }
    }
  }

  /**
   * A removal of key from the list whose levels were L, under way at
   * `level`: t is the node that carries key (null if none does); every
   * level above `level` has t unlinked if it is below t's height, the
   * levels from `level` down are still those of L.
   */
  ghost predicate Removing<K(!new), V>(ls: seq<seq<SkipListNode<K, V>>>, level: int, L: seq<seq<SkipListNode<K, V>>>,
                                       t: SkipListNode?<K, V>, key: K, R: set<array<SkipListNode?<K, V>>>,
                                       cmp: (K, K) -> int, head: SkipListNode<K, V>)
  {
    && -1 <= level < |L| && |ls| == |L|
    && IsTotalOrder(cmp) && Ladder(L) && HeadFirst(L, head)
    && (forall l :: 0 <= l < |L| ==> Sorted(L[l], cmp) && DistinctArrays(L[l]))
    && (t == null ==> Missing(L[0], key))
    && (t != null ==> t in L[0] && t != head && t.key == key)
    && (forall l, x {:trigger x in L[l]} :: 0 <= l < |L| && x in L[l] ==> x.forward in R)
    && (forall l :: 0 <= l <= level ==> ls[l] == L[l])
    && (forall l :: level < l < |L| && (t == null || t.height <= l) ==> ls[l] == L[l])
    && (forall l :: level < l < |L| && t != null && l < t.height ==> DropsNode(ls[l], L[l], t) && |ls[l]| == |L[l]| - 1)
    && (forall l :: 0 <= l < |L| ==> 1 <= |ls[l]| && ls[l][0] == head)
    && (forall l :: 0 <= l < |L| ==> Sorted(ls[l], cmp) && DistinctArrays(ls[l]))
  }

  /** The node a level-l walk meets with an equal key is t, and unlinking it moves the removal one level down. */
  lemma UnlinkStep<K(!new), V>(ls: seq<seq<SkipListNode<K, V>>>, level: nat, L: seq<seq<SkipListNode<K, V>>>,
                               t: SkipListNode?<K, V>, key: K, R: set<array<SkipListNode?<K, V>>>,
                               cmp: (K, K) -> int, head: SkipListNode<K, V>, at: nat)
    requires Removing(ls, level, L, t, key, R, cmp, head)
    requires at + 1 < |L[level]| && L[level][at + 1].key == key
    ensures t != null && level < t.height && L[level][at + 1] == t
    ensures Removing(ls[level := Unlinked(L[level], at)], level - 1, L, t, key, R, cmp, head)
  {
    var p := L[level][at + 1];
    PastHeadOnLevelZero(L, head, level, at + 1);
    var i := IndexOf(L[0], p);
    assert i != 0;
    assert t != null;
    var j := IndexOf(L[0], t);
    assert j != 0;
    SameKeySamePosition(L[0], cmp, i, j);
    assert p in L[level];
    var S := L[level];
    var T := Unlinked(S, at);
    var ls' := ls[level := T];
    assert ls[level] == S;
    SortedRemove(S, cmp, at);
    DistinctRemove(S, at);
    UnlinkedMembers(S, at);
    assert DropsNode(T, S, t);
    forall l | 0 <= l < |L|
      ensures 1 <= |ls'[l]| && ls'[l][0] == head
      ensures Sorted(ls'[l], cmp) && DistinctArrays(ls'[l])
    {
      if l == level {
        assert T[0] == S[0];
      }
    }
  }

  /** A level-l walk that meets no equal key shows l is at or above t's height. */
  lemma PassStep<K(!new), V>(ls: seq<seq<SkipListNode<K, V>>>, level: nat, L: seq<seq<SkipListNode<K, V>>>,
                             t: SkipListNode?<K, V>, key: K, R: set<array<SkipListNode?<K, V>>>,
                             cmp: (K, K) -> int, head: SkipListNode<K, V>)
    requires Removing(ls, level, L, t, key, R, cmp, head) && Missing(L[level], key)
    ensures t == null || t.height <= level
    ensures Removing(ls, level - 1, L, t, key, R, cmp, head)
  {
    var S := L[level];
    assert t != null && level < t.height ==> t in S;
  }

  /**
   * One level of Remove: walk level `level`, and unlink the node with an
   * equal key if the walk meets one, making it the node to delete.
   */
  method UnlinkLevel<K(!new), V>(ghost ls: seq<seq<SkipListNode<K, V>>>, level: nat, ghost L: seq<seq<SkipListNode<K, V>>>,
                                 ghost t: SkipListNode?<K, V>, key: K, ghost R: set<array<SkipListNode?<K, V>>>,
                                 cmp: (K, K) -> int, head: SkipListNode<K, V>, cur: SkipListNode<K, V>, ghost pos: nat,
                                 deleteNode: SkipListNode?<K, V>)
    returns (ghost ls': seq<seq<SkipListNode<K, V>>>, next: SkipListNode<K, V>, ghost pos': nat, deleteNode': SkipListNode?<K, V>)
    requires Removing(ls, level, L, t, key, R, cmp, head) && AllLinked(ls)
    requires pos < |L[level]| && L[level][pos] == cur && (pos == 0 || cmp(cur.key, key) < 0)
    modifies R
    ensures Removing(ls', level - 1, L, t, key, R, cmp, head) && AllLinked(ls')
    ensures deleteNode' == if Reaching(t, level) != null then t else deleteNode
    ensures 0 < level ==> pos' < |L[level - 1]| && L[level - 1][pos'] == next && (pos' == 0 || cmp(next.key, key) < 0)
  {
    var p: SkipListNode?<K, V>;
    ghost var at: nat;
    assert ls[level] == L[level] && Linked(level, L[level]);
    next, p, at, pos' := WalkAndDrop(L, head, cmp, level, cur, pos, key);
    if p != null && cmp(p.key, key) == 0 {
      UnlinkStep(ls, level, L, t, key, R, cmp, head, at);
      assert next in L[level];
      UnlinkAfter(ls, level, next, at, p);
      ls', deleteNode' := ls[level := Unlinked(L[level], at)], p;
    } else {
      KeyAbsent(L[level], cmp, at, key);
      PassStep(ls, level, L, t, key, R, cmp, head);
      ls', deleteNode' := ls, deleteNode;
    }
  }

  /** t if it reaches above level, null otherwise. */
  function Reaching<K, V>(t: SkipListNode?<K, V>, level: int): SkipListNode?<K, V>
  {
    if t != null && level < t.height then t else null
  }

  /**
   * Remove's single descent: from the top level down, unlink the node with
   * key from every level it is on. Reports the node it unlinked, if any.
   */
  method UnlinkAll<K(!new), V>(ghost L: seq<seq<SkipListNode<K, V>>>, maxHeight: nat, key: K, ghost t: SkipListNode?<K, V>,
                               ghost R: set<array<SkipListNode?<K, V>>>, cmp: (K, K) -> int, head: SkipListNode<K, V>)
    returns (ghost ls: seq<seq<SkipListNode<K, V>>>, deleteNode: SkipListNode?<K, V>)
    requires |L| == maxHeight && Removing(L, maxHeight - 1, L, t, key, R, cmp, head) && AllLinked(L)
    requires forall x :: x in L[0] ==> 1 <= x.height <= maxHeight && x.forward.Length == x.height
    requires head.height == maxHeight && head.forward.Length == maxHeight
    requires t != null ==> 1 <= t.height <= maxHeight
    modifies R
    ensures deleteNode == t
    ensures WellFormed(ls, head, cmp, maxHeight)
    ensures forall l, x {:trigger x in ls[l]} :: 0 <= l < |ls| && x in ls[l] ==> x.forward in R && (t != null ==> x.forward != t.forward)
    ensures t == null ==> ls == L
    ensures t != null ==> DropsNode(ls[0], L[0], t) && |ls[0]| + 1 == |L[0]|
  {
    ls := L;
    var level: int := maxHeight - 1;
    var cur := head;
    ghost var pos: nat := 0;
    deleteNode := null;
    while level >= 0
      invariant Removing(ls, level, L, t, key, R, cmp, head) && AllLinked(ls)
      invariant 0 <= level ==> pos < |L[level]| && L[level][pos] == cur && (pos == 0 || cmp(cur.key, key) < 0)
      invariant deleteNode == Reaching(t, level + 1)
      decreases level
    {
      ls, cur, pos, deleteNode := UnlinkLevel(ls, level, L, t, key, R, cmp, head, cur, pos, deleteNode);
      level := level - 1;
    }
    RemovalDone(ls, L, t, key, R, cmp, head);
  }

  /** Once every level is done, the new levels form a list again, and level 0 has lost t if anything. */
  lemma RemovalDone<K(!new), V>(ls: seq<seq<SkipListNode<K, V>>>, L: seq<seq<SkipListNode<K, V>>>, t: SkipListNode?<K, V>,
                                key: K, R: set<array<SkipListNode?<K, V>>>, cmp: (K, K) -> int, head: SkipListNode<K, V>)
    requires Removing(ls, -1, L, t, key, R, cmp, head) && AllLinked(ls)
    requires forall x :: x in L[0] ==> 1 <= x.height <= |L| && x.forward.Length == x.height
    requires head.height == |L| && head.forward.Length == |L|
    ensures WellFormed(ls, head, cmp, |L|)
    ensures forall l, x {:trigger x in ls[l]} :: 0 <= l < |ls| && x in ls[l] ==> x.forward in R && (t != null ==> x.forward != t.forward)
    ensures t == null ==> ls == L
    ensures t != null ==> DropsNode(ls[0], L[0], t) && |ls[0]| + 1 == |L[0]|
  {
    if t == null {
      assert ls == L;
    } else {
      RemovedLevels(ls, L, t, key, R, cmp, head);
      assert 0 < t.height;
    }
  }

  /** Level 0 after the descent holds the entries of C but key's, and it lost a node exactly when key was in C. */
  lemma RemovedEntries<K(!new), V>(s: seq<SkipListNode<K, V>>, S: seq<SkipListNode<K, V>>, t: SkipListNode?<K, V>, key: K,
                                   cmp: (K, K) -> int, head: SkipListNode<K, V>, C: map<K, V>)
    requires IsTotalOrder(cmp) && Sorted(S, cmp) && 1 <= |S| && S[0] == head && Represents(S, head, C)
    requires t == null ==> Missing(S, key) && s == S
    requires t != null ==> t in S && t != head && t.key == key && DropsNode(s, S, t)
    ensures t == null <==> key !in C
    ensures t == null ==> C - {key} == C
    ensures Represents(s, head, C - {key})
  {
    if t == null {
      NothingRemoved(S, head, key, C);
    } else {
      RemovedEntry(s, S, t, cmp, head, C);
    }
  }

  /** A key no node of level 0 carries has no entry, and removing it changes nothing. */
  lemma NothingRemoved<K, V>(s: seq<SkipListNode<K, V>>, head: SkipListNode<K, V>, key: K, C: map<K, V>)
    requires Represents(s, head, C) && Missing(s, key) && 1 <= |s| && s[0] == head
    ensures key !in C && C - {key} == C
  {
    if key in C {
      var x :| x in s && x != head && x.key == key;
      var i := IndexOf(s, x);
    }
  }

  /** Dropping t from the levels below its height leaves a list of L's other nodes. */
  lemma RemovedLevels<K(!new), V>(ls: seq<seq<SkipListNode<K, V>>>, L: seq<seq<SkipListNode<K, V>>>, t: SkipListNode<K, V>,
                                  key: K, R: set<array<SkipListNode?<K, V>>>, cmp: (K, K) -> int, head: SkipListNode<K, V>)
    requires Removing(ls, -1, L, t, key, R, cmp, head) && AllLinked(ls)
    requires forall x :: x in L[0] ==> 1 <= x.height <= |L| && x.forward.Length == x.height
    requires head.height == |L| && head.forward.Length == |L|
    ensures WellFormed(ls, head, cmp, |L|)
    ensures forall l, x {:trigger x in ls[l]} :: 0 <= l < |ls| && x in ls[l] ==> x.forward in R && x.forward != t.forward
  {
    LadderRemove(L, ls, t);
    assert DropsNode(ls[0], L[0], t);
    var j := IndexOf(L[0], t);
    forall l, x: SkipListNode<K, V> {:trigger x in ls[l]} | 0 <= l < |ls| && x in ls[l]
      ensures x.forward in R && x.forward != t.forward
    {
      assert DropsNode(ls[l], L[l], t);
      assert x in L[0] && x != t;
      var i := IndexOf(L[0], x);
    }
  }

  /** Dropping t, the only node with key, from level 0 drops key's entry. */
  lemma RemovedEntry<K(!new), V>(s: seq<SkipListNode<K, V>>, S: seq<SkipListNode<K, V>>, t: SkipListNode<K, V>,
                                 cmp: (K, K) -> int, head: SkipListNode<K, V>, C: map<K, V>)
    requires IsTotalOrder(cmp) && Sorted(S, cmp) && 1 <= |S| && S[0] == head
    requires t in S && t != head && DropsNode(s, S, t)
    requires Represents(S, head, C)
    ensures t.key in C
    ensures Represents(s, head, C - {t.key})
  {
    var j := IndexOf(S, t);
    forall x | x in S && x != head && x.key == t.key
      ensures x == t
    {
      var i := IndexOf(S, x);
      SameKeySamePosition(S, cmp, i, j);
    }
    RepresentsRemove(S, s, head, C, t);
  }

  /** The nodes of s past the head are the entries of m, and m has no others. */
  ghost predicate Represents<K, V>(s: seq<SkipListNode<K, V>>, head: SkipListNode<K, V>, m: map<K, V>)
  {
    (forall x :: x in s && x != head ==> x.key in m && m[x.key] == x.value) &&
    (forall k :: k in m ==> exists x :: x in s && x != head && x.key == k)
  }

  /** t holds the nodes of s and n, and no others. */
  ghost predicate AddsNode<K, V>(t: seq<SkipListNode<K, V>>, s: seq<SkipListNode<K, V>>, n: SkipListNode<K, V>)
  {
    (forall x :: x in t ==> x in s || x == n) && (forall x :: x in s ==> x in t) && n in t
  }

  /** t holds the nodes of s other than n, and no others. */
  ghost predicate DropsNode<K, V>(t: seq<SkipListNode<K, V>>, s: seq<SkipListNode<K, V>>, n: SkipListNode<K, V>)
  {
    (forall x :: x in t ==> x in s && x != n) && (forall x :: x in s && x != n ==> x in t)
  }

  /** Adding a new node to exactly the levels below its height keeps the ladder. */
  lemma LadderInsert<K, V>(ls: seq<seq<SkipListNode<K, V>>>, ls': seq<seq<SkipListNode<K, V>>>, n: SkipListNode<K, V>)
    requires Ladder(ls) && |ls'| == |ls| && n !in ls[0] && 1 <= n.height
    requires forall l :: 0 <= l < |ls| && l < n.height ==> AddsNode(ls'[l], ls[l], n)
    requires forall l :: 0 <= l < |ls| && n.height <= l ==> ls'[l] == ls[l]
    ensures Ladder(ls')
  {
    assert AddsNode(ls'[0], ls[0], n);
    forall l, x | 0 <= l < |ls'| && x in ls'[l]
      ensures x in ls'[0] && l < x.height
    {
      if l < n.height {
        assert AddsNode(ls'[l], ls[l], n);
      }
    }
    forall l, x | 0 <= l < |ls'| && x in ls'[0] && l < x.height
      ensures x in ls'[l]
    {
      if l < n.height {
        assert AddsNode(ls'[l], ls[l], n);
      }
    }
  }

  /** Dropping a node from exactly the levels below its height keeps the ladder. */
  lemma LadderRemove<K, V>(ls: seq<seq<SkipListNode<K, V>>>, ls': seq<seq<SkipListNode<K, V>>>, n: SkipListNode<K, V>)
    requires Ladder(ls) && |ls'| == |ls|
    requires forall l :: 0 <= l < |ls| && l < n.height ==> DropsNode(ls'[l], ls[l], n)
    requires forall l :: 0 <= l < |ls| && n.height <= l ==> ls'[l] == ls[l]
    ensures Ladder(ls')
  {
    forall l, x | 0 <= l < |ls'| && x in ls'[l]
      ensures x in ls'[0] && l < x.height
    {
      if l < n.height {
        assert DropsNode(ls'[l], ls[l], n);
      }
      if 0 < n.height {
        assert DropsNode(ls'[0], ls[0], n);
      }
    }
    forall l, x | 0 <= l < |ls'| && x in ls'[0] && l < x.height
      ensures x in ls'[l]
    {
      if 0 < n.height {
        assert DropsNode(ls'[0], ls[0], n);
      }
      if l < n.height {
        assert DropsNode(ls'[l], ls[l], n);
      }
    }
  }

  /** Adding a node with a new key to level 0 adds its entry to the map. */
  lemma RepresentsInsert<K, V>(s: seq<SkipListNode<K, V>>, t: seq<SkipListNode<K, V>>, head: SkipListNode<K, V>,
                               m: map<K, V>, n: SkipListNode<K, V>)
    requires Represents(s, head, m) && AddsNode(t, s, n) && n != head && n.key !in m
    ensures Represents(t, head, m[n.key := n.value])
  {
    var m' := m[n.key := n.value];
    forall k | k in m'
      ensures exists x :: x in t && x != head && x.key == k
    {
      if k != n.key {
        var x :| x in s && x != head && x.key == k;
        assert x in t;
      }
    }
  }

  /** Dropping the node of a key from level 0 drops its entry from the map. */
  lemma RepresentsRemove<K, V>(s: seq<SkipListNode<K, V>>, t: seq<SkipListNode<K, V>>, head: SkipListNode<K, V>,
                               m: map<K, V>, n: SkipListNode<K, V>)
    requires Represents(s, head, m) && DropsNode(t, s, n) && n in s && n != head
    requires forall x :: x in s && x != head && x.key == n.key ==> x == n
    ensures Represents(t, head, m - {n.key})
  {
    var m' := m - {n.key};
    forall k | k in m'
      ensures exists x :: x in t && x != head && x.key == k
    {
      var x :| x in s && x != head && x.key == k;
      assert x in t;
    }
  }

  /** A sorted level-0 run whose nodes past the head represent m has exactly one entry per node. */
  lemma {:induction false} EntryCount<K(!new), V>(s: seq<SkipListNode<K, V>>, head: SkipListNode<K, V>, m: map<K, V>,
                                                  cmp: (K, K) -> int)
    requires IsTotalOrder(cmp) && Sorted(s, cmp) && DistinctArrays(s) && 1 <= |s| && s[0] == head
    requires Represents(s, head, m)
    ensures |m| == |s| - 1
    decreases |s|
  {
    if |s| == 1 {
      HeadOnly(s, head, m);
    } else {
      var x := s[|s| - 1];
      PrefixEntries(s, head, m, cmp);
      PrefixKeys(s, head, m);
      EntryCount(s[..|s| - 1], head, m - {x.key}, cmp);
      KeyRemovedCount(m, x.key);
    }
  }

  /** Dropping a key the map holds drops exactly one entry. */
  lemma KeyRemovedCount<K, V>(m: map<K, V>, key: K)
    requires key in m
    ensures |m - {key}| == |m| - 1
  {
    assert m.Keys == (m - {key}).Keys + {key};
  }

  /** A run of just the head represents only the empty map. */
  lemma HeadOnly<K, V>(s: seq<SkipListNode<K, V>>, head: SkipListNode<K, V>, m: map<K, V>)
    requires s == [head] && Represents(s, head, m)
    ensures m == map[]
  {
    assert forall k :: k !in m;
  }

  /** Every node but the last of a sorted run keeps its entry once the last node's key is dropped. */
  lemma PrefixEntries<K(!new), V>(s: seq<SkipListNode<K, V>>, head: SkipListNode<K, V>, m: map<K, V>, cmp: (K, K) -> int)
    requires IsTotalOrder(cmp) && Sorted(s, cmp) && DistinctArrays(s) && 2 <= |s| && s[0] == head
    requires Represents(s, head, m)
    ensures s[|s| - 1] != head && s[|s| - 1].key in m
    ensures forall y :: y in s[..|s| - 1] && y != head ==> y.key in m - {s[|s| - 1].key} && m[y.key] == y.value
  {
    var last := |s| - 1;
    assert s[0].forward != s[last].forward;
    assert s[last] in s;
    forall y | y in s[..last] && y != head
      ensures y.key != s[last].key
    {
      var i := IndexOf(s[..last], y);
      assert s[i] == y;
    }
  }

  /** Every key but the last node's still has a node among the others. */
  lemma PrefixKeys<K, V>(s: seq<SkipListNode<K, V>>, head: SkipListNode<K, V>, m: map<K, V>)
    requires 2 <= |s| && Represents(s, head, m)
    ensures forall k :: k in m && k != s[|s| - 1].key ==> exists y :: y in s[..|s| - 1] && y != head && y.key == k
  {
    var last := |s| - 1;
    forall k | k in m && k != s[last].key
      ensures exists y :: y in s[..last] && y != head && y.key == k
    {
      var y :| y in s && y != head && y.key == k;
      var i := IndexOf(s, y);
      assert i < last;
      assert s[..last][i] == y;
    }
  }

  /** The pairs of the nodes past the head are exactly the entries of the map they represent. */
  lemma EntriesRepresent<K, V>(L: seq<SkipListNode<K, V>>, head: SkipListNode<K, V>, m: map<K, V>)
    requires DistinctArrays(L) && 1 <= |L| && L[0] == head && Represents(L, head, m)
    ensures forall k, v :: (k, v) in EntriesOf(L[1..]) <==> k in m && m[k] == v
  {
    var E := EntriesOf(L[1..]);
    forall k, v | (k, v) in E
      ensures k in m && m[k] == v
    {
      var i :| 0 <= i < |E| && E[i] == (k, v);
      assert L[0].forward != L[i + 1].forward;
      assert L[i + 1] in L;
    }
    forall k, v | k in m && m[k] == v
      ensures (k, v) in E
    {
      var x :| x in L && x != head && x.key == k;
      var i := IndexOf(L, x);
      assert E[i - 1] == (k, v);
    }
  }

  /**
   * The destructor's loop: while the head has a level-0 successor, make the
   * head skip it and free it. `freed` lists the freed nodes in order.
   */
  method FreeAll<K, V>(ghost L: seq<SkipListNode<K, V>>, head: SkipListNode<K, V>) returns (ghost freed: seq<SkipListNode<K, V>>)
    requires Linked(0, L) && DistinctArrays(L) && 1 <= |L| && L[0] == head
    modifies head.forward
    ensures head.forward[0] == null
    ensures freed == L[1..]
  {
    ghost var k := 0;
    freed := [];
    while head.forward[0] != null
      invariant 0 <= k < |L| && head.forward[0] == Next(L, k)
      invariant freed == L[1..k + 1]
      decreases |L| - k
    {
      var node := head.forward[0];
      assert node == L[k + 1] && L[0].forward != node.forward;
      assert old(node.forward[0]) == Next(L, k + 1);
      head.forward[0] := node.forward[0];
      assert L[1..k + 2] == L[1..k + 1] + [L[k + 1]];
      freed := freed + [L[k + 1]];
      k := k + 1;
    }
  }

  /** The (key, value) pairs of a run of nodes, in order: what dereferencing an iterator on each yields. */
  function EntriesOf<K, V>(s: seq<SkipListNode<K, V>>): seq<(K, V)>
  {
    seq(|s|, i requires 0 <= i < |s| => (s[i].key, s[i].value))
  }

  class SkipList<K(==, !new), V> {
    const comparator: (K, K) -> int
    const maxHeight: nat
    const seed: nat
    const rng: Rand
    const head: SkipListNode<K, V>
    var size: nat

    ghost var levels: seq<seq<SkipListNode<K, V>>>
    ghost var contents: map<K, V>
    ghost var Repr: set<array<SkipListNode?<K, V>>>

    ghost predicate Valid()
      reads this, Repr
    {
      && Shape()
      && (forall l, x {:trigger x in levels[l]} :: 0 <= l < |levels| && x in levels[l] ==> x.forward in Repr)
      && (forall l :: 0 <= l < |levels| ==> LevelOk(l, levels[l], comparator))
      && Abstraction()
    }

    /** The heap-independent part of Valid: heights and the ladder of levels. */
    ghost predicate Shape()
      reads this
    {
      && IsTotalOrder(comparator)
      && 1 <= maxHeight && head.height == maxHeight && head.forward.Length == maxHeight
      && |levels| == maxHeight && HeadFirst(levels, head) && Ladder(levels)
      && (forall x :: x in levels[0] ==> 1 <= x.height <= maxHeight && x.forward.Length == x.height)
    }

    /** The level-0 nodes past the head are the map's entries, and size_ counts them. */
    ghost predicate Abstraction()
      reads this
      requires 1 <= |levels|
    {
      && size == |levels[0]| - 1
      && Represents(levels[0], head, contents)
    }

    /** The list's pairs in level-0 order: what a walk from begin() to end() dereferences. */
    ghost function Entries(): seq<(K, V)>
      requires Valid()
      reads this, Repr
    {
      EntriesOf(levels[0][1..])
    }

    /** Iteration yields the keys in strictly increasing comparator order. */
    lemma EntriesInOrder()
      requires Valid()
      ensures forall i, j :: 0 <= i < j < |Entries()| ==> comparator(Entries()[i].0, Entries()[j].0) < 0
    {
      assert LevelOk(0, levels[0], comparator);
      forall i, j | 0 <= i < j < |Entries()|
        ensures comparator(Entries()[i].0, Entries()[j].0) < 0
      {
        assert Entries()[i].0 == levels[0][i + 1].key && Entries()[j].0 == levels[0][j + 1].key;
      }
    }

    /** Iteration yields each entry of the map once, and nothing else. */
    lemma EntriesAreContents()
      requires Valid()
      ensures |Entries()| == |contents|
      ensures forall k, v :: (k, v) in Entries() <==> k in contents && contents[k] == v
    {
      assert LevelOk(0, levels[0], comparator);
      EntryCount(levels[0], head, contents, comparator);
      EntriesRepresent(levels[0], head, contents);
    }

    /** Dereferencing an iterator on the node at position i of level 0 gives the i-th pair of the iteration. */
    lemma DerefAt(it: Iterator<K, V>, i: nat)
      requires Valid() && 1 <= i < |levels[0]| && it.cur == levels[0][i]
      ensures it.Deref() == Entries()[i - 1]
      ensures it.Deref().0 in contents && contents[it.Deref().0] == it.Deref().1
    {
      OnLevelZero(0, i);
    }

    /** An iterator after position i of level 0 equals end() exactly when i is the last position. */
    lemma EndAt(it: Iterator<K, V>, end: Iterator<K, V>, i: nat)
      requires Valid() && i < |levels[0]| && it.cur == Next(levels[0], i) && end.cur == null
      ensures it.Equals(end) <==> i == |levels[0]| - 1
      ensures it.NotEquals(end) <==> i < |levels[0]| - 1
    {
    }

    /** begin(): an iterator on the first node past the head, the end for an empty list. */
    method Begin() returns (it: Iterator<K, V>)
      requires Valid()
      ensures fresh(it) && it.cur == Next(levels[0], 0)
    {
      assert LevelOk(0, levels[0], comparator);
      it := new Iterator(head.forward[0]);
    }

    /** end(): the iterator past the last node. */
    method End() returns (it: Iterator<K, V>)
      ensures fresh(it) && it.cur == null
    {
      it := new Iterator(null);
    }

    /**
     * ~SkipList: unlink the nodes after the head from level 0 one at a time,
     * freeing each; `freed` lists them in the order they are freed, then the
     * head itself is freed.
     */
    method Destroy() returns (ghost freed: seq<SkipListNode<K, V>>)
      requires Valid()
      modifies head.forward
      ensures head.forward[0] == null
      ensures freed == levels[0][1..]
    {
      assert LevelOk(0, levels[0], comparator);
      freed := FreeAll(levels[0], head);
    }

    constructor (comparator: (K, K) -> int, maxHeight: nat, seed: nat, rng: Rand, headKey: K, headValue: V)
      requires IsTotalOrder(comparator) && 1 <= maxHeight
      modifies rng
      ensures Valid() && fresh(Repr)
      ensures this.comparator == comparator && this.maxHeight == maxHeight && this.seed == seed && this.rng == rng
      ensures size == 0 && contents == map[]
      ensures fresh(head) && levels == seq(maxHeight, _ => [head])
      ensures forall i :: 0 <= i < maxHeight ==> head.forward[i] == null
      ensures rng.seed == seed && rng.calls == 0
    {
      this.comparator := comparator;
      this.maxHeight := maxHeight;
      this.seed := seed;
      this.rng := rng;
      rng.Srand(seed);
      var h := new SkipListNode(headKey, headValue, maxHeight);
      head := h;
      size := 0;
      levels := seq(maxHeight, _ => [h]);
      contents := map[];
      Repr := {h.forward};
    }

    function Size(): (n: nat)
      requires Valid()
      reads this, Repr
      ensures n == |levels[0]| - 1 && n == |contents|
    {
      assert LevelOk(0, levels[0], comparator);
      EntryCount(levels[0], head, contents, comparator);
      size
    }

    /** A node past the head on any level is a node of level 0, stored under its key. */
    lemma OnLevelZero(l: nat, i: nat)
      requires Valid() && l < maxHeight && 1 <= i < |levels[l]|
      ensures levels[l][i] in levels[0] && levels[l][i] != head
      ensures levels[l][i].key in contents && contents[levels[l][i].key] == levels[l][i].value
    {
      assert LevelOk(l, levels[l], comparator);
      PastHeadOnLevelZero(levels, head, l, i);
    }

    /** A key no level-0 node carries is not in the map. */
    lemma AbsentFromContents(key: K)
      requires Valid()
      requires Missing(levels[0], key)
      ensures key !in contents
    {
    }

    /** The descent that Lookup and Insert share, and whether it meets key. */
    method Search(key: K) returns (found: SkipListNode?<K, V>)
      requires Valid()
      ensures found != null ==> found in levels[0] && found != head && found.key == key
      ensures found == null <==> key !in contents
    {
      found := Descend(levels, maxHeight, head, comparator, key);
      if found == null {
        AbsentFromContents(key);
      }
    }

    /**
     * Insert a new key: a first descent rejects a key already present;
     * otherwise a node of RandomHeight() levels is spliced in, on every level
     * below its height, after the last node with a smaller key.
     */
    method Insert(key: K, value: V) returns (inserted: bool)
      requires Valid()
      modifies this, Repr, rng
      ensures Valid() && fresh(Repr - old(Repr))
      ensures inserted <==> key !in old(contents)
      ensures contents == if inserted then old(contents)[key := value] else old(contents)
      ensures rng.seed == old(rng.seed)
      ensures size == old(size) + (if inserted then 1 else 0)
      ensures !inserted ==> levels == old(levels) && Repr == old(Repr) && rng.calls == old(rng.calls)
    {
      var found := Search(key);
      if found != null {
        return false;
      }
      var height := RandomHeight();
      var n := new SkipListNode(key, value, height);
      Link(n);
      return true;
    }

    /** The second descent of Insert: splice a fresh node with a new key into the levels below its height. */
    method Link(n: SkipListNode<K, V>)
      requires Valid() && n.key !in contents && n.forward !in Repr
      requires 1 <= n.height <= maxHeight && n.forward.Length == n.height
      modifies this, Repr, n.forward
      ensures Valid() && Repr == old(Repr) + {n.forward}
      ensures contents == old(contents)[n.key := n.value] && size == old(size) + 1
    {
      ghost var L := levels;
      StartSplicing(n);
      ghost var ls := SpliceAll(L, maxHeight, n, Repr, comparator, head, contents);
      Adopt(ls, n);
    }

    /** The end of Insert, once the levels ls reach n: n's links join the footprint and size_ grows by one. */
    method Adopt(ghost ls: seq<seq<SkipListNode<K, V>>>, n: SkipListNode<K, V>)
      requires WellFormed(ls, head, comparator, maxHeight)
      requires forall l, x {:trigger x in ls[l]} :: 0 <= l < |ls| && x in ls[l] ==> x.forward in Repr + {n.forward}
      requires Represents(ls[0], head, contents[n.key := n.value]) && |ls[0]| == size + 2
      modifies this
      ensures Valid() && Repr == old(Repr) + {n.forward} && levels == ls
      ensures contents == old(contents)[n.key := n.value] && size == old(size) + 1
    {
      levels := ls;
      Repr := Repr + {n.forward};
      size := size + 1;
      contents := contents[n.key := n.value];
    }

    /** A valid list and a fresh node for a new key: the insertion can start at the top level. */
    lemma StartSplicing(n: SkipListNode<K, V>)
      requires Valid() && n.key !in contents && n.forward !in Repr
      requires 1 <= n.height <= maxHeight && n.forward.Length == n.height
      ensures Inserting(levels, maxHeight - 1, levels, n, Repr, comparator, head) && AllLinked(levels)
      ensures Represents(levels[0], head, contents) && size == |levels[0]| - 1
      ensures forall x :: x in levels[0] ==> 1 <= x.height <= maxHeight && x.forward.Length == x.height
      ensures head.height == maxHeight && head.forward.Length == maxHeight
    {
      forall l, i | 0 <= l < maxHeight && 1 <= i < |levels[l]|
        ensures levels[l][i].key != n.key
      {
        OnLevelZero(l, i);
      }
      forall l, j | 0 <= l < maxHeight && 0 <= j < |levels[l]|
        ensures levels[l][j].forward != n.forward
      {
        assert levels[l][j] in levels[l];
      }
      assert head in levels[0];
    }

    /**
     * Remove key: one descent from the top level unlinks the node with that
     * key from every level it is on; the node is then freed.
     */
    method Remove(key: K) returns (removed: bool)
      requires Valid()
      modifies this, Repr
      ensures Valid() && Repr <= old(Repr)
      ensures removed <==> key in old(contents)
      ensures contents == old(contents) - {key}
      ensures size == old(size) - (if removed then 1 else 0)
      ensures !removed ==> levels == old(levels) && Repr == old(Repr)
      ensures removed ==> exists a :: a in old(Repr) && Repr == old(Repr) - {a}
    {
      ghost var t := StartRemoving(key);
      ghost var ls: seq<seq<SkipListNode<K, V>>>;
      var deleteNode: SkipListNode?<K, V>;
      ghost var L := levels;
      ls, deleteNode := UnlinkAll(L, maxHeight, key, t, Repr, comparator, head);
      RemovedEntries(ls[0], L[0], t, key, comparator, head, contents);
      removed := Release(ls, deleteNode, key);
    }

    /**
     * The end of Remove, once the levels ls no longer reach deleteNode: the
     * node is freed (its links leave the footprint) and size_ drops by one.
     */
    method Release(ghost ls: seq<seq<SkipListNode<K, V>>>, deleteNode: SkipListNode?<K, V>, key: K) returns (removed: bool)
      requires WellFormed(ls, head, comparator, maxHeight)
      requires forall l, x {:trigger x in ls[l]} :: 0 <= l < |ls| && x in ls[l] ==>
                 x.forward in Repr && (deleteNode != null ==> x.forward != deleteNode.forward)
      requires Represents(ls[0], head, contents - {key})
      requires deleteNode == null ==> contents - {key} == contents && |ls[0]| == size + 1
      requires deleteNode != null ==> deleteNode.forward in Repr && |ls[0]| == size && 1 <= size
      modifies this
      ensures Valid() && Repr <= old(Repr) && levels == ls
      ensures removed <==> deleteNode != null
      ensures contents == old(contents) - {key}
      ensures size == old(size) - (if removed then 1 else 0)
      ensures !removed ==> Repr == old(Repr)
      ensures removed ==> deleteNode.forward in old(Repr) && Repr == old(Repr) - {deleteNode.forward}
    {
      levels := ls;
      contents := contents - {key};
      if deleteNode == null {
        return false;
      }
      Repr := Repr - {deleteNode.forward};
      size := size - 1;
      return true;
    }

    /** The node a removal of key takes out, null if no node carries key, and the state the descent starts from. */
    lemma StartRemoving(key: K) returns (t: SkipListNode?<K, V>)
      requires Valid()
      ensures Removing(levels, maxHeight - 1, levels, t, key, Repr, comparator, head) && AllLinked(levels)
      ensures Represents(levels[0], head, contents) && size == |levels[0]| - 1
      ensures forall x :: x in levels[0] ==> 1 <= x.height <= maxHeight && x.forward.Length == x.height
      ensures head.height == maxHeight && head.forward.Length == maxHeight
    {
      if key in contents {
        t :| t in levels[0] && t != head && t.key == key;
      } else {
        t := null;
        forall i | 1 <= i < |levels[0]|
          ensures levels[0][i].key != key
        {
          OnLevelZero(0, i);
        }
      }
    }

    method Lookup(key: K, result: seq<V>) returns (found: bool, values: seq<V>)
      requires Valid()
      ensures found <==> key in contents
      ensures values == if found then result + [contents[key]] else result
    {
      var node := Search(key);
      if node == null {
        return false, result;
      }
      return true, result + [node.value];
    }

    /** A height in 1..maxHeight: promote while the draw is below RAND_MAX / 2 and there is room. */
    method RandomHeight() returns (height: nat)
      requires 1 <= maxHeight
      modifies rng
      ensures 1 <= height <= maxHeight
      ensures rng.seed == old(rng.seed)
      ensures rng.calls == old(rng.calls) + (if height < maxHeight then height else height - 1)
      ensures forall i :: old(rng.calls) <= i < old(rng.calls) + height - 1 ==> rng.Draw(rng.seed, i) < RandMax / 2
      ensures height < maxHeight ==> RandMax / 2 <= rng.Draw(rng.seed, old(rng.calls) + height - 1)
    {
      height := 1;
      while height < maxHeight
        invariant 1 <= height <= maxHeight
        invariant rng.seed == old(rng.seed) && rng.calls == old(rng.calls) + height - 1
        invariant forall i :: old(rng.calls) <= i < rng.calls ==> rng.Draw(rng.seed, i) < RandMax / 2
      {
        var r := rng.NextDraw();
        if RandMax / 2 <= r {
          break;
        }
        height := height + 1;
      }
    }
  }

  /** SkipList<...>::Iterator: a position on level 0, null past the last node. */
  class Iterator<K, V> {
    var cur: SkipListNode?<K, V>

    constructor (node: SkipListNode?<K, V>)
      ensures cur == node
    {
      cur := node;
    }

    /** operator*: the current node's key and value. */
    function Deref(): (K, V)
      requires cur != null
      reads this
    {
      (cur.key, cur.value)
    }

    /** operator++: follow the current node's level-0 link; on a level s, position i moves to i + 1. */
    method Advance(ghost s: seq<SkipListNode<K, V>>, ghost i: nat)
      requires Linked(0, s) && i < |s| && cur == s[i]
      modifies this
      ensures cur == Next(s, i)
    {
      assert cur in s;
      cur := cur.forward[0];
    }

    /** operator==: the two iterators are on the same node. */
    function Equals(other: Iterator<K, V>): bool
      reads this, other
    {
      cur == other.cur
    }

    /** operator!= */
    function NotEquals(other: Iterator<K, V>): bool
      reads this, other
    {
      cur != other.cur
    }
  }
}
