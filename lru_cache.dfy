/** The cache as the C program builds it: a doubly linked recency list
    (head = most recently used, tail = least recently used) and a key index of
    HASH_SIZE slots, one node reference per slot, kept in step by `get` and
    `put`. Nodes live in an arena: a node reference is an arena position, NIL
    stands for the null pointer, and each field of the C node struct is one
    sequence indexed by node reference (`keys[x]` is `x->key`, `nexts[x]` is
    `x->next`, and so on). */
module Lru {
  import opened LruSpec

  /** Number of slots of the key index. */
  const HASH_SIZE: int := 1000

  /** The null node reference. */
  const NIL: int := -1

  /** C's `key % HASH_SIZE`: the remainder truncates toward zero, so a
      negative key gives a negative slot. */
  function HashFunc(key: int): (r: int)
    ensures -HASH_SIZE < r < HASH_SIZE
    ensures (key - r) % HASH_SIZE == 0
    ensures 0 <= key ==> 0 <= r
    ensures key < 0 ==> r <= 0
    ensures 0 <= key < HASH_SIZE ==> r == key
  {
    if 0 <= key then key % HASH_SIZE else -((-key) % HASH_SIZE)
  }

  // -----------------------------------------------------------------------
  // The shape of the recency list and of the key index, stated on values:
  // `list` is the sequence of node references from head to tail.

  /** The node before position `i` of a list, NIL for the first. */
  function PrevOf(list: seq<int>, i: int): int
    requires 0 <= i < |list|
  {
    if i == 0 then NIL else list[i - 1]
  }

  /** The node after position `i` of a list, NIL for the last. */
  function NextOf(list: seq<int>, i: int): int
    requires 0 <= i < |list|
  {
    if i == |list| - 1 then NIL else list[i + 1]
  }

  /** The first node of a list, NIL for the empty list. */
  function First(list: seq<int>): int {
    if list == [] then NIL else list[0]
  }

  /** The last node of a list, NIL for the empty list. */
  function Last(list: seq<int>): int {
    if list == [] then NIL else list[|list| - 1]
  }

  /** Every list element is a node of an arena of `count` nodes. */
  ghost predicate InRange(count: int, list: seq<int>) {
    forall i :: 0 <= i < |list| ==> 0 <= list[i] < count
  }

  /** No node occurs twice in the list. */
  ghost predicate Distinct(list: seq<int>) {
    forall i, j :: 0 <= i < j < |list| ==> list[i] != list[j]
  }

  /** The `prev`/`next` links and `head`/`tail` spell out `list`: NIL exactly
      at the two ends, every other link to the list neighbour. (No node can
      then occur twice: see LinksDistinct.) */
  ghost predicate Links(prevs: seq<int>, nexts: seq<int>, list: seq<int>, head: int, tail: int) {
    && |nexts| == |prevs|
    && InRange(|prevs|, list)
    && head == First(list)
    && tail == Last(list)
    && (forall i {:trigger prevs[list[i]]} :: 0 <= i < |list| ==> prevs[list[i]] == PrevOf(list, i))
    && (forall i {:trigger nexts[list[i]]} :: 0 <= i < |list| ==> nexts[list[i]] == NextOf(list, i))
  }

  /** Every listed node is registered in the slot of its key, and every
      registered node is listed and carries the key of its slot. */
  ghost predicate Indexed(keys: seq<int>, list: seq<int>, hash: seq<int>) {
    && InRange(|keys|, list)
    && |hash| == HASH_SIZE
    && (forall i {:trigger keys[list[i]]} :: 0 <= i < |list| ==>
          0 <= keys[list[i]] < HASH_SIZE && hash[keys[list[i]]] == list[i])
    && (forall s :: 0 <= s < HASH_SIZE && hash[s] != NIL ==>
          hash[s] in list && 0 <= hash[s] < |keys| && keys[hash[s]] == s)
  }

  /** `entries` is the list read as key/value pairs. */
  ghost predicate Tabulates(keys: seq<int>, values: seq<int>, list: seq<int>, entries: seq<Entry>) {
    && |values| == |keys|
    && InRange(|keys|, list)
    && |entries| == |list|
    && (forall i {:trigger entries[i]} :: 0 <= i < |list| ==>
          entries[i] == Entry(keys[list[i]], values[list[i]]))
  }

  lemma NodesMoveFront(count: int, list: seq<int>, i: nat)
    requires InRange(count, list) && i < |list|
    ensures InRange(count, MoveFront(list, i))
  {
    var m := MoveFront(list, i);
    forall j | 0 <= j < |m| ensures 0 <= m[j] < count {
      MoveFrontAt(list, i, j);
    }
  }

  lemma NodesPush(count: int, list: seq<int>, n: int)
    requires InRange(count, list) && 0 <= n < count
    ensures InRange(count, [n] + list)
  {
    var m := [n] + list;
    forall j | 0 <= j < |m| ensures 0 <= m[j] < count {
      if 0 < j {
        assert m[j] == list[j - 1];
      }
    }
  }

  lemma NodesRemoveAt(count: int, list: seq<int>, i: nat)
    requires InRange(count, list) && Distinct(list) && i < |list|
    ensures InRange(count, RemoveAt(list, i))
    ensures list[i] !in RemoveAt(list, i)
  {
    var r := RemoveAt(list, i);
    forall j | 0 <= j < |r| ensures 0 <= r[j] < count && r[j] != list[i] {
      RemoveAtAt(list, i, j);
    }
  }

  /** Following `next` links from two different positions of a list never
      meets: the later position reaches the NIL at the tail first. */
  lemma {:induction false} LinkedApart(nexts: seq<int>, list: seq<int>, i: nat, j: nat)
    requires InRange(|nexts|, list) && i < j < |list|
    requires forall k {:trigger nexts[list[k]]} :: 0 <= k < |list| ==> nexts[list[k]] == NextOf(list, k)
    ensures list[i] != list[j]
    decreases |list| - j
  {
    assert nexts[list[i]] == NextOf(list, i) && nexts[list[j]] == NextOf(list, j);
    if j < |list| - 1 {
      LinkedApart(nexts, list, i + 1, j + 1);
    }
  }

  /** A list that the links spell out holds no node twice. */
  lemma LinksDistinct(prevs: seq<int>, nexts: seq<int>, list: seq<int>, head: int, tail: int)
    requires Links(prevs, nexts, list, head, tail)
    ensures Distinct(list)
  {
    forall i, j | 0 <= i < j < |list| ensures list[i] != list[j] {
      LinkedApart(nexts, list, i, j);
    }
  }

  // -----------------------------------------------------------------------
  // moveToHead

  /** The detach half of moveToHead: once the neighbours of node `list[i]`
      (0 < i) point at each other, the links spell out the list without it,
      and the tail moves back when `list[i]` was the tail. */
  lemma DetachLinks(prevs: seq<int>, nexts: seq<int>, prevs': seq<int>, nexts': seq<int>,
                    list: seq<int>, i: nat)
    requires 0 < i < |list| && Links(prevs, nexts, list, First(list), Last(list))
    requires nexts' == nexts[list[i - 1] := NextOf(list, i)]
    requires prevs' == if i + 1 < |list| then prevs[list[i + 1] := list[i - 1]] else prevs
    ensures list[i] !in RemoveAt(list, i)
    ensures First(RemoveAt(list, i)) == First(list)
    ensures Links(prevs', nexts', RemoveAt(list, i), First(list),
                  if i == |list| - 1 then list[i - 1] else Last(list))
  {
    var r := RemoveAt(list, i);
    RemoveAtAt(list, i, 0);
    RemoveAtAt(list, i, |r| - 1);
    LinksDistinct(prevs, nexts, list, First(list), Last(list));
    NodesRemoveAt(|prevs|, list, i);
    DetachPrevs(prevs, prevs', list, i);
    DetachNexts(nexts, nexts', list, i);
  }

  /** The `prev` side of the detach: the successor of `list[i]` gets its
      predecessor as `prev`. */
  lemma DetachPrevs(prevs: seq<int>, prevs': seq<int>, list: seq<int>, i: nat)
    requires 0 < i < |list| && InRange(|prevs|, list) && Distinct(list)
    requires forall j {:trigger prevs[list[j]]} :: 0 <= j < |list| ==> prevs[list[j]] == PrevOf(list, j)
    requires prevs' == if i + 1 < |list| then prevs[list[i + 1] := list[i - 1]] else prevs
    ensures forall j {:trigger prevs'[RemoveAt(list, i)[j]]} :: 0 <= j < |list| - 1 ==>
              prevs'[RemoveAt(list, i)[j]] == PrevOf(RemoveAt(list, i), j)
  {
    var r := RemoveAt(list, i);
    forall j | 0 <= j < |r| ensures prevs'[r[j]] == PrevOf(r, j) {
      RemoveAtAt(list, i, j);
      if 0 < j {
        RemoveAtAt(list, i, j - 1);
      }
      if j < i {
        assert prevs[list[j]] == PrevOf(list, j);
      } else {
        assert prevs[list[j + 1]] == PrevOf(list, j + 1);
      }
    }
  }

  /** The `next` side of the detach: the predecessor of `list[i]` gets its
      successor as `next`. */
  lemma DetachNexts(nexts: seq<int>, nexts': seq<int>, list: seq<int>, i: nat)
    requires 0 < i < |list| && InRange(|nexts|, list) && Distinct(list)
    requires forall j {:trigger nexts[list[j]]} :: 0 <= j < |list| ==> nexts[list[j]] == NextOf(list, j)
    requires nexts' == nexts[list[i - 1] := NextOf(list, i)]
    ensures forall j {:trigger nexts'[RemoveAt(list, i)[j]]} :: 0 <= j < |list| - 1 ==>
              nexts'[RemoveAt(list, i)[j]] == NextOf(RemoveAt(list, i), j)
  {
    var r := RemoveAt(list, i);
    forall j | 0 <= j < |r| ensures nexts'[r[j]] == NextOf(r, j) {
      RemoveAtAt(list, i, j);
      if j < |r| - 1 {
        RemoveAtAt(list, i, j + 1);
      }
      if j < i {
        assert nexts[list[j]] == NextOf(list, j);
      } else {
        assert nexts[list[j + 1]] == NextOf(list, j + 1);
      }
    }
  }

  /** The push-front half of moveToHead, and the linking of a new node in
      lRUCachePut: node `n`, not in `list`, gets the old head as its `next`
      and no `prev`, and the old head gets `n` as its `prev`. */
  lemma PushLinks(prevs: seq<int>, nexts: seq<int>, prevs': seq<int>, nexts': seq<int>,
                  list: seq<int>, n: int, tail: int)
    requires Links(prevs, nexts, list, First(list), tail)
    requires 0 <= n < |prevs| && n !in list
    requires nexts' == nexts[n := First(list)]
    requires |prevs'| == |prevs| && prevs'[n] == NIL
    requires list != [] ==> prevs'[list[0]] == n
    requires forall x :: 0 <= x < |prevs| && x != n && x != First(list) ==> prevs'[x] == prevs[x]
    ensures Links(prevs', nexts', [n] + list, n, if list == [] then n else tail)
  {
    var m := [n] + list;
    NodesPush(|prevs|, list, n);
    forall j | 0 <= j < |m| ensures prevs'[m[j]] == PrevOf(m, j) && nexts'[m[j]] == NextOf(m, j) {
      if 0 < j {
        assert m[j] == list[j - 1];
        assert prevs[list[j - 1]] == PrevOf(list, j - 1) && nexts[list[j - 1]] == NextOf(list, j - 1);
      }
    }
  }

  /** moveToHead as a whole: node `list[i]` (0 < i) detached from its
      neighbours and pushed in front of the old head turns the list into
      MoveFront(list, i); the index and the entries follow the list. */
  lemma MoveState(prevs: seq<int>, nexts: seq<int>, prevs1: seq<int>, nexts1: seq<int>,
                  prevs2: seq<int>, nexts2: seq<int>, list: seq<int>, i: nat,
                  head: int, tail: int, head2: int, tail2: int,
                  keys: seq<int>, values: seq<int>, hash: seq<int>, entries: seq<Entry>,
                  list2: seq<int>, entries2: seq<Entry>)
    requires Links(prevs, nexts, list, head, tail)
    requires Indexed(keys, list, hash) && Tabulates(keys, values, list, entries)
    requires 0 < i < |list|
    requires nexts1 == nexts[list[i - 1] := NextOf(list, i)]
    requires prevs1 == if i + 1 < |list| then prevs[list[i + 1] := list[i - 1]] else prevs
    requires nexts2 == nexts1[list[i] := head]
    requires prevs2 == prevs1[list[i] := NIL][head := list[i]]
    requires head2 == list[i] && tail2 == if i == |list| - 1 then list[i - 1] else tail
    requires list2 == MoveFront(list, i) && entries2 == MoveFront(entries, i)
    ensures Links(prevs2, nexts2, list2, head2, tail2)
    ensures Indexed(keys, list2, hash)
    ensures Tabulates(keys, values, list2, entries2)
  {
    DetachLinks(prevs, nexts, prevs1, nexts1, list, i);
    PushLinks(prevs1, nexts1, prevs2, nexts2, RemoveAt(list, i), list[i], tail2);
    IndexedMove(keys, list, i, hash);
    TabulatesMove(keys, values, list, i, entries);
  }

  /** Relinking does not disturb the key index. */
  lemma IndexedMove(keys: seq<int>, list: seq<int>, i: nat, hash: seq<int>)
    requires Indexed(keys, list, hash) && i < |list|
    ensures Indexed(keys, MoveFront(list, i), hash)
  {
    var m := MoveFront(list, i);
    NodesMoveFront(|keys|, list, i);
    forall j | 0 <= j < |m| ensures 0 <= keys[m[j]] < HASH_SIZE && hash[keys[m[j]]] == m[j] {
      MoveFrontAt(list, i, j);
      var src := if j == 0 then i else if j <= i then j - 1 else j;
      assert m[j] == list[src];
    }
    forall s | 0 <= s < HASH_SIZE && hash[s] != NIL ensures hash[s] in m {
      var j :| 0 <= j < |list| && list[j] == hash[s];
      var k := if j == i then 0 else if j < i then j + 1 else j;
      MoveFrontAt(list, i, k);
    }
  }

  /** Relinking keeps the entries: they move with the list. */
  lemma TabulatesMove(keys: seq<int>, values: seq<int>, list: seq<int>, i: nat, entries: seq<Entry>)
    requires Tabulates(keys, values, list, entries) && i < |list|
    ensures Tabulates(keys, values, MoveFront(list, i), MoveFront(entries, i))
  {
    var m := MoveFront(list, i);
    NodesMoveFront(|keys|, list, i);
    forall j | 0 <= j < |m| ensures MoveFront(entries, i)[j] == Entry(keys[m[j]], values[m[j]]) {
      MoveFrontAt(list, i, j);
      MoveFrontAt(entries, i, j);
    }
  }

  // -----------------------------------------------------------------------
  // removeTail

  /** removeTail, on the links: clearing the `next` of the second-to-last
      node leaves a list without its last node. */
  lemma DropLastLinks(prevs: seq<int>, nexts: seq<int>, nexts': seq<int>, list: seq<int>)
    requires list != [] && Links(prevs, nexts, list, First(list), Last(list))
    requires nexts' == if |list| == 1 then nexts else nexts[list[|list| - 2] := NIL]
    ensures Links(prevs, nexts', list[..|list| - 1],
                  if |list| == 1 then NIL else list[0],
                  if |list| == 1 then NIL else list[|list| - 2])
  {
    var d := list[..|list| - 1];
    LinksDistinct(prevs, nexts, list, First(list), Last(list));
    forall j | 0 <= j < |d| ensures prevs[d[j]] == PrevOf(d, j) && nexts'[d[j]] == NextOf(d, j) {
      assert d[j] == list[j];
      assert prevs[list[j]] == PrevOf(list, j) && nexts[list[j]] == NextOf(list, j);
    }
  }

  /** removeTail, on the index: clearing the slot of the last node's key
      unregisters exactly that node. */
  lemma IndexedDropLast(prevs: seq<int>, nexts: seq<int>, keys: seq<int>, list: seq<int>, hash: seq<int>)
    requires list != [] && Links(prevs, nexts, list, First(list), Last(list)) && Indexed(keys, list, hash)
    ensures 0 <= keys[list[|list| - 1]] < HASH_SIZE
    ensures Indexed(keys, list[..|list| - 1], hash[keys[list[|list| - 1]] := NIL])
  {
    LinksDistinct(prevs, nexts, list, First(list), Last(list));
    var last := |list| - 1;
    var k := keys[list[last]];
    var d := list[..last];
    var h := hash[k := NIL];
    forall j | 0 <= j < |d| ensures 0 <= keys[d[j]] < HASH_SIZE && h[keys[d[j]]] == d[j] {
      assert d[j] == list[j];
      assert keys[list[j]] != k;
    }
    forall s | 0 <= s < HASH_SIZE && h[s] != NIL ensures h[s] in d {
      var j :| 0 <= j < |list| && list[j] == hash[s];
      assert j != last;
      assert d[j] == list[j];
    }
  }

  lemma TabulatesDropLast(keys: seq<int>, values: seq<int>, list: seq<int>, entries: seq<Entry>)
    requires list != [] && Tabulates(keys, values, list, entries)
    ensures Tabulates(keys, values, list[..|list| - 1], entries[..|entries| - 1])
  {
    var d := list[..|list| - 1];
    forall j | 0 <= j < |d| ensures entries[..|entries| - 1][j] == Entry(keys[d[j]], values[d[j]]) {
      assert d[j] == list[j] && entries[..|entries| - 1][j] == entries[j];
    }
  }

  // -----------------------------------------------------------------------
  // lRUCachePut

  /** createNode: a node appended to the arena is in no list and changes
      none of the list's links, slots or entries. */
  lemma Grow(keys: seq<int>, values: seq<int>, prevs: seq<int>, nexts: seq<int>, list: seq<int>,
             head: int, tail: int, hash: seq<int>, entries: seq<Entry>, k: int, v: int)
    requires |keys| == |prevs|
    requires Links(prevs, nexts, list, head, tail) && Indexed(keys, list, hash)
    requires Tabulates(keys, values, list, entries)
    ensures |prevs| !in list
    ensures Links(prevs + [NIL], nexts + [NIL], list, head, tail)
    ensures Indexed(keys + [k], list, hash)
    ensures Tabulates(keys + [k], values + [v], list, entries)
  {
    forall j | 0 <= j < |list|
      ensures (prevs + [NIL])[list[j]] == PrevOf(list, j) && (nexts + [NIL])[list[j]] == NextOf(list, j)
      ensures (keys + [k])[list[j]] == keys[list[j]] && (values + [v])[list[j]] == values[list[j]]
    {
      assert prevs[list[j]] == PrevOf(list, j) && nexts[list[j]] == NextOf(list, j);
    }
    forall j | 0 <= j < |list|
      ensures 0 <= (keys + [k])[list[j]] < HASH_SIZE && hash[(keys + [k])[list[j]]] == list[j]
    {
      assert hash[keys[list[j]]] == list[j];
    }
    forall j | 0 <= j < |list| ensures entries[j] == Entry((keys + [k])[list[j]], (values + [v])[list[j]]) {
      assert entries[j] == Entry(keys[list[j]], values[list[j]]);
    }
  }

  /** The index registration in lRUCachePut: the fresh node goes into the
      (empty) slot of its key. */
  lemma IndexedPush(keys: seq<int>, list: seq<int>, hash: seq<int>, n: int)
    requires Indexed(keys, list, hash)
    requires 0 <= n < |keys| && n !in list
    requires 0 <= keys[n] < HASH_SIZE && hash[keys[n]] == NIL
    ensures Indexed(keys, [n] + list, hash[keys[n] := n])
  {
    var m := [n] + list;
    var h := hash[keys[n] := n];
    NodesPush(|keys|, list, n);
    forall j | 0 <= j < |m| ensures 0 <= keys[m[j]] < HASH_SIZE && h[keys[m[j]]] == m[j] {
      if 0 < j {
        assert m[j] == list[j - 1];
        assert hash[keys[list[j - 1]]] == list[j - 1];
      }
    }
    forall s | 0 <= s < HASH_SIZE && h[s] != NIL ensures h[s] in m {
      if s != keys[n] {
        assert hash[s] in list;
      }
    }
  }

  /** The new node's entry comes first. */
  lemma TabulatesPush(keys: seq<int>, values: seq<int>, list: seq<int>, entries: seq<Entry>, n: int)
    requires Tabulates(keys, values, list, entries)
    requires 0 <= n < |keys| && n !in list
    ensures Tabulates(keys, values, [n] + list, [Entry(keys[n], values[n])] + entries)
  {
    var m := [n] + list;
    var es := [Entry(keys[n], values[n])] + entries;
    NodesPush(|keys|, list, n);
    forall j | 0 <= j < |m| ensures es[j] == Entry(keys[m[j]], values[m[j]]) {
      if 0 < j {
        assert m[j] == list[j - 1] && es[j] == entries[j - 1];
      }
    }
  }

  /** The new-node branch of lRUCachePut as a whole: the fresh node `n`
      linked in front of the old head and registered in the slot of its key
      extends the list, the index and the entries by that node. */
  lemma PushState(prevs: seq<int>, nexts: seq<int>, prevs2: seq<int>, nexts2: seq<int>,
                  list: seq<int>, head: int, tail: int, head2: int, tail2: int,
                  keys: seq<int>, values: seq<int>, hash: seq<int>, hash2: seq<int>,
                  entries: seq<Entry>, n: int)
    requires Links(prevs, nexts, list, head, tail)
    requires Indexed(keys, list, hash) && Tabulates(keys, values, list, entries)
    requires |keys| == |prevs| && 0 <= n < |prevs| && n !in list && prevs[n] == NIL
    requires 0 <= keys[n] < HASH_SIZE && hash[keys[n]] == NIL
    requires nexts2 == nexts[n := head]
    requires prevs2 == if head == NIL then prevs else prevs[head := n]
    requires head2 == n && tail2 == (if tail == NIL then n else tail)
    requires hash2 == hash[keys[n] := n]
    ensures Links(prevs2, nexts2, [n] + list, head2, tail2)
    ensures Indexed(keys, [n] + list, hash2)
    ensures Tabulates(keys, values, [n] + list, [Entry(keys[n], values[n])] + entries)
  {
    PushLinks(prevs, nexts, prevs2, nexts2, list, n, tail);
    IndexedPush(keys, list, hash, n);
    TabulatesPush(keys, values, list, entries, n);
  }

  /** The value update in lRUCachePut: writing the value of the node at list
      position `i` changes that entry's value and no other entry. */
  lemma Revalue(prevs: seq<int>, nexts: seq<int>, keys: seq<int>, values: seq<int>, list: seq<int>,
                entries: seq<Entry>, i: nat, v: int)
    requires Links(prevs, nexts, list, First(list), Last(list))
    requires Tabulates(keys, values, list, entries) && i < |list|
    ensures Tabulates(keys, values[list[i] := v], list, entries[i := Entry(keys[list[i]], v)])
  {
    LinksDistinct(prevs, nexts, list, First(list), Last(list));
    var vs := values[list[i] := v];
    forall j | 0 <= j < |list|
      ensures entries[i := Entry(keys[list[i]], v)][j] == Entry(keys[list[j]], vs[list[j]])
    {
      if j != i {
        assert list[j] != list[i];
      }
    }
  }

  class LRUCache {
    const capacity: int
    var size: int
    var head: int
    var tail: int
    /** The key index: slot `s` holds the node with key `s`, or NIL. */
    const hash: array<int>
    /** The node arena, one sequence per field of the node struct. Evicted
        nodes stay here, unreachable. */
    var keys: seq<int>
    var values: seq<int>
    var prevs: seq<int>
    var nexts: seq<int>

    /** The nodes of the recency list, head to tail. */
    ghost var List: seq<int>
    /** The resident entries, most recently used first. */
    ghost var Entries: seq<Entry>

    /** The list and the index are well formed and agree with each other;
        the size may exceed the capacity (by one, inside `Put`). */
    ghost predicate Linked()
      reads this, hash
    {
      && hash.Length == HASH_SIZE
      && size == |List|
      && |keys| == |prevs|
      && Links(prevs, nexts, List, head, tail)
      && Indexed(keys, List, hash[..])
      && Tabulates(keys, values, List, Entries)
    }

    /** The object invariant between public calls. */
    ghost predicate Valid()
      reads this, hash
    {
      Linked() && WithinCapacity(Entries, capacity)
    }

    /** The index is exact: slot `k` is occupied exactly when `k` is
        resident, and then it holds the list node of that entry. */
    lemma IndexExact(k: int)
      requires Linked() && 0 <= k < HASH_SIZE
      ensures DistinctKeys(Entries)
      ensures hash[k] == NIL <==> IndexOf(Entries, k) < 0
      ensures hash[k] != NIL ==> List[IndexOf(Entries, k)] == hash[k]
    {
      assert hash[k] == hash[..][k];
      LinksDistinct(prevs, nexts, List, head, tail);
      forall i, j | 0 <= i < j < |Entries| ensures Entries[i].key != Entries[j].key {
        assert hash[..][keys[List[i]]] == List[i];
        assert hash[..][keys[List[j]]] == List[j];
      }
      var r := IndexOf(Entries, k);
      if 0 <= r {
        assert hash[..][keys[List[r]]] == List[r];
      }
      if hash[k] != NIL {
        var i :| 0 <= i < |List| && List[i] == hash[k];
        IndexOfDistinct(Entries, i);
      }
    }

    /** lRUCacheCreate: an empty list and an index of NIL slots. */
    constructor (capacity: int)
      ensures fresh(hash) && hash.Length == HASH_SIZE && Valid()
      ensures this.capacity == capacity && size == 0
      ensures head == NIL && tail == NIL
      ensures forall s :: 0 <= s < HASH_SIZE ==> hash[s] == NIL
      ensures List == [] && Entries == []
    {
      this.capacity := capacity;
      size := 0;
      head, tail := NIL, NIL;
      hash := new int[HASH_SIZE](_ => NIL);
      keys, values, prevs, nexts := [], [], [], [];
      List, Entries := [], [];
    }

    /** createNode: allocates an unlinked node at the end of the arena. */
    method CreateNode(key: int, value: int) returns (n: int)
      requires Linked()
      modifies this
      ensures Linked()
      ensures n == |old(keys)| && n !in List
      ensures keys == old(keys) + [key] && values == old(values) + [value]
      ensures prevs == old(prevs) + [NIL] && nexts == old(nexts) + [NIL]
      ensures size == old(size) && head == old(head) && tail == old(tail)
      ensures List == old(List) && Entries == old(Entries)
    {
      Grow(keys, values, prevs, nexts, List, head, tail, hash[..], Entries, key, value);
      n := |keys|;
      keys := keys + [key];
      values := values + [value];
      prevs := prevs + [NIL];
      nexts := nexts + [NIL];
    }

    /** A raw setter: stores the relinked `prev`/`next` links, the new list
        ends and size, and the matching ghost view, all at once. It does not
        keep `Linked()` by itself; its callers MoveToHead, RemoveTail and
        InsertFront establish `Linked()` for the values they pass through the
        lemmas MoveState, DropLastLinks with IndexedDropLast, and PushState. */
    method Relink(pv: seq<int>, nx: seq<int>, h: int, t: int, sz: int, ghost list: seq<int>, ghost es: seq<Entry>)
      modifies this
      ensures prevs == pv && nexts == nx && head == h && tail == t && size == sz
      ensures List == list && Entries == es
      ensures keys == old(keys) && values == old(values)
    {
      prevs, nexts, head, tail, size := pv, nx, h, t, sz;
      List, Entries := list, es;
    }

    /** moveToHead: unlinks node `n` (at list position `i`) and relinks it
        in front; nothing happens when it already is the head. */
    method MoveToHead(n: int, ghost i: nat)
      requires Linked() && i < |List| && List[i] == n
      modifies this
      ensures Linked()
      ensures List == MoveFront(old(List), i) && Entries == MoveFront(old(Entries), i)
      ensures head == n && size == old(size) && keys == old(keys) && values == old(values)
    {
      if head == n {
        assert prevs[List[i]] == PrevOf(List, i);
        MoveFrontPermutes(List, i);
        MoveFrontPermutes(Entries, i);
        return;
      }
      var p := prevs[n];
      var q := nexts[n];
      assert 0 < i && p == List[i - 1] && q == NextOf(List, i);
      var nx, pv, t := nexts, prevs, tail;
      // detach
      if p != NIL {
        nx := nx[p := q];
      }
      if q != NIL {
        pv := pv[q := p];
      }
      if t == n {
        t := p;
      }
      ghost var prevs1, nexts1 := pv, nx;
      // move to front
      nx := nx[n := head];
      pv := pv[n := NIL];
      if head != NIL {
        pv := pv[head := n];
      }
      var h := n;
      if t == NIL {
        t := n;
      }
      ghost var list2, entries2 := MoveFront(List, i), MoveFront(Entries, i);
      MoveState(prevs, nexts, prevs1, nexts1, pv, nx, List, i,
                head, tail, h, t, keys, values, hash[..], Entries, list2, entries2);
      Relink(pv, nx, h, t, size, list2, entries2);
    }

    /** removeTail: unlinks the least recently used node, clears its index
        slot and decrements `size`; nothing happens on an empty list. */
    method RemoveTail()
      requires Linked()
      modifies this, hash
      ensures Linked()
      ensures old(List) == [] ==> List == [] && size == old(size) && head == NIL && tail == NIL
      ensures old(List) == [] ==> nexts == old(nexts) && Entries == old(Entries)
      ensures old(List) == [] ==> hash[..] == old(hash[..])
      ensures old(List) != [] ==>
                && List == old(List)[..|old(List)| - 1]
                && Entries == old(Entries)[..|old(Entries)| - 1]
                && size == old(size) - 1
                && tail == old(prevs[tail])
                && head == (if old(prevs[tail]) == NIL then NIL else old(head))
                && hash[..] == old(hash[..])[old(keys[tail]) := NIL]
                && nexts == if old(prevs[tail]) == NIL then old(nexts) else old(nexts)[old(prevs[tail]) := NIL]
      ensures keys == old(keys) && values == old(values) && prevs == old(prevs)
    {
      if tail == NIL {
        return;
      }
      var node := tail;
      IndexedDropLast(prevs, nexts, keys, List, hash[..]);
      TabulatesDropLast(keys, values, List, Entries);
      var hashIndex := HashFunc(keys[node]);
      hash[hashIndex] := NIL;
      assert hash[..] == old(hash[..])[hashIndex := NIL];
      var nx, h := nexts, head;
      if prevs[node] != NIL {
        nx := nx[prevs[node] := NIL];
      } else {
        h := NIL;
      }
      DropLastLinks(prevs, nexts, nx, List);
      // free(node): the node stays in the arena, unreachable
      Relink(prevs, nx, h, prevs[node], size - 1, List[..|List| - 1], Entries[..|Entries| - 1]);
    }

    /** lRUCacheGet: a hit moves the node to the head and returns its value;
        a miss returns MISS (-1) and changes nothing. */
    method Get(key: int) returns (r: int)
      requires Valid() && 0 <= key < HASH_SIZE
      modifies this
      ensures Valid()
      ensures r == GetResult(old(Entries), key)
      ensures Entries == Touch(old(Entries), key)
      ensures old(hash[key]) != NIL ==> head == hash[key] && prevs[head] == NIL
      ensures old(hash[key]) == NIL ==>
                prevs == old(prevs) && nexts == old(nexts) && head == old(head) && tail == old(tail)
      ensures size == old(size) && keys == old(keys) && values == old(values)
    {
      IndexExact(key);
      var hashIndex := HashFunc(key);
      var node := hash[hashIndex];
      if node != NIL && keys[node] == key {
        ghost var i := IndexOf(Entries, key);
        MoveToHead(node, i);
        r := values[node];
        MoveFrontPermutes(old(Entries), i);
      } else {
        r := MISS;
      }
    }

    /** The new-key branch of lRUCachePut up to the eviction check: a fresh
        node for `key` is linked in front of the head, registered in the
        key's slot, and counted. */
    method InsertFront(key: int, value: int)
      requires Linked() && 0 <= key < HASH_SIZE && hash[key] == NIL
      modifies this, hash
      ensures Linked()
      ensures List == [|old(keys)|] + old(List)
      ensures Entries == [Entry(key, value)] + old(Entries)
      ensures size == old(size) + 1
    {
      var hashIndex := HashFunc(key);
      var newNode := CreateNode(key, value);
      var nx, pv, h, t := nexts[newNode := head], prevs, newNode, tail;
      if head != NIL {
        pv := pv[head := newNode];
      }
      if t == NIL {
        t := newNode;
      }
      ghost var hash2 := hash[..][hashIndex := newNode];
      PushState(prevs, nexts, pv, nx, List, head, tail, h, t,
                keys, values, hash[..], hash2, Entries, newNode);
      hash[hashIndex] := newNode;
      assert hash[..] == hash2;
      Relink(pv, nx, h, t, size + 1, [newNode] + List, [Entry(key, value)] + Entries);
    }

    /** The value write of lRUCachePut on a resident node: only that node's
        value and its entry change. */
    method SetValue(node: int, value: int, ghost i: nat)
      requires Linked() && i < |List| && List[i] == node
      modifies this
      ensures Linked()
      ensures values == old(values)[node := value]
      ensures Entries == old(Entries)[i := Entry(keys[node], value)]
      ensures List == old(List) && size == old(size) && keys == old(keys)
      ensures prevs == old(prevs) && nexts == old(nexts) && head == old(head) && tail == old(tail)
    {
      Revalue(prevs, nexts, keys, values, List, Entries, i, value);
      values := values[node := value];
      Entries := Entries[i := Entry(keys[node], value)];
    }

    /** lRUCachePut: overwrites a resident key in place and moves it to the
        head; otherwise links a new node in front, registers it in the index
        and evicts the tail when `size` exceeds `capacity`. */
    method Put(key: int, value: int)
      requires Valid() && 0 <= key < HASH_SIZE
      modifies this, hash
      ensures Valid()
      ensures Entries == LruSpec.Put(old(Entries), key, value, capacity)
    {
      IndexExact(key);
      PutWithinCapacity(Entries, key, value, capacity);
      ghost var es := Entries;
      var hashIndex := HashFunc(key);
      var node := hash[hashIndex];
      if node != NIL && keys[node] == key {
        ghost var i := IndexOf(Entries, key);
        assert LruSpec.Put(es, key, value, capacity) == MoveFront(es[i := Entry(key, value)], i);
        SetValue(node, value, i);
        MoveToHead(node, i);
      } else {
        assert LruSpec.Put(es, key, value, capacity) == Evict([Entry(key, value)] + es, capacity);
        InsertFront(key, value);
        if size > capacity {
          RemoveTail();
        }
      }
    }
  }
}
