/** Abstract view of the LRU cache: the resident entries as a sequence in
    recency order (index 0 is the most recently used entry, the last index the
    least recently used one), and what `get` and `put` do to that sequence.
    The pointer-based cache in module Lru is proved against these functions. */
module LruSpec {

  datatype Entry = Entry(key: int, value: int)

  /** The value `get` returns on a miss. */
  const MISS: int := -1

  /** No key is resident twice. */
  predicate DistinctKeys(es: seq<Entry>) {
    forall i, j :: 0 <= i < j < |es| ==> es[i].key != es[j].key
  }

  /** Position of the entry with key `k`, or -1 when `k` is not resident. */
  function IndexOf(es: seq<Entry>, k: int): (r: int)
    ensures -1 <= r < |es|
    ensures 0 <= r ==> es[r].key == k && forall j :: 0 <= j < r ==> es[j].key != k
    ensures r < 0 ==> forall j :: 0 <= j < |es| ==> es[j].key != k
  {
    if es == [] then -1
    else if es[0].key == k then 0
    else
      var r := IndexOf(es[1..], k);
      if r < 0 then -1 else r + 1
  }

  /** The entries of `es` other than those with key `k`, in their order. */
  function Without(es: seq<Entry>, k: int): (r: seq<Entry>)
    ensures |r| <= |es|
    ensures forall e :: e in r ==> e in es && e.key != k
  {
    if es == [] then []
    else (if es[0].key == k then [] else [es[0]]) + Without(es[1..], k)
  }

  /** The sequence without its element `i`. */
  function RemoveAt<T>(s: seq<T>, i: nat): seq<T>
    requires i < |s|
  {
    s[..i] + s[i + 1..]
  }

  /** Element `i` detached and put in front, everything else kept in order. */
  function MoveFront<T>(s: seq<T>, i: nat): seq<T>
    requires i < |s|
  {
    [s[i]] + RemoveAt(s, i)
  }

  /** Drops the last entry when the sequence has outgrown the capacity. */
  function Evict(s: seq<Entry>, capacity: int): seq<Entry> {
    if |s| > capacity && s != [] then s[..|s| - 1] else s
  }

  /** What `get(k)` returns. */
  function GetResult(es: seq<Entry>, k: int): int {
    var i := IndexOf(es, k);
    if i < 0 then MISS else es[i].value
  }

  /** The recency order after `get(k)`. */
  function Touch(es: seq<Entry>, k: int): seq<Entry> {
    var i := IndexOf(es, k);
    if i < 0 then es else MoveFront(es, i)
  }

  /** The recency order after `put(k, v)`. */
  function Put(es: seq<Entry>, k: int, v: int, capacity: int): seq<Entry> {
    var i := IndexOf(es, k);
    if 0 <= i then MoveFront(es[i := Entry(k, v)], i)
    else Evict([Entry(k, v)] + es, capacity)
  }

  /** The number of resident entries stays within the capacity (or is zero
      when the capacity is not positive). */
  predicate WithinCapacity(es: seq<Entry>, capacity: int) {
    |es| <= capacity || es == []
  }

  // ---------------------------------------------------------------------
  // Facts about the helpers

  lemma IndexOfDistinct(es: seq<Entry>, i: nat)
    requires DistinctKeys(es) && i < |es|
    ensures IndexOf(es, es[i].key) == i
  {
  }

  lemma {:induction false} WithoutAbsent(es: seq<Entry>, k: int)
    requires forall j :: 0 <= j < |es| ==> es[j].key != k
    ensures Without(es, k) == es
  {
    if es != [] {
      WithoutAbsent(es[1..], k);
    }
  }

  lemma {:induction false} WithoutAppend(a: seq<Entry>, b: seq<Entry>, k: int)
    ensures Without(a + b, k) == Without(a, k) + Without(b, k)
  {
    if a == [] {
      assert a + b == b;
    } else {
      assert (a + b)[1..] == a[1..] + b;
      WithoutAppend(a[1..], b, k);
    }
  }

  /** Moving an element to the front neither adds nor loses anything, and
      moving the element that is already in front changes nothing. */
  lemma MoveFrontPermutes<T>(s: seq<T>, i: nat)
    requires i < |s|
    ensures |MoveFront(s, i)| == |s|
    ensures multiset(MoveFront(s, i)) == multiset(s)
    ensures i == 0 ==> MoveFront(s, i) == s
  {
    assert s == s[..i] + [s[i]] + s[i + 1..];
  }

  /** Where each element of RemoveAt(s, i) came from. */
  lemma RemoveAtAt<T>(s: seq<T>, i: nat, j: nat)
    requires i < |s| && j < |s| - 1
    ensures |RemoveAt(s, i)| == |s| - 1
    ensures RemoveAt(s, i)[j] == if j < i then s[j] else s[j + 1]
  {
  }

  /** Where each element of MoveFront(s, i) came from. */
  lemma MoveFrontAt<T>(s: seq<T>, i: nat, j: nat)
    requires i < |s| && j < |s|
    ensures |MoveFront(s, i)| == |s|
    ensures MoveFront(s, i)[j] == if j == 0 then s[i] else if j <= i then s[j - 1] else s[j]
  {
  }

  /** The entries behind the moved one keep their relative order: they are
      exactly the old entries with the moved key filtered out. */
  lemma {:induction false} MoveFrontKeepsOrder(es: seq<Entry>, i: nat)
    requires DistinctKeys(es) && i < |es|
    ensures MoveFront(es, i) == [es[i]] + Without(es, es[i].key)
  {
    WithoutAt(es, i);
  }

  /** A sequence is its part before `i`, its element `i` and the rest. */
  lemma SplitAt<T>(s: seq<T>, i: nat)
    requires i < |s|
    ensures s == s[..i] + ([s[i]] + s[i + 1..])
  {
  }

  /** Filtering out a key held by one element only removes that element. */
  lemma WithoutSingle(front: seq<Entry>, e: Entry, back: seq<Entry>)
    requires forall j :: 0 <= j < |front| ==> front[j].key != e.key
    requires forall j :: 0 <= j < |back| ==> back[j].key != e.key
    ensures Without(front + ([e] + back), e.key) == front + back
  {
    var k := e.key;
    var tail := [e] + back;
    assert tail[0] == e && tail[1..] == back;
    assert Without(tail, k) == back by {
      WithoutAbsent(back, k);
    }
    WithoutAppend(front, tail, k);
    WithoutAbsent(front, k);
  }

  /** With distinct keys, filtering out the key of element `i` removes
      exactly that element. */
  lemma WithoutAt(es: seq<Entry>, i: nat)
    requires DistinctKeys(es) && i < |es|
    ensures Without(es, es[i].key) == RemoveAt(es, i)
  {
    var front, back := es[..i], es[i + 1..];
    forall j | 0 <= j < |front| ensures front[j].key != es[i].key {
      assert front[j] == es[j];
    }
    forall j | 0 <= j < |back| ensures back[j].key != es[i].key {
      assert back[j] == es[i + 1 + j];
    }
    SplitAt(es, i);
    WithoutSingle(front, es[i], back);
  }

  lemma {:induction false} MoveFrontKeepsDistinct(es: seq<Entry>, i: nat)
    requires DistinctKeys(es) && i < |es|
    ensures DistinctKeys(MoveFront(es, i))
  {
    var m := MoveFront(es, i);
    forall a, b | 0 <= a < b < |m| ensures m[a].key != m[b].key {
      var ia := if a == 0 then i else if a <= i then a - 1 else a;
      var ib := if b <= i then b - 1 else b;
      assert m[a] == es[ia] && m[b] == es[ib] && ia != ib;
    }
  }

  // ---------------------------------------------------------------------
  // get

  /** A hit returns the stored value and makes the key the most recently
      used entry, without adding or losing entries; a miss returns MISS and
      leaves the order alone. */
  lemma GetHitOrMiss(es: seq<Entry>, k: int)
    requires DistinctKeys(es)
    ensures (exists j :: 0 <= j < |es| && es[j].key == k) ==>
              && Touch(es, k)[0].key == k
              && GetResult(es, k) == Touch(es, k)[0].value
              && Touch(es, k)[0] in es
              && multiset(Touch(es, k)) == multiset(es)
              && Touch(es, k)[1..] == Without(es, k)
    ensures (forall j :: 0 <= j < |es| ==> es[j].key != k) ==>
              GetResult(es, k) == MISS && Touch(es, k) == es
  {
    var i := IndexOf(es, k);
    if 0 <= i {
      TouchAt(es, i);
      var t := MoveFront(es, i);
      MoveFrontPermutes(es, i);
      MoveFrontKeepsOrder(es, i);
      assert t[0] == es[i];
      assert t[0] in es;
      assert t[1..] == Without(es, k);
    } else {
      assert Touch(es, k) == es;
      assert GetResult(es, k) == MISS;
    }
  }

  /** `get` of the key at position `i` moves that entry to the front and
      returns its value. */
  lemma TouchAt(es: seq<Entry>, i: nat)
    requires DistinctKeys(es) && i < |es|
    ensures Touch(es, es[i].key) == MoveFront(es, i)
    ensures GetResult(es, es[i].key) == es[i].value
  {
    IndexOfDistinct(es, i);
  }

  /** A second `get` of the same key changes the order no further. */
  lemma TouchIdempotent(es: seq<Entry>, k: int)
    requires DistinctKeys(es)
    ensures Touch(Touch(es, k), k) == Touch(es, k)
    ensures GetResult(Touch(es, k), k) == GetResult(es, k)
  {
    var i := IndexOf(es, k);
    if 0 <= i {
      var t := MoveFront(es, i);
      assert t[0].key == k;
      assert IndexOf(t, k) == 0;
      MoveFrontPermutes(t, 0);
    }
  }

  lemma TouchKeepsDistinct(es: seq<Entry>, k: int)
    requires DistinctKeys(es)
    ensures DistinctKeys(Touch(es, k))
  {
    var i := IndexOf(es, k);
    if 0 <= i {
      MoveFrontKeepsDistinct(es, i);
    }
  }

  // ---------------------------------------------------------------------
  // put

  /** `put` never introduces a duplicate key. */
  lemma PutKeepsDistinct(es: seq<Entry>, k: int, v: int, capacity: int)
    requires DistinctKeys(es)
    ensures DistinctKeys(Put(es, k, v, capacity))
  {
    var i := IndexOf(es, k);
    if 0 <= i {
      var u := es[i := Entry(k, v)];
      assert forall j :: 0 <= j < |u| ==> u[j].key == es[j].key;
      MoveFrontKeepsDistinct(u, i);
    } else {
      var s := [Entry(k, v)] + es;
      assert DistinctKeys(s) by {
        forall a, b | 0 <= a < b < |s| ensures s[a].key != s[b].key {
          assert s[b] == es[b - 1];
          if 0 < a {
            assert s[a] == es[a - 1];
          }
        }
      }
    }
  }

  /** The capacity bound survives every `put`. */
  lemma PutWithinCapacity(es: seq<Entry>, k: int, v: int, capacity: int)
    requires WithinCapacity(es, capacity)
    ensures WithinCapacity(Put(es, k, v, capacity), capacity)
  {
    var i := IndexOf(es, k);
    if 0 <= i {
      MoveFrontPermutes(es[i := Entry(k, v)], i);
    }
  }

  /** After `put(k, v)` the key is the most recently used entry and `get(k)`
      returns `v` (for any positive capacity). */
  lemma PutThenGet(es: seq<Entry>, k: int, v: int, capacity: int)
    requires DistinctKeys(es) && 1 <= capacity
    ensures Put(es, k, v, capacity) != []
    ensures Put(es, k, v, capacity)[0] == Entry(k, v)
    ensures GetResult(Put(es, k, v, capacity), k) == v
  {
    var p := Put(es, k, v, capacity);
    assert p[0] == Entry(k, v);
    assert IndexOf(p, k) == 0;
  }

  /** Overwriting a resident key changes its value and its position only:
      the size is unchanged, nothing is evicted and the other entries keep
      their relative order. */
  lemma PutResident(es: seq<Entry>, k: int, v: int, capacity: int)
    requires DistinctKeys(es) && 0 <= IndexOf(es, k)
    ensures |Put(es, k, v, capacity)| == |es|
    ensures Put(es, k, v, capacity) == [Entry(k, v)] + Without(es, k)
  {
    var i := IndexOf(es, k);
    var u := es[i := Entry(k, v)];
    assert forall j :: 0 <= j < |u| ==> u[j].key == es[j].key;
    MoveFrontPermutes(u, i);
    MoveFrontKeepsOrder(u, i);
    WithoutAt(u, i);
    WithoutAt(es, i);
    assert u[..i] == es[..i] && u[i + 1..] == es[i + 1..];
  }

  /** Inserting a new key while there is room adds it in front and evicts
      nothing. */
  lemma PutAbsentWithRoom(es: seq<Entry>, k: int, v: int, capacity: int)
    requires IndexOf(es, k) < 0 && |es| < capacity
    ensures Put(es, k, v, capacity) == [Entry(k, v)] + es
  {
  }

  /** Inserting a new key into a full cache evicts exactly the least
      recently used entry: that key misses afterwards, and every other
      entry stays resident with its value. */
  lemma PutEvictsLeastRecent(es: seq<Entry>, k: int, v: int, capacity: int)
    requires DistinctKeys(es) && IndexOf(es, k) < 0
    requires 1 <= capacity && |es| == capacity
    ensures Put(es, k, v, capacity) == [Entry(k, v)] + es[..|es| - 1]
    ensures GetResult(Put(es, k, v, capacity), es[|es| - 1].key) == MISS
    ensures forall j :: 0 <= j < |es| - 1 ==>
              GetResult(Put(es, k, v, capacity), es[j].key) == es[j].value
  {
    var p := Put(es, k, v, capacity);
    var last := es[|es| - 1].key;
    assert p == [Entry(k, v)] + es[..|es| - 1];
    forall j | 0 <= j < |p| ensures p[j].key != last {
      if 0 < j {
        assert p[j] == es[j - 1];
      }
    }
    forall j | 0 <= j < |es| - 1
      ensures GetResult(p, es[j].key) == es[j].value
    {
      assert p[j + 1] == es[j];
      assert DistinctKeys(p) by { PutKeepsDistinct(es, k, v, capacity); }
      IndexOfDistinct(p, j + 1);
    }
  }
}
