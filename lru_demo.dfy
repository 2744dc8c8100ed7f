/** The driver scenario of the C program: a cache of capacity 2 filled with
    three and then four keys, read back after each eviction. */
module LruDemo {
  import opened LruSpec
  import Lru

  /** The driver's calls on the abstract entry sequence: `put(3, 30)`
      evicts key 2, the least recently used one after `get(1)`, and
      `put(4, 40)` then evicts key 1. */
  lemma DriverTrace()
    ensures Put([], 1, 10, 2) == [Entry(1, 10)]
    ensures Put([Entry(1, 10)], 2, 20, 2) == [Entry(2, 20), Entry(1, 10)]
    ensures GetResult([Entry(2, 20), Entry(1, 10)], 1) == 10
    ensures Touch([Entry(2, 20), Entry(1, 10)], 1) == [Entry(1, 10), Entry(2, 20)]
    ensures Put([Entry(1, 10), Entry(2, 20)], 3, 30, 2) == [Entry(3, 30), Entry(1, 10)]
    ensures GetResult([Entry(3, 30), Entry(1, 10)], 2) == MISS
    ensures Touch([Entry(3, 30), Entry(1, 10)], 2) == [Entry(3, 30), Entry(1, 10)]
    ensures Put([Entry(3, 30), Entry(1, 10)], 4, 40, 2) == [Entry(4, 40), Entry(3, 30)]
    ensures GetResult([Entry(4, 40), Entry(3, 30)], 1) == MISS
    ensures Touch([Entry(4, 40), Entry(3, 30)], 1) == [Entry(4, 40), Entry(3, 30)]
    ensures GetResult([Entry(4, 40), Entry(3, 30)], 3) == 30
    ensures Touch([Entry(4, 40), Entry(3, 30)], 3) == [Entry(3, 30), Entry(4, 40)]
    ensures GetResult([Entry(3, 30), Entry(4, 40)], 4) == 40
  {
    var a := [Entry(1, 10)];
    var b := [Entry(2, 20), Entry(1, 10)];
    var c := [Entry(1, 10), Entry(2, 20)];
    var d := [Entry(3, 30), Entry(1, 10)];
    var e := [Entry(4, 40), Entry(3, 30)];
    var f := [Entry(3, 30), Entry(4, 40)];
    assert IndexOf(a, 2) < 0;
    assert IndexOf(b, 1) == 1 && MoveFront(b, 1) == c;
    assert IndexOf(c, 3) < 0 && [Entry(3, 30)] + c == [Entry(3, 30), Entry(1, 10), Entry(2, 20)];
    assert IndexOf(d, 2) < 0 && IndexOf(d, 4) < 0;
    assert [Entry(4, 40)] + d == [Entry(4, 40), Entry(3, 30), Entry(1, 10)];
    assert IndexOf(e, 1) < 0;
    assert IndexOf(e, 3) == 1 && MoveFront(e, 1) == f;
    assert IndexOf(f, 4) == 1;
  }

  /** lRUCacheCreate(2) followed by the driver's puts and gets; returns, in
      order, the five values the driver reads back. */
  method Driver() returns (get1: int, get2: int, get1again: int, get3: int, get4: int)
    ensures get1 == 10 && get2 == MISS && get1again == MISS && get3 == 30 && get4 == 40
  {
    DriverTrace();
    var cache := new Lru.LRUCache(2);
    cache.Put(1, 10);
    cache.Put(2, 20);
    get1 := cache.Get(1);
    cache.Put(3, 30);
    get2 := cache.Get(2);
    cache.Put(4, 40);
    get1again := cache.Get(1);
    get3 := cache.Get(3);
    get4 := cache.Get(4);
  }
}
