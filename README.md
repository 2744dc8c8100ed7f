# LRU cache in C, modelled in Dafny

`LRU.c` is a fixed-capacity key/value cache with least-recently-used
eviction. It keeps two structures in step:

- a doubly linked recency list. `head` is the most recently used node and
  `tail` the least recently used one;
- a key index `hash` of `HASH_SIZE` = 1000 slots. Slot `key % 1000` points
  at the node of that key, or is NULL.

`get` looks the key up in the index and moves a hit to the head. A miss
returns -1. `put` overwrites a resident key and moves it to the head.
Otherwise `put` links a new node in front and registers it in the index.
When `size` then exceeds `capacity`, `put` evicts the tail.

The project has three modules.

- `LruSpec` (`lru_spec.dfy`) is the abstract view. The resident entries
  are a sequence of `Entry(key, value)` in recency order, with the most
  recently used entry first. The module states what `get` (`GetResult`,
  `Touch`) and `put` (`Put`) do to that sequence. It proves the cache's
  promises about it: a hit returns the value and moves only that entry,
  `put` then `get` returns the new value, an insertion into a full cache
  evicts exactly the least recently used entry, no key is ever resident
  twice, and the size stays within the capacity.
- `Lru` (`lru_cache.dfy`) is the C cache as a class `LRUCache`.
  - Nodes live in an arena. A node pointer is an arena position, and
    `NIL` (-1) is NULL.
  - Each field of `struct Node` is one sequence indexed by node:
    `keys[x]` is `x->key`, `prevs[x]` is `x->prev`, and so on.
  - `hash` is an `array<int>` of 1000 slots.
  - The ghost fields `List` (the nodes from head to tail) and `Entries`
    (the same list read as key/value pairs) tie the pointer structure to
    `LruSpec`.
  - `Linked()` says that the links spell out `List`, that the index is
    exact for `List`, and that `Entries` is `List` read off the arena.
    `Valid()` adds the capacity bound.
  - Every method except the setter `Relink` is proved to keep `Linked()`;
    `Get` and `Put` also keep `Valid()`.
  - `MoveToHead`, `Get` and `Put` change `Entries` as `MoveFront`, `Touch`
    and `LruSpec.Put` say. `RemoveTail` drops the last entry, `InsertFront`
    prepends one, `SetValue` changes the value of one entry, and
    `CreateNode` leaves the entries alone.
  - `MoveToHead`, `RemoveTail` and `InsertFront` first build their new link
    sequences in locals. They then store them, with the new ends and size,
    in one call to `Relink`. The result is the same as the C code's
    field-by-field pointer writes.
- `LruDemo` (`lru_demo.dfy`) is the driver scenario of `main`, with the
  values it reads back proved.

## Model

| member | source | states |
|---|---|---|
| Lru.HashFunc | LRU.c:21-23 | C's truncating `key % 1000`: the slot lies strictly between -1000 and 1000, differs from the key by a multiple of 1000, is never of the opposite sign to the key, and equals the key for keys in [0, 1000) |
| Lru.LRUCache.CreateNode | LRU.c:26-32 | a fresh node with the given key and value and NULL `prev`/`next`, not in the list; list, index and entries unchanged |
| Lru.LRUCache.constructor | LRU.c:35-42 | the cache holds the given capacity, size 0, NULL head and tail, 1000 NULL slots, no entries, and satisfies the invariant |
| Lru.LRUCache.MoveToHead | LRU.c:45-61 | the node at list position i ends up at the head; the list and the entries become that element moved to the front with the rest in order; the invariant, size, keys and values are preserved |
| Lru.LRUCache.RemoveTail | LRU.c:64-79 | empty list: no link, slot, entry or count changes; otherwise the last node and its entry are dropped, its key's slot is cleared and no other slot changes, the old tail's `prev` gets a NULL `next` (or, when there is none, the head becomes NULL) and no other link changes, the tail becomes that `prev`, size drops by one, and the invariant is kept |
| Lru.LRUCache.Get | LRU.c:82-91 | returns the key's value when it is resident and -1 otherwise; a hit moves the entry to the front (`Touch`) and makes its node the head with NULL `prev`; a miss leaves the links unchanged; the invariant is kept |
| Lru.LRUCache.Put | LRU.c:94-114 | the entries become `LruSpec.Put`: an overwrite moved to the front, or a new front entry with the least recently used one evicted when the size exceeds the capacity; the invariant, including the capacity bound, is kept |
| Lru.LRUCache.InsertFront | LRU.c:102-109 | the new-key branch before the eviction check: a fresh node for the key becomes the head, is registered in the key's slot, its entry is put in front, and size grows by one |
| Lru.LRUCache.SetValue | LRU.c:98-99 | the value write on a resident node: that node's value and its entry take the new value, and no link, key, other value or other entry changes; the invariant is kept |
| Lru.LRUCache.IndexExact | LRU.c:83-86 | the lookup of get and put is exact: a slot is NULL exactly when its key is not resident, and otherwise holds that entry's node; no key is resident twice |
| Lru.LinksDistinct | LRU.c:45-61 | a list that the `prev`/`next` links and head/tail spell out holds no node twice |
| Lru.DetachLinks | LRU.c:48-51 | after the neighbours of a non-head node point at each other, the links spell out the list without that node, and the tail moves back when it was the tail |
| Lru.PushLinks | LRU.c:53-60 | a node outside the list with the old head as `next` and no `prev`, and the old head pointing back at it, makes the links spell out the list with that node in front; the tail is set when the list was empty |
| Lru.MoveState | LRU.c:45-61 | detach followed by push-front turns the list into the node moved to the front, and keeps the index and the entries in step with it |
| Lru.IndexedMove | LRU.c:45-61 | reordering the list does not disturb the key index |
| Lru.TabulatesMove | LRU.c:45-61 | the entries move with their nodes |
| Lru.DropLastLinks | LRU.c:71-76 | clearing the `next` of the second-to-last node (or the head, for a single node) leaves links that spell out the list without its last node |
| Lru.IndexedDropLast | LRU.c:67-69 | clearing the slot of the tail's key unregisters exactly the tail node |
| Lru.TabulatesDropLast | LRU.c:64-79 | dropping the tail node drops the last entry |
| Lru.Grow | LRU.c:26-32 | a node appended to the arena is not in the list and changes none of its links, slots or entries |
| Lru.IndexedPush | LRU.c:108 | registering a fresh node in the empty slot of its key keeps the index exact for the list with that node in front |
| Lru.TabulatesPush | LRU.c:102-105 | the fresh node's entry comes first |
| Lru.PushState | LRU.c:102-109 | linking and registering the fresh node extends the list, the index and the entries by that node in front |
| Lru.Revalue | LRU.c:98-99 | writing a resident node's value changes that entry's value and no other entry |
| LruSpec.IndexOf | LRU.c:83-86 | the lookup result is the position of the first entry with the key, or -1 when no entry has it |
| LruSpec.MoveFrontPermutes | LRU.c:45-61 | moving an entry to the front neither adds nor loses entries, and moving the head entry changes nothing |
| LruSpec.MoveFrontKeepsOrder | LRU.c:48-57 | behind the moved entry come all other entries in their old order |
| LruSpec.MoveFrontKeepsDistinct | LRU.c:45-61 | moving an entry to the front creates no duplicate key |
| LruSpec.TouchAt | LRU.c:86-88 | get of a resident key (keys distinct) moves exactly that entry to the front and returns its value |
| LruSpec.GetHitOrMiss | LRU.c:82-91 | a hit returns the stored value, puts that entry in front and keeps all entries, with the others in order; a miss returns -1 and leaves the order alone |
| LruSpec.TouchIdempotent | LRU.c:82-91 | a second get of the same key changes the order no further and returns the same value |
| LruSpec.TouchKeepsDistinct | LRU.c:86-88 | get never creates a duplicate key |
| LruSpec.PutKeepsDistinct | LRU.c:94-114 | put never creates a duplicate key |
| LruSpec.PutWithinCapacity | LRU.c:109-112 | after put the number of entries is at most the capacity (or zero when the capacity is not positive) |
| LruSpec.PutThenGet | LRU.c:94-114 | after put(k, v) with a positive capacity, k is the most recently used entry and get(k) returns v |
| LruSpec.PutResident | LRU.c:98-100 | overwriting a resident key keeps the size and evicts nothing; the new entry is in front with the others in order |
| LruSpec.PutAbsentWithRoom | LRU.c:102-109 | a new key with room to spare is added in front and nothing is evicted |
| LruSpec.PutEvictsLeastRecent | LRU.c:111-112 | a new key in a full cache evicts exactly the least recently used entry; that key then misses, and every other entry stays with its value |
| LruDemo.DriverTrace | LRU.c:130-142 | the driver's calls on the entry sequence with capacity 2: put(3, 30) evicts key 2 and put(4, 40) evicts key 1 |
| LruDemo.Driver | LRU.c:130-142 | the driver's five reads return 10, -1, -1, 30 and 40 |

## Left out

- `main`'s `printf` output (LRU.c:134-142). The driver's reads are returned as out-parameters of `LruDemo.Driver` instead.
- `lRUCacheFree` (LRU.c:117-126), because it only releases memory.
- `malloc`, `calloc` and `free`. The arena only grows: an evicted node stays in it, unreachable. Allocation failure (a NULL from `malloc` or `calloc`) is not modelled.
- Pointer identity and aliasing beyond the arena: a node is its arena position.
- Lru.LRUCache.Get: requires 0 <= key < 1000, so slot `key % 1000` belongs to `key` alone. The C code accepts any `int`:
  - a negative key gives a negative slot (`HashFunc` models this), and indexing `hash` with it is out of bounds;
  - two keys 1000 apart share one slot. `lRUCachePut` then overwrites the slot while the older node stays in the list, and `removeTail` can later clear a slot that belongs to another node. The index then no longer agrees with the list.
- Lru.LRUCache.Put: requires 0 <= key < 1000, for the same reason as `Get`.
- Lru.LRUCache.MoveToHead: does not state the `prev`/`next` fields of nodes outside the list. These are evicted nodes that nothing reaches.
- Lru.LRUCache.InsertFront: does not state the `prev`/`next` fields of nodes outside the list, nor the slots other than the key's. The invariant still fixes every slot: each one is NULL or holds the listed node of its key.
- Lru.LRUCache.Put: states the new entries and the invariant. It does not restate the individual link fields, which the invariant and `Entries` fix for every listed node.
- 32-bit `int` overflow of keys, values and `size`. Integers are unbounded here. `size` stays within `capacity + 1` in any case.
- The C code gives `get` a -1 result on a miss. A stored value of -1 is therefore indistinguishable from a miss, and the model keeps that (`MISS` = -1) rather than a found flag.
- `lRUCacheCreate` does not reject a capacity below 1, and neither does the constructor. With such a capacity every `put` of a new key evicts it at once, so the cache stays empty (`WithinCapacity`).
