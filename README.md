# Indexed priority queue with lazy deletion

A Dafny model of `PriorityQueue` from `pqueue.py`. It keeps a binary min-heap of entries
`(m * priority, c * count, key)` and an entry finder `__ef` from each live key to its entry.
The queue is a min-queue (`m == 1`) or a max-queue (`m == -1`), and its ties are FIFO (`c == 1`)
or LIFO (`c == -1`). Removing a key, or assigning it again, turns its heap entry into a tombstone.
`pop` and `peek` then throw tombstoned roots away as they meet them.

How the model is laid out:

- `heapq.dfy`, module `Heapq`: the heap entry `Entry(prio, tie, slot)` and the lexicographic order
  on `(prio, tie)`. It also holds the two heap operations the queue uses: push with sift-up, and
  pop-the-root with sift-down. Both work on the heap list as a sequence and return the new list.
- `pqueue.dfy`, module `PQueue`:
  - the construction options and the seeding fold;
  - the invariant tying index, heap and arena together, and the lemmas that each step keeps it;
  - the pop and peek loops;
  - the class `PriorityQueue`, whose fields `pq`, `ef`, `id` and `slots` the methods update in place.

  The ghost field `Contents` is the client's view: each key with the priority it was given.
- `scenarios.dfy`, module `Scenarios`: client sessions whose outcomes follow from the contracts.
  Examples: peek and pop agree, a reassigned key queues last among equal priorities, a removed key
  is never popped, and pops come out in priority order.

In the source, the heap list and the index share one mutable entry, and `__delitem__` overwrites
that entry's key field. The model splits the shared entry in two:

- the ordering fields never change, so they travel with every copy of the `Entry`;
- the key field lives in the arena `slots`, at the entry's counter value, as `Live(key)` or the
  tombstone `Removed`.

The counter `itertools.count()` is the field `id`, which always equals `|slots|`.

## Model

| member | source | states |
|---|---|---|
| `Heapq.RootIsMin` | pqueue.py:75 | the first entry of a heap list is no greater than any entry of it |
| `Heapq.HeapPush` | pqueue.py:52 | the new list is a heap holding exactly the old entries plus the pushed one |
| `Heapq.HeapPop` | pqueue.py:75 | returns the first entry, which is no greater than any entry; the rest is a heap holding exactly the others |
| `PQueue.TimesIsProduct` | pqueue.py:55 | the sign case split is multiplication by the sign, and multiplying twice gives the priority back |
| `PQueue.ParseConfig` | pqueue.py:24-36 | succeeds exactly for heap type "min"/"max" and queue order "fifo"/"lifo"; the heap type is checked first; `m == 1` exactly for "min" and `c == 1` exactly for "fifo" |
| `PQueue.SeededStep` | pqueue.py:38-39 | the definitional step of the seeding fold at a prefix: one more pair is assigned on top of the pairs before it (the constructor loop's helper) |
| `PQueue.SeededKeys` | pqueue.py:38-39 | after seeding, the keys are exactly those occurring among the pairs |
| `PQueue.SeededLast` | pqueue.py:38-39 | a key seeded several times keeps the priority of its last pair |
| `PQueue.SeededAtLast` | pqueue.py:38-39 | the `i`-th pair's key, when no later pair repeats it, holds counter value `i`, so seeded keys of equal priority tie in the order of their last pairs |
| `PQueue.IndexCountsLiveEntries` | pqueue.py:41-42 | the index has exactly as many keys as the heap has non-tombstoned entries |
| `PQueue.FrontUnique` | pqueue.py:73-89 | at most one key comes strictly first, so pop and peek cannot pick different keys |
| `PQueue.DistinctTies` | pqueue.py:48-49 | entries with different counter values never tie, so the comparison never reaches the key field |
| `PQueue.LeastLiveIsFront` | pqueue.py:74-78 | a live entry no greater than every heap entry belongs to the key that comes strictly first |
| `PQueue.LiveRootIsFront` | pqueue.py:82-85 | a live root belongs to the key that comes strictly first |
| `PQueue.EmptyHeapEmptyIndex` | pqueue.py:74-79 | when the heap list is empty, no key is indexed |
| `PQueue.OrderMeaning` | pqueue.py:49 | the order on signed entries is: smaller priority first in a min-queue, larger in a max-queue, then earlier counter under FIFO and later under LIFO (both directions) |
| `PQueue.FrontMeaning` | pqueue.py:73-78 | a key comes strictly first exactly when it precedes every other key by its priority and counter value (both directions) |
| `PQueue.TombstoneKeepsInv` | pqueue.py:57-59 | unindexing a key and tombstoning its slot keeps the invariant |
| `PQueue.InsertKeepsInv` | pqueue.py:48-52 | indexing an absent key under a new entry with the next counter value, and pushing that entry, keeps the invariant |
| `PQueue.DiscardKeepsInv` | pqueue.py:75-77 | taking an entry off the heap keeps the invariant, for a tombstone with the index unchanged or for a live entry whose key leaves the index |
| `PQueue.PopLive` | pqueue.py:73-79 | fails with `EmptyQueue` exactly when nothing is indexed, and leaves the heap empty then; otherwise returns the key that comes strictly first with its entry gone; drops nothing but tombstones and that entry; keeps the invariant |
| `PQueue.PeekLive` | pqueue.py:81-89 | fails with `EmptyQueue` exactly when nothing is indexed; otherwise returns the key that comes strictly first, with its entry left at the root; drops only tombstones; keeps the invariant |
| `PQueue.PriorityQueue.Items` | pqueue.py:95-96 | each key with its priority: exactly the client's view |
| `PQueue.PriorityQueue.Keys` | pqueue.py:92-93 | exactly the keys present |
| `PQueue.PriorityQueue.Len` | pqueue.py:41-42 | the number of keys present, which is also the number of non-tombstoned heap entries |
| `PQueue.PriorityQueue.Contains` | pqueue.py:61-62 | true exactly for a key present |
| `PQueue.PriorityQueue.Get` | pqueue.py:54-55 | the priority the key was given, or `KeyNotFound` exactly when the key is absent |
| `PQueue.PriorityQueue.constructor` | pqueue.py:12-39 | the signs are those of the options; the contents are the seed pairs assigned in order; one counter value was drawn and one entry pushed per pair; each key's entry carries the counter value of its last pair (`SeededAt`) |
| `PQueue.PriorityQueue.Add` | pqueue.py:44-52 | the key maps to the new priority and nothing else changes; the size grows only for a new key; the entry takes the next counter value, above every other key's; one entry is pushed; a key already present has its old slot tombstoned |
| `PQueue.PriorityQueue.Insert` | pqueue.py:48-52 | an absent key gets an entry with the next counter value, which is pushed on the heap; the arena grows by its live slot |
| `PQueue.PriorityQueue.Remove` | pqueue.py:57-59 | `KeyNotFound` exactly for an absent key, and then nothing changes; otherwise the key leaves the index, the size drops by one, only its slot is tombstoned, and the heap list is unchanged |
| `PQueue.PriorityQueue.Pop` | pqueue.py:73-79 | fails with `EmptyQueue` exactly when no key is present, though tombstones may remain, and leaves the heap empty then; otherwise returns the key that comes strictly first, which leaves the index, the size dropping by one; only tombstones and that entry leave the heap |
| `PQueue.PriorityQueue.Peek` | pqueue.py:81-89 | the index, the contents and the arena are unchanged; fails with `EmptyQueue` exactly when no key is present; otherwise returns the key that comes strictly first, its entry at the root; only tombstones leave the heap |
| `PQueue.New` | pqueue.py:12-39 | with the source's defaults (no pairs, "min", "fifo"), fails with the options' error exactly when the options are invalid; otherwise a fresh valid queue with the options' signs holding the seed pairs assigned in order, each key carrying the counter value of its last pair |
| `Scenarios.PeekThenPop` | pqueue.py:73-89 | peeking and then popping give the same result |
| `Scenarios.AddThenGet` | pqueue.py:44-55 | after assigning `p` to `k`, `k` is present and reads back as `p` |
| `Scenarios.RemoveThenPop` | pqueue.py:57-79 | a key just removed is not the one popped next |
| `Scenarios.ReassignedQueuesLast` | pqueue.py:44-52 | under FIFO, a key assigned again queues behind another key of the same priority |
| `Scenarios.PopAfterRemovingAll` | pqueue.py:73-79 | removing the only key leaves one tombstone in the heap, and popping fails with `EmptyQueue` |
| `Scenarios.MaxQueueServesLargest` | pqueue.py:24-29 | in a max-queue, a key given a priority above every other is popped next |
| `Scenarios.LifoServesNewest` | pqueue.py:31-34 | in a LIFO min-queue, a key given a priority no greater than any other is popped next |
| `Scenarios.DefaultOptions` | pqueue.py:12 | the default options give an empty min-queue with FIFO ties |
| `Scenarios.SeededTieOrder` | pqueue.py:38-39 | seeding `a` and then `c` with equal priorities into a FIFO min-queue, the first pop returns `a` |
| `Scenarios.PopIsExtremal` | pqueue.py:73-79 | the popped priority is the least of all keys present (the greatest in a max-queue), so successive pops come out in priority order |

## Left out

- `add`, `remove` and `__iter__` (pqueue.py:64-71) only forward to `__setitem__`, `__delitem__` and the index's keys, so the model has one member for each: `Add`, `Remove` and `Keys`.
- `Keys` and `Items` return the index's key set and key-to-priority map, not lazy generators. Iteration order, and mutating the queue while iterating, are Python runtime behaviour with no counterpart here.
- The `__REMOVED` sentinel is a fresh object compared by identity. It becomes the `Removed` arena slot. Keys that are mutable objects are not modelled: keys are values of a type with equality (`K(==,!new)`).
- `itertools.count` becomes the natural-number field `id`, advanced by one per insertion.
- Priorities are unbounded integers. Floats and other comparable types are not modelled, and neither are Python's mixed-type comparisons.
- Errors become `Result` values, not exceptions. This covers the generic `Exception` with its message raised for bad options, and the `KeyError` of `__getitem__`, `__delitem__`, `pop` and `peek`. Construction through `New` checks the options before seeding, as `__init__` does; the class constructor takes options already checked.
- `heapq` itself is not part of this model. `Heapq.HeapPush` and `Heapq.HeapPop` are a textbook binary heap with the same contract. CPython's exact sift order, and so the exact layout of the heap list, is not modelled.
- The comparison of the third entry field (the key, or the sentinel) is left out. The invariant states that no two heap entries share a counter value, and `DistinctTies` shows that entries with different counter values never tie, so the comparison is decided by the first two fields.
- `Insert` requires an absent key: it is the second half of `__setitem__`, reached only after the removal of a present key.
- Fixed sessions with literal keys (three keys popped in a stated order) are not written out. `Scenarios` states the same orderings for any valid queue: `PopIsExtremal`, `ReassignedQueuesLast`, `LifoServesNewest` and `MaxQueueServesLargest`.
