/**
 * Short client sessions against any valid queue, each with the outcome that
 * the queue's contracts force.
 */
module Scenarios {
  import opened Heapq
  import opened PQueue

  /** Peeking and then popping yield the same key, or both fail on an empty queue. */
  method PeekThenPop<K(==,!new)>(q: PriorityQueue<K>) returns (peeked: Result<K>, popped: Result<K>)
    requires q.Valid()
    modifies q
    ensures q.Valid()
    ensures peeked == popped
  {
    peeked := q.Peek();
    ghost var index := q.ef;
    popped := q.Pop();
    if popped.Ok? {
      FrontUnique(index, peeked.value, popped.value);
    }
  }

  /** After assigning `p` to `k`, the key is present and reads back as `p`. */
  method AddThenGet<K(==,!new)>(q: PriorityQueue<K>, k: K, p: int) returns (r: Result<int>)
    requires q.Valid()
    modifies q
    ensures q.Valid()
    ensures r == Ok(p) && q.Contains(k)
  {
    q.Add(k, p);
    r := q.Get(k);
  }

  /** A removed key is never the one popped next. */
  method RemoveThenPop<K(==,!new)>(q: PriorityQueue<K>, k: K) returns (popped: Result<K>)
    requires q.Valid()
    modifies q
    ensures q.Valid()
    ensures popped.Ok? ==> popped.value != k
  {
    var removed := q.Remove(k);
    popped := q.Pop();
  }

  /**
   * Assigning a key again draws a new counter value, so under FIFO order it
   * now queues behind another key of the same priority.
   */
  method ReassignedQueuesLast<K(==,!new)>(q: PriorityQueue<K>, k: K, other: K, p: int) returns (popped: Result<K>)
    requires q.Valid() && q.c == 1
    requires other != k && other in q.Contents && q.Contents[other] == p
    modifies q
    ensures q.Valid()
    ensures popped.Ok? && popped.value != k
  {
    q.Add(k, p);
    FrontMeaning(q.Contents, q.ef, q.pq, q.slots, q.m, q.c, k);
    assert !IsFront(q.ef, k) by {
      assert !Precedes(q.m, q.c, q.Contents[k], q.ef[k].slot, q.Contents[other], q.ef[other].slot);
    }
    popped := q.Pop();
  }

  /** Removing the only key leaves a tombstone in the heap, and popping still fails. */
  method PopAfterRemovingAll() returns (popped: Result<char>, stale: nat)
    ensures stale == 1 && popped == Err(EmptyQueue)
  {
    var q := new PriorityQueue<char>(Config(1, 1), []);
    q.Add('a', 1);
    var removed := q.Remove('a');
    stale := |q.pq|;
    popped := q.Pop();
  }

  /** In a max-queue a key assigned a priority above all others is served next. */
  method MaxQueueServesLargest<K(==,!new)>(q: PriorityQueue<K>, k: K, p: int) returns (popped: Result<K>)
    requires q.Valid() && q.m == -1
    requires forall k' | k' in q.Contents :: q.Contents[k'] < p
    modifies q
    ensures q.Valid()
    ensures popped == Ok(k)
  {
    q.Add(k, p);
    FrontMeaning(q.Contents, q.ef, q.pq, q.slots, q.m, q.c, k);
    assert IsFront(q.ef, k);
    ghost var index := q.ef;
    popped := q.Pop();
    FrontUnique(index, popped.value, k);
  }

  /**
   * In a min-queue with LIFO order a key assigned a priority no greater
   * than any other is served next: among equal priorities the newest wins.
   */
  method LifoServesNewest<K(==,!new)>(q: PriorityQueue<K>, k: K, p: int) returns (popped: Result<K>)
    requires q.Valid() && q.m == 1 && q.c == -1
    requires forall k' | k' in q.Contents :: p <= q.Contents[k']
    modifies q
    ensures q.Valid()
    ensures popped == Ok(k)
  {
    q.Add(k, p);
    FrontMeaning(q.Contents, q.ef, q.pq, q.slots, q.m, q.c, k);
    assert IsFront(q.ef, k);
    ghost var index := q.ef;
    popped := q.Pop();
    FrontUnique(index, popped.value, k);
  }

  /**
   * The popped key's priority is the least among the keys present (the
   * greatest in a max-queue), so successive pops come out in priority order.
   */
  method PopIsExtremal<K(==,!new)>(q: PriorityQueue<K>) returns (popped: Result<K>)
    requires q.Valid()
    modifies q
    ensures q.Valid()
    ensures popped.Ok? ==> popped.value in old(q.Contents)
    ensures popped.Ok? ==> forall k' | k' in q.Contents ::
              if q.m == 1 then old(q.Contents)[popped.value] <= q.Contents[k']
              else old(q.Contents)[popped.value] >= q.Contents[k']
  {
    ghost var contents, index, heap, arena := q.Contents, q.ef, q.pq, q.slots;
    popped := q.Pop();
    if popped.Ok? {
      FrontMeaning(contents, index, heap, arena, q.m, q.c, popped.value);
    }
  }

  /** The default options give an empty min-queue with FIFO ties. */
  method DefaultOptions() returns (r: Result<PriorityQueue<char>>)
    ensures r.Ok? && r.value.m == 1 && r.value.c == 1 && r.value.Contents == map[]
  {
    r := New();
  }

  /** Seeded keys of equal priority are served in the order of their pairs under FIFO. */
  method SeededTieOrder() returns (popped: Result<char>)
    ensures popped == Ok('a')
  {
    var q := new PriorityQueue<char>(Config(1, 1), [('a', 5), ('c', 5)]);
    FrontMeaning(q.Contents, q.ef, q.pq, q.slots, q.m, q.c, 'a');
    assert IsFront(q.ef, 'a');
    ghost var index := q.ef;
    popped := q.Pop();
    FrontUnique(index, popped.value, 'a');
  }
}
