/**
 * An indexed priority queue with lazy deletion: a binary heap of entries
 * plus an index from each live key to its entry. Removing a key leaves its
 * entry in the heap and turns the entry's key into a tombstone; `Pop` and
 * `Peek` throw tombstoned entries away when they reach the root.
 *
 * The entry that the heap and the index share is split in two: its ordering
 * fields, which never change, travel with every copy of the `Entry`; its
 * key field, which `Remove` overwrites, lives in the arena `slots` at the
 * position given by the entry's counter value.
 */
module PQueue {
  import opened Heapq

  /** The ways an operation can fail. */
  datatype Error = InvalidHeapType | InvalidQueueOrder | KeyNotFound | EmptyQueue

  datatype Result<T> = Ok(value: T) | Err(error: Error)

  /** A direction sign: +1 or -1. */
  type Sign = x: int | x == 1 || x == -1 witness 1

  /**
   * `x * s` for a sign `s`, written as a case split so that proofs stay in
   * linear arithmetic.
   */
  function Times(x: int, s: Sign): (r: int)
  {
    if s == 1 then x else -x
  }

  /** `Times` is multiplication by the sign; multiplying twice is the identity. */
  lemma TimesIsProduct(x: int, s: Sign)
    ensures Times(x, s) == x * s
    ensures Times(Times(x, s), s) == x
  {
  }

  /** The heap direction sign `m` and the tie-break sign `c`. */
  datatype Config = Config(m: Sign, c: Sign)

  /**
   * Validates the construction options: "min" or "max" for the heap type,
   * "fifo" or "lifo" for the queue order, the heap type checked first.
   */
  function ParseConfig(heapType: string, queueOrder: string): (r: Result<Config>)
    ensures r.Ok? <==> (heapType == "min" || heapType == "max") && (queueOrder == "fifo" || queueOrder == "lifo")
    ensures r.Err? ==> r.error == if heapType == "min" || heapType == "max" then InvalidQueueOrder else InvalidHeapType
    ensures r.Ok? ==> (r.value.m == 1 <==> heapType == "min") && (r.value.c == 1 <==> queueOrder == "fifo")
  {
    if heapType != "min" && heapType != "max" then
      Err(InvalidHeapType)
    else if queueOrder != "fifo" && queueOrder != "lifo" then
      Err(InvalidQueueOrder)
    else
      Ok(Config(if heapType == "min" then 1 else -1, if queueOrder == "fifo" then 1 else -1))
  }

  /** The key-to-priority map that assigning the pairs one after another produces. */
  function Seeded<K>(items: seq<(K, int)>): (r: map<K, int>)
  {
    if items == [] then map[]
    else
      var last := items[|items| - 1];
      Seeded(items[..|items| - 1])[last.0 := last.1]
  }

  /** Seeding one more pair assigns it on top of the pairs before it. */
  lemma SeededStep<K>(items: seq<(K, int)>, i: nat)
    requires i < |items|
    ensures Seeded(items[..i + 1]) == Seeded(items[..i])[items[i].0 := items[i].1]
  {
    assert items[..i + 1][..i] == items[..i];
  }

  /** Seeding keeps exactly the keys that occur among the pairs. */
  lemma {:induction false} SeededKeys<K>(items: seq<(K, int)>)
    ensures Seeded(items).Keys == set i | 0 <= i < |items| :: items[i].0
  {
    if items != [] {
      var init := items[..|items| - 1];
      SeededKeys(init);
      assert forall i :: 0 <= i < |init| ==> init[i] == items[i];
    }
  }

  /** A key seeded more than once keeps the priority of its last occurrence. */
  lemma {:induction false} SeededLast<K>(items: seq<(K, int)>, i: nat)
    requires i < |items|
    requires forall j :: i < j < |items| ==> items[j].0 != items[i].0
    ensures items[i].0 in Seeded(items) && Seeded(items)[items[i].0] == items[i].1
  {
    if i < |items| - 1 {
      var init := items[..|items| - 1];
      assert init[i] == items[i];
      SeededLast(init, i);
    }
  }

  /**
   * The counter value each key holds after the pairs are assigned one after
   * another to an empty queue: the position of its last occurrence.
   */
  function SeededAt<K>(items: seq<(K, int)>): (r: map<K, nat>)
  {
    if items == [] then map[]
    else
      var n := |items| - 1;
      SeededAt(items[..n])[items[n].0 := n]
  }

  /** Seeding one more pair gives its key the next counter value. */
  lemma SeededAtStep<K>(items: seq<(K, int)>, i: nat)
    requires i < |items|
    ensures SeededAt(items[..i + 1]) == SeededAt(items[..i])[items[i].0 := i]
  {
    assert items[..i + 1][..i] == items[..i];
  }

  /**
   * A seeded key holds the counter value of its last pair, so among seeded
   * keys of equal priority the tie order is the order of their last pairs.
   */
  lemma {:induction false} SeededAtLast<K>(items: seq<(K, int)>, i: nat)
    requires i < |items|
    requires forall j :: i < j < |items| ==> items[j].0 != items[i].0
    ensures items[i].0 in SeededAt(items) && SeededAt(items)[items[i].0] == i
  {
    if i < |items| - 1 {
      var init := items[..|items| - 1];
      assert init[i] == items[i];
      SeededAtLast(init, i);
    }
  }

  /** Each indexed key's entry carries the counter value `at` gives the key. */
  ghost predicate CountersAre<K>(ef: map<K, Entry>, at: map<K, nat>)
  {
    forall k | k in ef :: k in at && ef[k].slot == at[k]
  }

  /** Indexing a key under a new entry moves its counter value along. */
  lemma CountersStep<K>(ef: map<K, Entry>, at: map<K, nat>, k: K, e: Entry)
    requires CountersAre(ef, at)
    ensures CountersAre(ef[k := e], at[k := e.slot])
  {
  }

  /** The third field of an entry: its key, or the tombstone once the key is removed. */
  datatype Slot<K> = Live(key: K) | Removed

  /**
   * How the index `ef`, the heap `pq` and the arena `slots` fit together:
   *  - `pq` is a heap, holds each entry once, and each entry's tie-break is
   *    its counter value times `c`;
   *  - every indexed key's entry is in the heap and its slot holds that key;
   *  - every heap entry whose slot is not a tombstone is the indexed entry
   *    of the key in its slot;
   *  - no two heap entries share a counter value.
   */
  ghost predicate Inv<K>(ef: map<K, Entry>, pq: seq<Entry>, slots: seq<Slot<K>>, c: Sign)
  {
    && IsHeap(pq)
    && (forall e | e in multiset(pq) :: multiset(pq)[e] == 1 && e.slot < |slots| && e.tie == Times(e.slot, c))
    && (forall k {:trigger ef[k]} | k in ef :: ef[k] in multiset(pq) && ef[k].slot < |slots| && slots[ef[k].slot] == Live(k))
    && (forall e | e in multiset(pq) && e.slot < |slots| && slots[e.slot].Live? ::
          slots[e.slot].key in ef && ef[slots[e.slot].key] == e)
    && (forall e, e' {:trigger SameSlot(e, e')} | e in multiset(pq) && e' in multiset(pq) && SameSlot(e, e') :: e == e')
  }

  /**
   * Two entries drawn from the same counter value. The pairwise clause of
   * `Inv` is triggered only by this predicate, so that it is not applied
   * to every pair of heap entries in sight.
   */
  predicate SameSlot(a: Entry, b: Entry)
  {
    a.slot == b.slot
  }

  /** The heap entries that are not tombstoned. */
  ghost function LiveEntries<K>(pq: seq<Entry>, slots: seq<Slot<K>>): (r: set<Entry>)
  {
    set e | e in pq && e.slot < |slots| && slots[e.slot].Live?
  }

  /** A map whose values are pairwise distinct has as many values as keys. */
  lemma InjectiveCard<K, V>(f: map<K, V>)
    requires forall a, b | a in f && b in f && f[a] == f[b] :: a == b
    ensures |f.Values| == |f.Keys|
    decreases |f.Keys|
  {
    if f.Keys != {} {
      var a :| a in f;
      var g := f - {a};
      InjectiveCard(g);
      assert g.Keys == f.Keys - {a};
      forall v | v in f.Values - {f[a]}
        ensures v in g.Values
      {
        var b :| b in f && f[b] == v;
        assert g[b] == v;
      }
      assert g.Values == f.Values - {f[a]};
    }
  }

  /** The index has one key per live heap entry: tombstones do not count. */
  lemma IndexCountsLiveEntries<K>(ef: map<K, Entry>, pq: seq<Entry>, slots: seq<Slot<K>>, c: Sign)
    requires Inv(ef, pq, slots, c)
    ensures |ef| == |LiveEntries(pq, slots)|
  {
    assert ef.Values == LiveEntries(pq, slots);
    InjectiveCard(ef);
    assert |ef| == |ef.Keys|;
  }

  /** `k` is the indexed key whose entry comes strictly first in heap order. */
  ghost predicate IsFront<K>(ef: map<K, Entry>, k: K)
  {
    k in ef && forall k' | k' in ef && k' != k :: Lt(ef[k], ef[k'])
  }

  /** At most one key is at the front. */
  lemma FrontUnique<K>(ef: map<K, Entry>, a: K, b: K)
    requires IsFront(ef, a) && IsFront(ef, b)
    ensures a == b
  {
  }

  /** Entries with different counter values never tie. */
  lemma DistinctTies(c: Sign, a: nat, b: nat)
    requires a != b
    ensures Times(a, c) != Times(b, c)
  {
    if c == 1 {
    } else {
    }
  }

  /**
   * A live heap entry no greater than any heap entry belongs to the front
   * key: all other indexed entries are in the heap and have other ties.
   */
  lemma LeastLiveIsFront<K>(ef: map<K, Entry>, pq: seq<Entry>, slots: seq<Slot<K>>, c: Sign, x: Entry)
    requires Inv(ef, pq, slots, c)
    requires x in multiset(pq) && slots[x.slot].Live?
    requires forall e | e in multiset(pq) :: Le(x, e)
    ensures IsFront(ef, slots[x.slot].key)
  {
    var k := slots[x.slot].key;
    forall k' | k' in ef && k' != k
      ensures Lt(ef[k], ef[k'])
    {
      assert ef[k'].slot != x.slot;
      DistinctTies(c, x.slot, ef[k'].slot);
    }
  }

  /** The same for the root of the heap. */
  lemma LiveRootIsFront<K>(ef: map<K, Entry>, pq: seq<Entry>, slots: seq<Slot<K>>, c: Sign)
    requires Inv(ef, pq, slots, c)
    requires pq != [] && slots[pq[0].slot].Live?
    ensures IsFront(ef, slots[pq[0].slot].key)
  {
    RootIsMinOfAll(pq);
    LeastLiveIsFront(ef, pq, slots, c, pq[0]);
  }

  /** With nothing left in the heap, nothing is indexed. */
  lemma EmptyHeapEmptyIndex<K>(ef: map<K, Entry>, pq: seq<Entry>, slots: seq<Slot<K>>, c: Sign)
    requires Inv(ef, pq, slots, c) && pq == []
    ensures ef == map[]
  {
    assert forall k :: k !in ef;
  }

  /**
   * The order a client sees: a min-queue (`m == 1`) serves smaller
   * priorities first and a max-queue larger ones; equal priorities are
   * served by counter value, earlier first under FIFO (`c == 1`) and later
   * first under LIFO.
   */
  predicate Precedes(m: Sign, c: Sign, p1: int, n1: nat, p2: int, n2: nat)
  {
    || (if m == 1 then p1 < p2 else p1 > p2)
    || (p1 == p2 && if c == 1 then n1 < n2 else n1 > n2)
  }

  /** The heap's lexicographic order on signed fields is exactly `Precedes`. */
  lemma OrderMeaning(m: Sign, c: Sign, p1: int, n1: nat, p2: int, n2: nat)
    ensures Lt(Entry(Times(p1, m), Times(n1, c), n1), Entry(Times(p2, m), Times(n2, c), n2)) <==> Precedes(m, c, p1, n1, p2, n2)
  {
    if m == 1 {
      if c == 1 {
      } else {
      }
    } else {
      if c == 1 {
      } else {
      }
    }
  }

  /**
   * The front key in the client's terms: a key comes strictly first exactly
   * when it precedes every other key, comparing priorities as given and
   * counter values as drawn.
   */
  lemma FrontMeaning<K>(contents: map<K, int>, ef: map<K, Entry>, pq: seq<Entry>, slots: seq<Slot<K>>,
                        m: Sign, c: Sign, k: K)
    requires Inv(ef, pq, slots, c) && Agrees(contents, ef, m)
    ensures IsFront(ef, k) <==>
              k in contents &&
              forall k' | k' in contents && k' != k :: Precedes(m, c, contents[k], ef[k].slot, contents[k'], ef[k'].slot)
  {
    if k in ef {
      forall k' | k' in ef && k' != k
        ensures Lt(ef[k], ef[k']) <==> Precedes(m, c, contents[k], ef[k].slot, contents[k'], ef[k'].slot)
      {
        assert ef[k] in multiset(pq) && ef[k'] in multiset(pq);
        OrderMeaning(m, c, contents[k], ef[k].slot, contents[k'], ef[k'].slot);
      }
    }
  }

  /** Removing an indexed key and tombstoning its slot keeps the invariant. */
  lemma TombstoneKeepsInv<K>(ef: map<K, Entry>, pq: seq<Entry>, slots: seq<Slot<K>>, c: Sign, k: K)
    requires Inv(ef, pq, slots, c) && k in ef
    ensures Inv(ef - {k}, pq, slots[ef[k].slot := Removed], c)
  {
    var slots' := slots[ef[k].slot := Removed];
    forall k' | k' in ef - {k}
      ensures slots'[ef[k'].slot] == Live(k')
    {
      assert ef[k'].slot != ef[k].slot;
    }
  }

  /** Indexing a key that is absent, with a fresh entry pushed on the heap, keeps the invariant. */
  lemma InsertKeepsInv<K>(ef: map<K, Entry>, pq: seq<Entry>, slots: seq<Slot<K>>, c: Sign,
                          k: K, e: Entry, pq': seq<Entry>)
    requires Inv(ef, pq, slots, c) && k !in ef
    requires e.slot == |slots| && e.tie == Times(e.slot, c)
    requires IsHeap(pq') && multiset(pq') == multiset(pq) + multiset{e}
    ensures Inv(ef[k := e], pq', slots + [Live(k)], c)
  {
    var slots' := slots + [Live(k)];
    assert e !in multiset(pq);
    forall x, y | x in multiset(pq') && y in multiset(pq') && SameSlot(x, y)
      ensures x == y
    {
      if x != e && y != e {
        assert x in multiset(pq) && y in multiset(pq);
      } else if x != e {
        assert x in multiset(pq) && x.slot < |slots|;
      } else if y != e {
        assert y in multiset(pq) && y.slot < |slots|;
      }
    }
    forall x | x in multiset(pq') && x.slot < |slots'| && slots'[x.slot].Live?
      ensures slots'[x.slot].key in ef[k := e] && ef[k := e][slots'[x.slot].key] == x
    {
      if x != e {
        assert x in multiset(pq) && slots'[x.slot] == slots[x.slot];
      }
    }
  }

  /**
   * Taking an entry off the heap keeps the invariant when the entry is a
   * tombstone and the index stays, or when it is live and its key leaves
   * the index.
   */
  lemma DiscardKeepsInv<K>(ef: map<K, Entry>, pq: seq<Entry>, slots: seq<Slot<K>>, c: Sign,
                           x: Entry, pq': seq<Entry>, ef': map<K, Entry>)
    requires Inv(ef, pq, slots, c)
    requires IsHeap(pq') && multiset(pq) == multiset(pq') + multiset{x}
    requires x.slot < |slots|
    requires if slots[x.slot].Live? then ef' == ef - {slots[x.slot].key} else ef' == ef
    ensures Inv(ef', pq', slots, c)
  {
    assert x in multiset(pq);
    assert multiset(pq)[x] == multiset(pq')[x] + 1;
    if slots[x.slot].Live? {
      assert ef[slots[x.slot].key] == x;
    }
    forall e | e in multiset(pq')
      ensures multiset(pq')[e] == 1 && e.slot < |slots| && e.tie == Times(e.slot, c)
    {
      assert multiset(pq)[e] == multiset(pq')[e] + if e == x then 1 else 0;
    }
    forall k | k in ef'
      ensures ef'[k] in multiset(pq') && ef'[k].slot < |slots| && slots[ef'[k].slot] == Live(k)
    {
      assert ef'[k] == ef[k] && ef[k] != x;
      assert multiset(pq)[ef[k]] == multiset(pq')[ef[k]];
    }
    forall e | e in multiset(pq') && e.slot < |slots| && slots[e.slot].Live?
      ensures slots[e.slot].key in ef' && ef'[slots[e.slot].key] == e
    {
      assert e in multiset(pq) && e != x;
    }
  }

  /** Each indexed entry carries its key's priority times `m`, and the keys agree. */
  ghost predicate Agrees<K>(contents: map<K, int>, ef: map<K, Entry>, m: Sign)
  {
    && contents.Keys == ef.Keys
    && (forall k {:trigger ef[k]} | k in ef :: ef[k].prio == Times(contents[k], m))
  }

  /** Dropping a key from both sides keeps them in agreement. */
  lemma AgreesWithout<K>(contents: map<K, int>, ef: map<K, Entry>, m: Sign, k: K)
    requires Agrees(contents, ef, m)
    ensures Agrees(contents - {k}, ef - {k}, m)
  {
  }

  /** Setting a key on both sides, with a matching priority, keeps them in agreement. */
  lemma AgreesWith<K>(contents: map<K, int>, ef: map<K, Entry>, m: Sign, k: K, p: int, e: Entry)
    requires Agrees(contents, ef, m) && e.prio == Times(p, m)
    ensures Agrees(contents[k := p], ef[k := e], m)
  {
  }

  /** Removing a present key takes one away from the size of a map. */
  lemma CardWithout<K, V>(f: map<K, V>, k: K)
    requires k in f
    ensures |f - {k}| == |f| - 1
  {
    assert (f - {k}).Keys == f.Keys - {k};
  }

  /** Setting a key grows a map by one exactly when the key is new. */
  lemma CardWith<K, V>(f: map<K, V>, k: K, v: V)
    ensures |f[k := v]| == if k in f then |f| else |f| + 1
  {
    if k in f {
      assert f[k := v].Keys == f.Keys;
    } else {
      assert f[k := v].Keys == f.Keys + {k};
    }
  }

  /** Removing an absent key leaves a map as it is. */
  lemma WithoutAbsent<K, V>(f: map<K, V>, k: K)
    requires k !in f
    ensures f - {k} == f
  {
  }

  /** Removing a key and then setting it is the same as setting it. */
  lemma RemoveThenSet<K, V>(f: map<K, V>, k: K, v: V)
    ensures (f - {k})[k := v] == f[k := v]
  {
  }

  /**
   * Pops roots until one is live and returns its key; with no live entry
   * left the heap ends empty and the result is `EmptyQueue`.
   */
  method PopLive<K>(pq0: seq<Entry>, slots: seq<Slot<K>>, ghost ef: map<K, Entry>, ghost c: Sign)
    returns (r: Result<K>, pq: seq<Entry>)
    requires Inv(ef, pq0, slots, c)
    ensures r.Ok? <==> ef != map[]
    ensures r.Err? ==> r.error == EmptyQueue && pq == []
    ensures r.Ok? ==> IsFront(ef, r.value) && ef[r.value] !in multiset(pq)
    ensures Inv(if r.Ok? then ef - {r.value} else ef, pq, slots, c)
    ensures multiset(pq) <= multiset(pq0)
    ensures forall e | e in multiset(pq0) - multiset(pq) :: slots[e.slot].Removed? || (r.Ok? && e == ef[r.value])
  {
    pq := pq0;
    while pq != []
      invariant Inv(ef, pq, slots, c)
      invariant multiset(pq) <= multiset(pq0)
      invariant forall e | e in multiset(pq0) - multiset(pq) :: slots[e.slot].Removed?
      decreases |pq|
    {
      ghost var before := pq;
      var e, rest := HeapPop(pq);
      if slots[e.slot].Live? {
        var k := slots[e.slot].key;
        LeastLiveIsFront(ef, before, slots, c, e);
        DiscardKeepsInv(ef, before, slots, c, e, rest, ef - {k});
        pq := rest;
        return Ok(k), pq;
      }
      DiscardKeepsInv(ef, before, slots, c, e, rest, ef);
      pq := rest;
    }
    EmptyHeapEmptyIndex(ef, pq, slots, c);
    return Err(EmptyQueue), pq;
  }

  /**
   * Pops tombstoned roots until the root is live and returns its key, which
   * stays in place; with no live entry left the heap ends empty and the
   * result is `EmptyQueue`.
   */
  method PeekLive<K>(pq0: seq<Entry>, slots: seq<Slot<K>>, ghost ef: map<K, Entry>, ghost c: Sign)
    returns (r: Result<K>, pq: seq<Entry>)
    requires Inv(ef, pq0, slots, c)
    ensures r.Ok? <==> ef != map[]
    ensures r.Err? ==> r.error == EmptyQueue && pq == []
    ensures r.Ok? ==> IsFront(ef, r.value) && pq != [] && pq[0] == ef[r.value]
    ensures Inv(ef, pq, slots, c)
    ensures multiset(pq) <= multiset(pq0)
    ensures forall e | e in multiset(pq0) - multiset(pq) :: slots[e.slot].Removed?
  {
    pq := pq0;
    while pq != []
      invariant Inv(ef, pq, slots, c)
      invariant multiset(pq) <= multiset(pq0)
      invariant forall e | e in multiset(pq0) - multiset(pq) :: slots[e.slot].Removed?
      decreases |pq|
    {
      var e := pq[0];
      if slots[e.slot].Live? {
        LiveRootIsFront(ef, pq, slots, c);
        return Ok(slots[e.slot].key), pq;
      }
      ghost var before := pq;
      var dropped, rest := HeapPop(pq);
      DiscardKeepsInv(ef, before, slots, c, dropped, rest, ef);
      pq := rest;
    }
    EmptyHeapEmptyIndex(ef, pq, slots, c);
    return Err(EmptyQueue), pq;
  }

  /** One queue: the heap `pq`, the index `ef`, the counter `id` and the arena `slots`. */
  class PriorityQueue<K(==,!new)> {
    /** The client's view: each key with its priority. */
    ghost var Contents: map<K, int>

    /** The heap list of entries. */
    var pq: seq<Entry>
    /** The entry finder: each live key's entry. */
    var ef: map<K, Entry>
    /** The next counter value. */
    var id: nat
    /** The key field of the entry with counter value `n`, or its tombstone, at `slots[n]`. */
    var slots: seq<Slot<K>>
    /** +1 for a min-queue, -1 for a max-queue. */
    const m: Sign
    /** +1 for FIFO ties, -1 for LIFO ties. */
    const c: Sign

    /**
     * The index, heap and arena fit together, the arena has one slot per
     * counter value drawn, and each entry stores its key's priority times `m`.
     */
    ghost predicate Valid()
      reads this
    {
      && |slots| == id
      && Inv(ef, pq, slots, c)
      && Agrees(Contents, ef, m)
    }

    /** Each key of the queue with its priority, in no particular order. */
    function Items(): (r: map<K, int>)
      reads this
      requires Valid()
      ensures r == Contents
    {
      var r := map k | k in ef :: Times(ef[k].prio, m);
      assert forall k | k in ef :: Times(ef[k].prio, m) == Contents[k] by {
        forall k | k in ef
          ensures Times(ef[k].prio, m) == Contents[k]
        {
          TimesIsProduct(Contents[k], m);
        }
      }
      r
    }

    /** The keys of the queue, in no particular order. */
    function Keys(): (r: set<K>)
      reads this
      requires Valid()
      ensures r == Contents.Keys
    {
      ef.Keys
    }

    /** The number of keys, which is not the length of the heap list. */
    function Len(): (n: nat)
      reads this
      requires Valid()
      ensures n == |Contents|
      ensures n == |LiveEntries(pq, slots)|
    {
      IndexCountsLiveEntries(ef, pq, slots, c);
      assert |Contents| == |Contents.Keys| && |ef| == |ef.Keys|;
      |ef|
    }

    /** Membership, answered by the index alone. */
    function Contains(k: K): (b: bool)
      reads this
      requires Valid()
      ensures b <==> k in Contents
    {
      k in ef
    }

    /** The priority of `k`, or `KeyNotFound`. */
    function Get(k: K): (r: Result<int>)
      reads this
      requires Valid()
      ensures r.Ok? <==> k in Contents
      ensures r.Ok? ==> r.value == Contents[k]
      ensures r.Err? ==> r.error == KeyNotFound
    {
      if k in ef then
        TimesIsProduct(Contents[k], m);
        Ok(Times(ef[k].prio, m))
      else
        Err(KeyNotFound)
    }

    /** Assigns the seed pairs one after another to an empty queue with the given signs. */
    constructor (config: Config, items: seq<(K, int)>)
      ensures Valid() && m == config.m && c == config.c
      ensures Contents == Seeded(items)
      ensures id == |items| && |pq| == |items|
      ensures items == [] ==> ef == map[] && pq == []
      ensures CountersAre(ef, SeededAt(items))
    {
      pq := [];
      ef := map[];
      id := 0;
      slots := [];
      m := config.m;
      c := config.c;
      Contents := map[];
      new;
      var i := 0;
      while i < |items|
        invariant 0 <= i <= |items|
        invariant Valid() && Contents == Seeded(items[..i])
        invariant id == i && |pq| == i
        invariant i == 0 ==> ef == map[] && pq == []
        invariant CountersAre(ef, SeededAt(items[..i]))
      {
        SeededStep(items, i);
        SeededAtStep(items, i);
        ghost var index := ef;
        Add(items[i].0, items[i].1);
        CountersStep(index, SeededAt(items[..i]), items[i].0, ef[items[i].0]);
        i := i + 1;
      }
      assert items[..|items|] == items;
    }

    /**
     * Sets the priority of `k`: a present key is removed first, then the key
     * is inserted afresh.
     */
    method Add(k: K, priority: int)
      requires Valid()
      modifies this
      ensures Valid()
      ensures Contents == old(Contents)[k := priority]
      ensures |Contents| == if k in old(Contents) then old(|Contents|) else old(|Contents|) + 1
      ensures id == old(id) + 1
      ensures ef == old(ef)[k := Entry(Times(priority, m), Times(old(id), c), old(id))]
      ensures forall k' | k' in ef && k' != k :: ef[k'].slot < ef[k].slot
      ensures multiset(pq) == old(multiset(pq)) + multiset{ef[k]}
      ensures slots == (if k in old(ef) then old(slots)[old(ef)[k].slot := Removed] else old(slots)) + [Live(k)]
    {
      if k in ef {
        var removed := Remove(k);
        RemoveThenSet(old(ef), k, Entry(Times(priority, m), Times(id, c), id));
        RemoveThenSet(old(Contents), k, priority);
      }
      Insert(k, priority);
    }

    /**
     * Indexes an absent key under a new entry with the next counter value
     * and pushes the entry on the heap.
     */
    method Insert(k: K, priority: int)
      requires Valid() && k !in Contents
      modifies this
      ensures Valid()
      ensures Contents == old(Contents)[k := priority] && |Contents| == old(|Contents|) + 1
      ensures id == old(id) + 1
      ensures ef == old(ef)[k := Entry(Times(priority, m), Times(old(id), c), old(id))]
      ensures forall k' | k' in ef && k' != k :: ef[k'].slot < ef[k].slot
      ensures multiset(pq) == old(multiset(pq)) + multiset{ef[k]}
      ensures slots == old(slots) + [Live(k)]
    {
      var entry := Entry(Times(priority, m), Times(id, c), id);
      var pushed := HeapPush(pq, entry);
      InsertKeepsInv(ef, pq, slots, c, k, entry, pushed);
      AgreesWith(Contents, ef, m, k, priority, entry);
      CardWith(Contents, k, priority);
      Store(Contents[k := priority], ef[k := entry], pushed, slots + [Live(k)], id + 1);
    }

    /** Replaces the whole state by one that is known to satisfy the invariant. */
    method Store(ghost contents: map<K, int>, index: map<K, Entry>, heap: seq<Entry>, arena: seq<Slot<K>>, count: nat)
      requires |arena| == count && Inv(index, heap, arena, c) && Agrees(contents, index, m)
      modifies this
      ensures Valid()
      ensures Contents == contents && ef == index && pq == heap && slots == arena && id == count
    {
      Contents, ef, pq, slots, id := contents, index, heap, arena, count;
    }

    /**
     * Removes `k` from the index and tombstones its entry where it lies in
     * the heap; an absent key is `KeyNotFound` and changes nothing.
     */
    method Remove(k: K) returns (r: Result<()>)
      requires Valid()
      modifies this
      ensures Valid()
      ensures r.Ok? <==> k in old(ef)
      ensures r.Err? ==> r.error == KeyNotFound && ef == old(ef) && slots == old(slots)
      ensures r.Ok? ==> ef == old(ef) - {k} && slots == old(slots)[old(ef)[k].slot := Removed]
      ensures Contents == old(Contents) - {k}
      ensures |Contents| == if r.Ok? then old(|Contents|) - 1 else old(|Contents|)
      ensures pq == old(pq) && id == old(id)
    {
      if k !in ef {
        WithoutAbsent(Contents, k);
        return Err(KeyNotFound);
      }
      TombstoneKeepsInv(ef, pq, slots, c, k);
      AgreesWithout(Contents, ef, m, k);
      CardWithout(Contents, k);
      Store(Contents - {k}, ef - {k}, pq, slots[ef[k].slot := Removed], id);
      return Ok(());
    }

    /**
     * Takes roots off the heap until one is live, and removes that entry's
     * key from the index and returns it; with no live entry left the heap
     * ends empty and the result is `EmptyQueue`.
     */
    method Pop() returns (r: Result<K>)
      requires Valid()
      modifies this
      ensures Valid()
      ensures r.Ok? <==> old(ef) != map[]
      ensures r.Err? ==> r.error == EmptyQueue && pq == [] && ef == old(ef) && Contents == old(Contents)
      ensures r.Ok? ==> IsFront(old(ef), r.value) && ef == old(ef) - {r.value}
      ensures r.Ok? ==> Contents == old(Contents) - {r.value} && |Contents| == old(|Contents|) - 1
      ensures r.Ok? ==> old(ef)[r.value] !in multiset(pq)
      ensures slots == old(slots) && id == old(id)
      ensures multiset(pq) <= old(multiset(pq))
      ensures forall e | e in old(multiset(pq)) - multiset(pq) ::
                slots[e.slot].Removed? || (r.Ok? && e == old(ef)[r.value])
    {
      var key, rest := PopLive(pq, slots, ef, c);
      if key.Err? {
        pq := rest;
        return key;
      }
      AgreesWithout(Contents, ef, m, key.value);
      CardWithout(Contents, key.value);
      Store(Contents - {key.value}, ef - {key.value}, rest, slots, id);
      return key;
    }

    /**
     * Takes tombstoned roots off the heap until the root is live and returns
     * its key, leaving it in place; with no live entry left the heap ends
     * empty and the result is `EmptyQueue`.
     */
    method Peek() returns (r: Result<K>)
      requires Valid()
      modifies this
      ensures Valid()
      ensures ef == old(ef) && slots == old(slots) && id == old(id) && Contents == old(Contents)
      ensures r.Ok? <==> ef != map[]
      ensures r.Err? ==> r.error == EmptyQueue && pq == []
      ensures r.Ok? ==> IsFront(ef, r.value) && pq != [] && pq[0] == ef[r.value]
      ensures multiset(pq) <= old(multiset(pq))
      ensures forall e | e in old(multiset(pq)) - multiset(pq) :: slots[e.slot].Removed?
    {
      var key, rest := PeekLive(pq, slots, ef, c);
      pq := rest;
      return key;
    }
  }

  /**
   * Construction: the options are checked first, then the seed pairs are
   * assigned in order. The defaults are those of the source: no pairs, a
   * min-queue and FIFO ties.
   */
  method New<K(==,!new)>(items: seq<(K, int)> := [], heapType: string := "min", queueOrder: string := "fifo")
    returns (r: Result<PriorityQueue<K>>)
    ensures r.Err? <==> ParseConfig(heapType, queueOrder).Err?
    ensures r.Err? ==> r.error == ParseConfig(heapType, queueOrder).error
    ensures r.Ok? ==> fresh(r.value) && r.value.Valid()
    ensures r.Ok? ==> r.value.m == ParseConfig(heapType, queueOrder).value.m
    ensures r.Ok? ==> r.value.c == ParseConfig(heapType, queueOrder).value.c
    ensures r.Ok? ==> r.value.Contents == Seeded(items)
    ensures r.Ok? ==> r.value.id == |items| && CountersAre(r.value.ef, SeededAt(items))
  {
    var config := ParseConfig(heapType, queueOrder);
    if config.Err? {
      return Err(config.error);
    }
    var q := new PriorityQueue(config.value, items);
    return Ok(q);
  }
}
