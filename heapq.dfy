/**
 * The binary min-heap that the priority queue keeps its entries in, with the
 * two operations it uses: push with sift-up and pop-the-root with sift-down.
 * The heap is a list of entries held as a sequence; both operations return
 * the new list, which the caller stores back in place of the old one.
 */
module Heapq {

  /**
   * A heap entry. `prio` is the priority already multiplied by the heap
   * direction sign, `tie` the insertion counter already multiplied by the
   * tie-break sign and `slot` the counter itself, which names the arena slot
   * holding the entry's key or its tombstone.
   */
  datatype Entry = Entry(prio: int, tie: int, slot: nat)

  /** Lexicographic order on (prio, tie), the order the heap is kept in. */
  predicate Le(a: Entry, b: Entry)
  {
    a.prio < b.prio || (a.prio == b.prio && a.tie <= b.tie)
  }

  /** The strict part of `Le`. */
  predicate Lt(a: Entry, b: Entry)
  {
    a.prio < b.prio || (a.prio == b.prio && a.tie < b.tie)
  }

  /** Every entry is no smaller than its parent. */
  ghost predicate IsHeap(h: seq<Entry>)
  {
    forall i, j {:trigger Le(h[i], h[j])} :: 0 <= i < j < |h| && i == (j - 1) / 2 ==> Le(h[i], h[j])
  }

  /** The root of a heap is below every element: walk up the parent chain. */
  lemma {:induction false} RootIsMin(h: seq<Entry>, i: nat)
    requires IsHeap(h) && i < |h|
    ensures Le(h[0], h[i])
    decreases i
  {
    if i > 0 {
      RootIsMin(h, (i - 1) / 2);
      assert Le(h[(i - 1) / 2], h[i]);
    }
  }

  /** The same fact stated over the heap's elements rather than its indices. */
  lemma RootIsMinOfAll(h: seq<Entry>)
    requires IsHeap(h) && |h| > 0
    ensures forall e | e in multiset(h) :: Le(h[0], e)
  {
    forall e | e in multiset(h)
      ensures Le(h[0], e)
    {
      var i :| 0 <= i < |h| && h[i] == e;
      RootIsMin(h, i);
    }
  }

  /** `r` with the elements at `i` and `j` exchanged. */
  function Swap(r: seq<Entry>, i: nat, j: nat): (s: seq<Entry>)
    requires i < |r| && j < |r|
    ensures |s| == |r| && multiset(s) == multiset(r)
    ensures s[i] == r[j] && s[j] == r[i]
    ensures forall k :: 0 <= k < |r| && k != i && k != j ==> s[k] == r[k]
  {
    r[i := r[j]][j := r[i]]
  }

  /** The heap order holds for every parent/child pair except the one whose child is `i`. */
  ghost predicate HeapBut(r: seq<Entry>, i: nat)
  {
    forall p, j :: 0 <= p < j < |r| && p == (j - 1) / 2 && j != i ==> Le(r[p], r[j])
  }

  /** The heap order holds for every parent/child pair except those whose parent is `i`. */
  ghost predicate HeapBelowBut(r: seq<Entry>, i: nat)
  {
    forall p, j :: 0 <= p < j < |r| && p == (j - 1) / 2 && p != i ==> Le(r[p], r[j])
  }

  /** The parent of `i` is no greater than the children of `i`. */
  ghost predicate BridgesChildren(r: seq<Entry>, i: nat)
  {
    0 < i < |r| ==> forall j :: i < j < |r| && (j - 1) / 2 == i ==> Le(r[(i - 1) / 2], r[j])
  }

  /** One sift-up swap moves the only disorder one level up. */
  lemma SiftUpStep(r: seq<Entry>, i: nat)
    requires 0 < i < |r| && HeapBut(r, i) && BridgesChildren(r, i)
    requires !Le(r[(i - 1) / 2], r[i])
    ensures HeapBut(Swap(r, i, (i - 1) / 2), (i - 1) / 2)
    ensures BridgesChildren(Swap(r, i, (i - 1) / 2), (i - 1) / 2)
  {
    var p := (i - 1) / 2;
    var s := Swap(r, i, p);
    forall q, j | 0 <= q < j < |s| && q == (j - 1) / 2 && j != p
      ensures Le(s[q], s[j])
    {
      if j == i {
      } else if q == i {
        assert Le(r[p], r[j]);
      } else if q == p {
        assert Le(r[p], r[j]);
      } else {
        assert s[q] == r[q] && s[j] == r[j];
      }
    }
    if p > 0 {
      var pp := (p - 1) / 2;
      assert Le(r[pp], r[p]);
      forall j | p < j < |s| && (j - 1) / 2 == p
        ensures Le(s[pp], s[j])
      {
        if j != i {
          assert Le(r[p], r[j]);
        }
      }
    }
  }

  /** The children of `i` are `2 * i + 1` and `2 * i + 2`. */
  lemma Children(i: nat, j: nat)
    requires i < j && (j - 1) / 2 == i
    ensures j == 2 * i + 1 || j == 2 * i + 2
  {
  }

  /** The child of `i` that sift-down compares against: the smaller one. */
  function SmallerChild(r: seq<Entry>, i: nat): (c: nat)
    requires 2 * i + 1 < |r|
    ensures i < c < |r| && (c - 1) / 2 == i
    ensures forall j :: i < j < |r| && (j - 1) / 2 == i ==> Le(r[c], r[j])
  {
    var c := if 2 * i + 2 < |r| && !Le(r[2 * i + 1], r[2 * i + 2]) then 2 * i + 2 else 2 * i + 1;
    assert forall j :: i < j < |r| && (j - 1) / 2 == i ==> Le(r[c], r[j]) by {
      forall j | i < j < |r| && (j - 1) / 2 == i
        ensures Le(r[c], r[j])
      {
        Children(i, j);
      }
    }
    c
  }

  /** One sift-down swap moves the only disorder one level down. */
  lemma SiftDownStep(r: seq<Entry>, i: nat, c: nat)
    requires i < c < |r| && (c - 1) / 2 == i
    requires HeapBelowBut(r, i) && BridgesChildren(r, i)
    requires forall j :: i < j < |r| && (j - 1) / 2 == i ==> Le(r[c], r[j])
    requires !Le(r[i], r[c])
    ensures HeapBelowBut(Swap(r, i, c), c)
    ensures BridgesChildren(Swap(r, i, c), c)
  {
    var s := Swap(r, i, c);
    forall q, j | 0 <= q < j < |s| && q == (j - 1) / 2 && q != c
      ensures Le(s[q], s[j])
    {
      if q == i {
        assert Le(r[c], r[j]);
      } else if j == i {
        assert Le(r[q], r[c]);
      } else {
        assert s[q] == r[q] && s[j] == r[j];
      }
    }
    forall j | c < j < |s| && (j - 1) / 2 == c
      ensures Le(s[i], s[j])
    {
      assert Le(r[c], r[j]);
    }
  }

  /** Pushes `x` and sifts it up towards the root. */
  method HeapPush(h: seq<Entry>, x: Entry) returns (r: seq<Entry>)
    requires IsHeap(h)
    ensures IsHeap(r)
    ensures multiset(r) == multiset(h) + multiset{x}
    ensures |r| == |h| + 1
  {
    r := h + [x];
    var i := |h|;
    while i > 0 && !Le(r[(i - 1) / 2], r[i])
      invariant 0 <= i < |r| == |h| + 1
      invariant multiset(r) == multiset(h) + multiset{x}
      invariant HeapBut(r, i) && BridgesChildren(r, i)
    {
      SiftUpStep(r, i);
      r := Swap(r, i, (i - 1) / 2);
      i := (i - 1) / 2;
    }
  }

  /** Sifts the element at the root down until the heap order holds everywhere. */
  method SiftDown(r0: seq<Entry>) returns (r: seq<Entry>)
    requires HeapBelowBut(r0, 0)
    ensures IsHeap(r)
    ensures multiset(r) == multiset(r0) && |r| == |r0|
  {
    r := r0;
    if |r| == 0 {
      return;
    }
    var i := 0;
    while 2 * i + 1 < |r|
      invariant 0 <= i < |r| == |r0|
      invariant multiset(r) == multiset(r0)
      invariant HeapBelowBut(r, i) && BridgesChildren(r, i)
      decreases |r| - i
    {
      var c := SmallerChild(r, i);
      if Le(r[i], r[c]) {
        assert forall j :: i < j < |r| && (j - 1) / 2 == i ==> Le(r[i], r[j]);
        return;
      }
      SiftDownStep(r, i, c);
      r := Swap(r, i, c);
      i := c;
    }
  }

  /**
   * Removes the root and returns it: the last element takes the root's place
   * and sifts down towards the leaves.
   */
  method HeapPop(h: seq<Entry>) returns (x: Entry, r: seq<Entry>)
    requires IsHeap(h) && |h| > 0
    ensures x == h[0]
    ensures forall e | e in multiset(h) :: Le(x, e)
    ensures IsHeap(r)
    ensures multiset(h) == multiset(r) + multiset{x}
    ensures |r| == |h| - 1
  {
    x := h[0];
    RootIsMinOfAll(h);
    var n := |h| - 1;
    if n == 0 {
      r := [];
      return;
    }
    assert h == [x] + h[1..n] + [h[n]];
    var moved := [h[n]] + h[1..n];
    assert forall k :: 0 < k < n ==> moved[k] == h[k];
    r := SiftDown(moved);
  }
}
