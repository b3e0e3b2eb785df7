/** The merge heap: container/heap's sift-up and sift-down over a slice swapped in place. */
module MergeHeap {
  import opened Lex
  import opened Entries

  datatype HeapItem = HeapItem(entry: Entry, runIdx: nat)

  type Items = seq<HeapItem>

  predicate ItemLess(h: Items, i: nat, j: nat)
    requires i < |h| && j < |h|
  {
    Less(h[i].entry.key, h[j].entry.key)
  }

  predicate NotAbove(h: Items, i: int, j: int)
    requires 0 <= i < |h| && 0 <= j < |h|
  {
    LessEq(h[i].entry.key, h[j].entry.key)
  }

  function Parent(k: int): int
    requires k > 0
  {
    (k - 1) / 2
  }

  function Swapped(h: Items, i: nat, j: nat): (r: Items)
    requires i < |h| && j < |h|
    ensures |r| == |h|
  {
    h[i := h[j]][j := h[i]]
  }

  lemma SwapKeepsItems(h: Items, i: nat, j: nat)
    requires i < |h| && j < |h|
    ensures multiset(Swapped(h, i, j)) == multiset(h)
  {}

  /** No item of the first n is above its parent. */
  ghost predicate Heap(h: Items, n: nat)
    requires n <= |h|
  {
    forall k :: 0 < k < n ==> NotAbove(h, Parent(k), k)
  }

  /** A heap but for item j, which may belong further up. */
  ghost predicate HeapButUp(h: Items, n: nat, j: nat)
    requires j < n <= |h|
  {
    && (forall k :: 0 < k < n && k != j ==> NotAbove(h, Parent(k), k))
    && (forall k :: 0 < k < n && Parent(k) == j && j > 0 ==> NotAbove(h, Parent(j), k))
  }

  /** A heap but for item i, which may belong further down. */
  ghost predicate HeapButDown(h: Items, n: nat, i: nat)
    requires i < n <= |h|
  {
    && (forall k :: 0 < k < n && Parent(k) != i ==> NotAbove(h, Parent(k), k))
    && (forall k :: 0 < k < n && Parent(k) == i && i > 0 ==> NotAbove(h, Parent(i), k))
  }

  lemma Reflexive(h: Items, i: nat)
    requires i < |h|
    ensures NotAbove(h, i, i)
  {
    Irreflexive(h[i].entry.key);
  }

  /** The root of a heap is a least item. */
  lemma {:induction false} RootIsLeast(h: Items, n: nat, k: nat)
    requires k < n <= |h| && Heap(h, n)
    ensures NotAbove(h, 0, k)
    decreases k
  {
    if k == 0 {
      Reflexive(h, 0);
    } else {
      RootIsLeast(h, n, Parent(k));
      Chain(h[0].entry.key, h[Parent(k)].entry.key, h[k].entry.key);
    }
  }

  lemma SiftUpStep(h: Items, n: nat, j: nat)
    requires 0 < j < n <= |h| && HeapButUp(h, n, j) && ItemLess(h, j, Parent(j))
    ensures HeapButUp(Swapped(h, Parent(j), j), n, Parent(j))
  {
    var p := Parent(j);
    var s := Swapped(h, p, j);
    var kp, kj := h[p].entry.key, h[j].entry.key;
    Total(kj, kp);
    forall k | 0 < k < n && k != p ensures NotAbove(s, Parent(k), k) {
      if k != j && Parent(k) == p {
        assert NotAbove(h, p, k);
        Chain(kj, kp, h[k].entry.key);
      } else if k != j && Parent(k) == j {
        assert NotAbove(h, p, k);
      } else if k != j {
        assert NotAbove(h, Parent(k), k);
      }
    }
    forall k | 0 < k < n && Parent(k) == p && p > 0 ensures NotAbove(s, Parent(p), k) {
      assert NotAbove(h, Parent(p), p);
      if k != j {
        assert NotAbove(h, p, k);
        Chain(h[Parent(p)].entry.key, kp, h[k].entry.key);
      }
    }
  }

  lemma SiftDownStep(h: Items, n: nat, i: nat, j: nat)
    requires i < j < n <= |h| && Parent(j) == i && HeapButDown(h, n, i) && ItemLess(h, j, i)
    requires forall k :: 0 < k < n && Parent(k) == i ==> NotAbove(h, j, k)
    ensures HeapButDown(Swapped(h, i, j), n, j)
  {
    var s := Swapped(h, i, j);
    var ki, kj := h[i].entry.key, h[j].entry.key;
    Total(kj, ki);
    forall k | 0 < k < n && Parent(k) != j ensures NotAbove(s, Parent(k), k) {
      if Parent(k) == i {
        if k != j { assert NotAbove(h, j, k); }
      } else if k == i {
        assert NotAbove(h, Parent(i), j);
      } else {
        assert NotAbove(h, Parent(k), k);
      }
    }
    forall k | 0 < k < n && Parent(k) == j ensures NotAbove(s, Parent(j), k) {
      assert NotAbove(h, j, k);
    }
  }

  class MergeHeap {
    var items: Items

    ghost predicate Valid()
      reads this
    {
      Heap(items, |items|)
    }

    constructor ()
      ensures Valid() && items == []
    {
      items := [];
    }

    method Swap(i: nat, j: nat)
      requires i < |items| && j < |items|
      modifies this
      ensures items == Swapped(old(items), i, j) && multiset(items) == multiset(old(items))
    {
      SwapKeepsItems(items, i, j);
      items := items[i := items[j]][j := items[i]];
    }

    method Up(j0: nat)
      requires j0 < |items| && HeapButUp(items, |items|, j0)
      modifies this
      ensures Valid() && |items| == old(|items|) && multiset(items) == multiset(old(items))
    {
      hide HeapButUp, Heap;
      var j: nat := j0;
      ghost var n := |items|;
      while j > 0 && ItemLess(items, j, Parent(j))
        invariant j < |items| == n && HeapButUp(items, n, j)
        invariant multiset(items) == multiset(old(items))
      {
        SiftUpStep(items, n, j);
        Swap(Parent(j), j);
        j := Parent(j);
      }
      UpDone(items, n, j);
    }

    method Down(i0: nat, n: nat)
      requires i0 < n <= |items| && HeapButDown(items, n, i0)
      modifies this
      ensures |items| == old(|items|) && Heap(items, n) && items[n..] == old(items[n..])
      ensures multiset(items) == multiset(old(items))
    {
      hide HeapButDown, Heap;
      var i := i0;
      while true
        invariant i < n <= |items| == old(|items|) && HeapButDown(items, n, i)
        invariant multiset(items) == multiset(old(items)) && items[n..] == old(items[n..])
        decreases n - i
      {
        var j1 := 2 * i + 1;
        if j1 >= n {
          DownDone(items, n, i, i);
          return;
        }
        var j := j1;
        var j2 := j1 + 1;
        if j2 < n && ItemLess(items, j2, j1) {
          j := j2;
        }
        LeastChild(items, n, i, j);
        if !ItemLess(items, j, i) {
          DownDone(items, n, i, j);
          return;
        }
        SiftDownStep(items, n, i, j);
        Swap(i, j);
        i := j;
      }
    }

    method Push(item: HeapItem)
      requires Valid()
      modifies this
      ensures Valid() && multiset(items) == multiset(old(items)) + multiset{item}
      ensures |items| == old(|items|) + 1
    {
      items := items + [item];
      Up(|items| - 1);
    }

    /** Removes a least item. */
    method Pop() returns (item: HeapItem)
      requires Valid() && items != []
      modifies this
      ensures Valid() && multiset(old(items)) == multiset(items) + multiset{item}
      ensures |items| == old(|items|) - 1 && item == old(items[0])
      ensures forall other :: other in multiset(old(items)) ==> LessEq(item.entry.key, other.entry.key)
    {
      hide Heap, HeapButDown, LessEq;
      var n := |items| - 1;
      ghost var before := items;
      RootIsLeastOf(before);
      Swap(0, n);
      if n > 0 {
        RootMoved(before);
        Down(0, n);
      } else {
        EmptyHeap(items);
      }
      item := items[n];
      LastOut(items, before[0]);
      items := items[..n];
      HeapOfPrefix(items, before[0], n);
    }
  }

  lemma LastOut(h: Items, last: HeapItem)
    requires h != [] && h[|h| - 1..] == [last]
    ensures var n := |h| - 1; h[n] == last && h == h[..n] + [last] && multiset(h) == multiset(h[..n]) + multiset{last}
  {
    var n := |h| - 1;
    assert h[n..][0] == last;
    assert h == h[..n] + [last];
  }

  lemma EmptyHeap(h: Items)
    ensures Heap(h, 0)
  {}

  lemma HeapOfPrefix(h: Items, last: HeapItem, n: nat)
    requires n == |h| && Heap(h + [last], n)
    ensures Heap(h, n)
  {}

  lemma RootIsLeastOf(h: Items)
    requires h != [] && Heap(h, |h|)
    ensures forall other :: other in multiset(h) ==> LessEq(h[0].entry.key, other.entry.key)
  {
    forall other | other in multiset(h) ensures LessEq(h[0].entry.key, other.entry.key) {
      var k :| 0 <= k < |h| && h[k] == other;
      RootIsLeast(h, |h|, k);
    }
  }

  lemma UpDone(h: Items, n: nat, j: nat)
    requires j < n <= |h| && HeapButUp(h, n, j) && (j == 0 || !ItemLess(h, j, Parent(j)))
    ensures Heap(h, n)
  {}

  /** j is the smaller of i's children. */
  lemma LeastChild(h: Items, n: nat, i: nat, j: nat)
    requires i < n <= |h| && 2 * i + 1 < n && j < n
    requires j == if 2 * i + 2 < n && ItemLess(h, 2 * i + 2, 2 * i + 1) then 2 * i + 2 else 2 * i + 1
    ensures Parent(j) == i && forall k :: 0 < k < n && Parent(k) == i ==> NotAbove(h, j, k)
  {
    Reflexive(h, j);
    Total(h[2 * i + 1].entry.key, h[j].entry.key);
    forall k | 0 < k < n && Parent(k) == i ensures NotAbove(h, j, k) {
      assert k == 2 * i + 1 || k == 2 * i + 2;
    }
  }

  lemma DownDone(h: Items, n: nat, i: nat, j: nat)
    requires i < n <= |h| && HeapButDown(h, n, i)
    requires 2 * i + 1 >= n
             || (j < n && !ItemLess(h, j, i) && forall k :: 0 < k < n && Parent(k) == i ==> NotAbove(h, j, k))
    ensures Heap(h, n)
  {
    forall k | 0 < k < n ensures NotAbove(h, Parent(k), k) {
      if Parent(k) == i {
        Chain(h[i].entry.key, h[j].entry.key, h[k].entry.key);
      }
    }
  }

  /** Once the root has moved to the end, the rest is a heap but for the new root. */
  lemma RootMoved(h: Items)
    requires |h| > 1 && Heap(h, |h|)
    ensures HeapButDown(Swapped(h, 0, |h| - 1), |h| - 1, 0)
  {}
}
