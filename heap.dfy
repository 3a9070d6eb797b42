/** The min-priority queue: an array-backed binary heap of items that record
    their own slot, and the generic heap algorithm (sift up, sift down) that
    drives it through the adapter's Len/Less/Swap/Push/Pop. */
module Heap {

  /** One slot of the heap: a payload, its priority, and the slot the item
      believes it occupies (-1 once it has been popped). */
  datatype Item<V> = Item(value: V, priority: int, index: int)

  /** What an item carries apart from its bookkeeping index. */
  function Entry<V>(x: Item<V>): (V, int)
  {
    (x.value, x.priority)
  }

  function Entries<V>(s: seq<Item<V>>): (r: seq<(V, int)>)
    ensures |r| == |s|
    ensures forall k :: 0 <= k < |s| ==> r[k] == Entry(s[k])
  {
    seq(|s|, k requires 0 <= k < |s| => Entry(s[k]))
  }

  /** The contents of a heap, forgetting slot order and indices. */
  ghost function Bag<V>(s: seq<Item<V>>): multiset<(V, int)>
  {
    multiset(Entries(s))
  }

  /** Every item records the slot it occupies. */
  ghost predicate Indexed<V>(s: seq<Item<V>>)
  {
    forall k :: 0 <= k < |s| ==> s[k].index == k
  }

  /** The parent of slot k > 0 in the implicit binary tree. */
  function Parent(k: int): int
  {
    (k - 1) / 2
  }

  /** Heap order on the first n slots: no child is smaller than its parent. */
  ghost predicate HeapOrdered<V>(s: seq<Item<V>>, n: int)
    requires n <= |s|
  {
    forall k {:trigger Parent(k)} :: 0 < k < n ==> s[Parent(k)].priority <= s[k].priority
  }

  /** Adapter Swap on the slot sequence: the two items trade slots and each
      is stamped with its new slot. */
  function SwapSlots<V>(s: seq<Item<V>>, i: int, j: int): (r: seq<Item<V>>)
    requires 0 <= i < |s| && 0 <= j < |s|
    ensures |r| == |s|
    ensures Entry(r[i]) == Entry(s[j]) && r[i].index == i
    ensures Entry(r[j]) == Entry(s[i]) && r[j].index == j
    ensures forall k :: 0 <= k < |s| && k != i && k != j ==> r[k] == s[k]
  {
    s[i := s[j].(index := i)][j := s[i].(index := j)]
  }

  /** Adapter Push on the slot sequence: the item is appended and stamped
      with the old length. */
  function PushSlot<V>(s: seq<Item<V>>, x: Item<V>): (r: seq<Item<V>>)
    ensures |r| == |s| + 1 && r[..|s|] == s
    ensures Entry(r[|s|]) == Entry(x) && r[|s|].index == |s|
  {
    s + [x.(index := |s|)]
  }

  /** Adapter Pop on the slot sequence: the last item is cut off and marked
      as no longer in the heap. */
  function PopSlot<V>(s: seq<Item<V>>): (r: (seq<Item<V>>, Item<V>))
    requires |s| > 0
    ensures |r.0| == |s| - 1 && r.0 == s[..|s| - 1]
    ensures Entry(r.1) == Entry(s[|s| - 1]) && r.1.index == -1
  {
    (s[..|s| - 1], s[|s| - 1].(index := -1))
  }

  lemma SwapKeepsBag<V>(s: seq<Item<V>>, i: int, j: int)
    requires 0 <= i < |s| && 0 <= j < |s|
    ensures Bag(SwapSlots(s, i, j)) == Bag(s)
  {
    var e := Entries(s);
    assert Entries(SwapSlots(s, i, j)) == e[i := e[j]][j := e[i]];
  }

  /** Swap, Push and Pop keep every remaining item's index equal to its slot. */
  lemma SlotOpsKeepIndexed<V>(s: seq<Item<V>>, i: int, j: int, x: Item<V>)
    requires Indexed(s)
    ensures 0 <= i < |s| && 0 <= j < |s| ==> Indexed(SwapSlots(s, i, j))
    ensures Indexed(PushSlot(s, x))
    ensures |s| > 0 ==> Indexed(PopSlot(s).0)
  {
  }

  /** In a heap-ordered prefix the root holds a smallest priority. */
  lemma {:induction false} RootIsMinimal<V>(s: seq<Item<V>>, n: int, k: int)
    requires n <= |s| && HeapOrdered(s, n) && 0 <= k < n
    ensures s[0].priority <= s[k].priority
    decreases k
  {
    if k > 0 {
      RootIsMinimal(s, n, Parent(k));
    }
  }

  /** Sift-up precondition at slot j: heap order holds everywhere except
      possibly between j and its parent, and j's parent is no larger than j's
      children. */
  ghost predicate UpReady<V>(s: seq<Item<V>>, j: int)
    requires 0 <= j < |s|
  {
    (forall k {:trigger Parent(k)} :: 0 < k < |s| && k != j ==> s[Parent(k)].priority <= s[k].priority) &&
    (j > 0 ==> forall k {:trigger Parent(k)} :: 0 < k < |s| && Parent(k) == j ==> s[Parent(j)].priority <= s[k].priority)
  }

  /** Sift-down state at slot i, started from i0, over the first n slots,
      counting only parent-child pairs whose parent is at or below lo. */
  ghost predicate DownReady<V>(s: seq<Item<V>>, n: int, i: int, i0: int, lo: int)
    requires n <= |s|
  {
    (forall k {:trigger Parent(k)} :: 0 < k < n && lo <= Parent(k) && Parent(k) != i && (k == i0 ==> i > i0) ==>
      s[Parent(k)].priority <= s[k].priority) &&
    (0 < i < |s| && lo <= Parent(i) ==>
      forall k {:trigger Parent(k)} :: 0 < k < n && Parent(k) == i ==> s[Parent(i)].priority <= s[k].priority)
  }

  /** One sift-down step: swapping the item at i with its smaller child j,
      which is smaller than it, moves the sift-down state to j. */
  lemma DownStep<V>(s: seq<Item<V>>, n: int, i: int, j: int, i0: int, lo: int)
    requires 0 <= lo <= i0 <= i && n <= |s| && (i > i0 ==> i0 <= Parent(i))
    requires j == 2 * i + 1 || j == 2 * i + 2
    requires j < n && s[j].priority < s[i].priority
    requires j == 2 * i + 1 && j + 1 < n ==> s[j].priority <= s[j + 1].priority
    requires j == 2 * i + 2 ==> s[j].priority <= s[j - 1].priority
    requires DownReady(s, n, i, i0, lo)
    ensures DownReady(SwapSlots(s, i, j), n, j, i0, lo)
  {
    var r := SwapSlots(s, i, j);
    assert Parent(j) == i;
    forall k | 0 < k < n && lo <= Parent(k) && Parent(k) != j && (k == i0 ==> j > i0)
      ensures r[Parent(k)].priority <= r[k].priority
    {
      if k == j {
      } else if Parent(k) == i {
        assert k == 2 * i + 1 || k == 2 * i + 2;
      } else if k == i {
        assert s[Parent(i)].priority <= s[j].priority;
      } else {
        assert Parent(k) != j && k != j && k != i;
        assert Parent(k) == i || s[Parent(k)].priority <= s[k].priority;
      }
    }
    forall k | 0 < k < n && Parent(k) == j
      ensures r[Parent(j)].priority <= r[k].priority
    {
      assert k != i0 && k != j && k != i;
    }
  }

  /** Where sift-down stops (no child, or no child smaller than the item at
      i), every counted pair is in order except possibly the one above i0
      when nothing moved. */
  lemma DownDone<V>(s: seq<Item<V>>, n: int, i: int, i0: int, lo: int)
    requires 0 <= lo <= i0 <= i && n <= |s| && (i > i0 ==> i < n && i0 <= Parent(i))
    requires DownReady(s, n, i, i0, lo)
    requires 2 * i + 1 < n ==> s[i].priority <= s[2 * i + 1].priority
    requires 2 * i + 2 < n ==> s[i].priority <= s[2 * i + 2].priority
    ensures forall k {:trigger Parent(k)} :: 0 < k < n && lo <= Parent(k) && (k == i0 ==> i > i0) ==> s[Parent(k)].priority <= s[k].priority
  {
    forall k | 0 < k < n && lo <= Parent(k) && (k == i0 ==> i > i0)
      ensures s[Parent(k)].priority <= s[k].priority
    {
      if Parent(k) == i {
        assert k == 2 * i + 1 || k == 2 * i + 2;
      }
    }
  }

  /** Everything `Down` keeps while it walks from i0 to i: s0 is the slot
      sequence it started from. */
  ghost predicate DownLoop<V>(s: seq<Item<V>>, s0: seq<Item<V>>, n: int, i: int, i0: int, lo: int)
  {
    0 <= lo <= i0 <= i && 0 <= n <= |s| && |s| == |s0| &&
    (i > i0 ==> i < n && i0 <= Parent(i)) &&
    Indexed(s) && Bag(s) == Bag(s0) && s[n..] == s0[n..] &&
    (i == i0 ==> s == s0) &&
    DownReady(s, n, i, i0, lo)
  }

  lemma DownLoopStep<V>(s: seq<Item<V>>, s0: seq<Item<V>>, n: int, i: int, j: int, i0: int, lo: int)
    requires DownLoop(s, s0, n, i, i0, lo)
    requires j == 2 * i + 1 || j == 2 * i + 2
    requires j < n && s[j].priority < s[i].priority
    requires j == 2 * i + 1 && j + 1 < n ==> s[j].priority <= s[j + 1].priority
    requires j == 2 * i + 2 ==> s[j].priority <= s[j - 1].priority
    ensures DownLoop(SwapSlots(s, i, j), s0, n, j, i0, lo)
  {
    DownStep(s, n, i, j, i0, lo);
    SwapKeepsBag(s, i, j);
    var r := SwapSlots(s, i, j);
    assert r[n..] == s[n..];
  }

  lemma DownLoopExit<V>(s: seq<Item<V>>, s0: seq<Item<V>>, n: int, i: int, i0: int, lo: int)
    requires DownLoop(s, s0, n, i, i0, lo)
    requires 2 * i + 1 < n ==> s[i].priority <= s[2 * i + 1].priority
    requires 2 * i + 2 < n ==> s[i].priority <= s[2 * i + 2].priority
    ensures i > i0 ==> forall k {:trigger Parent(k)} :: 0 < k < n && lo <= Parent(k) ==> s[Parent(k)].priority <= s[k].priority
    ensures i == i0 ==> forall k {:trigger Parent(k)} :: 0 < k < n && lo <= Parent(k) && k != i0 ==> s[Parent(k)].priority <= s[k].priority
  {
    DownDone(s, n, i, i0, lo);
  }

  /** The slice of items behind Go's `MinHeap` type. */
  class MinHeap<V(==)> {
    var items: seq<Item<V>>

    /** Heap order plus index bookkeeping: what the heap operations keep. */
    ghost predicate Valid()
      reads this
    {
      Indexed(items) && HeapOrdered(items, |items|)
    }

    /** A heap over the given slots, as a slice filled slot by slot. */
    constructor FromSlots(s: seq<Item<V>>)
      ensures items == s
    {
      items := s;
    }

    function Len(): (n: int)
      reads this
      ensures n == |items|
    {
      |items|
    }

    /** Go's `Less`: slot i sorts before slot j exactly when its priority
        is strictly smaller, so equal priorities never sort before each
        other and no slot sorts before itself. */
    function Less(i: int, j: int): (b: bool)
      reads this
      requires 0 <= i < |items| && 0 <= j < |items|
      ensures b ==> i != j && items[i].priority < items[j].priority
      ensures !b ==> items[j].priority <= items[i].priority
    {
      items[i].priority < items[j].priority
    }

    /** `Less` is a strict order on slots by priority: irreflexive,
        asymmetric and transitive; slots it does not separate tie. */
    lemma LessIsStrict(i: int, j: int, k: int)
      requires 0 <= i < |items| && 0 <= j < |items| && 0 <= k < |items|
      ensures !Less(i, i)
      ensures Less(i, j) ==> !Less(j, i)
      ensures Less(i, j) && Less(j, k) ==> Less(i, k)
      ensures !Less(i, j) && !Less(j, i) ==> items[i].priority == items[j].priority
      ensures items[i].priority == items[j].priority ==> !Less(i, j)
    {
    }

    method Swap(i: int, j: int)
      requires 0 <= i < |items| && 0 <= j < |items|
      modifies this
      ensures items == SwapSlots(old(items), i, j)
      ensures Bag(items) == Bag(old(items))
    {
      SwapKeepsBag(items, i, j);
      items := items[i := items[j].(index := i)][j := items[i].(index := j)];
    }

    method Push(x: Item<V>)
      modifies this
      ensures items == PushSlot(old(items), x)
      ensures Bag(items) == Bag(old(items)) + multiset{Entry(x)}
    {
      var n := |items|;
      items := items + [x.(index := n)];
      assert Entries(items) == Entries(old(items)) + [Entry(x)];
    }

    method Pop() returns (x: Item<V>)
      requires |items| > 0
      modifies this
      ensures (items, x) == PopSlot(old(items))
      ensures Bag(old(items)) == Bag(items) + multiset{Entry(x)}
    {
      var n := |items|;
      x := items[n - 1].(index := -1);
      items := items[0..n - 1];
      assert Entries(old(items)) == Entries(items) + [Entry(x)];
    }

    /** Rewrites an item in place and restores heap order from its stored
        slot. A popped item carries index -1, and Go's `Fix` on slot -1
        changes nothing: `down` stops because 2 * -1 + 1 is negative, and
        `up` stops because (-1 - 1) / 2, truncated, is -1 again. */
    method Update(item: Item<V>, value: V, priority: int)
      requires Valid()
      requires item.index == -1 || (0 <= item.index < |items| && items[item.index] == item)
      modifies this
      ensures Valid() && |items| == |old(items)|
      ensures item.index == -1 ==> items == old(items)
      ensures item.index != -1 ==>
        Bag(items) == Bag(old(items)) - multiset{Entry(item)} + multiset{(value, priority)}
    {
      var k := item.index;
      if k == -1 {
        return;
      }
      ghost var s0 := items;
      items := items[k := Item(value, priority, k)];
      assert Entries(items) == Entries(s0)[k := (value, priority)];
      Fix(this, k);
    }
  }

  /** Go's `up`: moves the item at j toward the root while it is smaller than
      its parent. Go computes the parent as (j - 1) / 2 truncated toward zero,
      so slot 0 is its own parent and stops the loop. */
  method Up<V(==)>(h: MinHeap<V>, j0: int)
    requires 0 <= j0 < |h.items| && Indexed(h.items) && UpReady(h.items, j0)
    modifies h
    ensures Indexed(h.items) && HeapOrdered(h.items, |h.items|)
    ensures |h.items| == |old(h.items)| && Bag(h.items) == Bag(old(h.items))
  {
    var j := j0;
    while true
      invariant 0 <= j < |h.items| && |h.items| == |old(h.items)|
      invariant Indexed(h.items) && UpReady(h.items, j)
      invariant Bag(h.items) == Bag(old(h.items))
      decreases j
    {
      var i := if j == 0 then 0 else Parent(j);
      if i == j || !h.Less(j, i) {
        break;
      }
      h.Swap(i, j);
      j := i;
    }
  }

  /** Go's `down`: moves the item at i0 toward the leaves of the first n
      slots while a child is smaller; reports whether it moved. */
  method Down<V(==)>(h: MinHeap<V>, i0: int, n: int, ghost lo: int) returns (moved: bool)
    requires 0 <= lo <= i0 && 0 <= n <= |h.items|
    requires Indexed(h.items) && DownReady(h.items, n, i0, i0, lo)
    modifies h
    ensures Indexed(h.items) && |h.items| == |old(h.items)| && Bag(h.items) == Bag(old(h.items))
    ensures h.items[n..] == old(h.items)[n..]
    ensures moved ==> forall k {:trigger Parent(k)} :: 0 < k < n && lo <= Parent(k) ==> h.items[Parent(k)].priority <= h.items[k].priority
    ensures !moved ==> h.items == old(h.items)
    ensures !moved ==> forall k {:trigger Parent(k)} :: 0 < k < n && lo <= Parent(k) && k != i0 ==> h.items[Parent(k)].priority <= h.items[k].priority
  {
    var i := i0;
    while true
      invariant DownLoop(h.items, old(h.items), n, i, i0, lo)
      decreases n - i
    {
      var j1 := 2 * i + 1;
      if j1 >= n {
        DownLoopExit(h.items, old(h.items), n, i, i0, lo);
        break;
      }
      var j := j1;
      var j2 := j1 + 1;
      if j2 < n && h.Less(j2, j1) {
        j := j2;
      }
      if !h.Less(j, i) {
        DownLoopExit(h.items, old(h.items), n, i, i0, lo);
        break;
      }
      DownLoopStep(h.items, old(h.items), n, i, j, i0, lo);
      h.Swap(i, j);
      i := j;
    }
    moved := i > i0;
  }
  /** container/heap `Fix`: restores heap order after the item at slot i
      changed its priority (down first; up only if down did not move it). */
  method Fix<V(==)>(h: MinHeap<V>, i: int)
    requires 0 <= i < |h.items| && Indexed(h.items) && DownReady(h.items, |h.items|, i, i, 0)
    modifies h
    ensures h.Valid() && |h.items| == |old(h.items)| && Bag(h.items) == Bag(old(h.items))
  {
    var moved := Down(h, i, h.Len(), 0);
    if !moved {
      Up(h, i);
    }
  }

  /** container/heap `Push`: append through the adapter, then sift up. */
  method HeapPush<V(==)>(h: MinHeap<V>, x: Item<V>)
    requires h.Valid()
    modifies h
    ensures h.Valid() && |h.items| == |old(h.items)| + 1
    ensures Bag(h.items) == Bag(old(h.items)) + multiset{Entry(x)}
  {
    h.Push(x);
    Up(h, h.Len() - 1);
  }

  /** container/heap `Pop`: move the root to the last slot, sift down over
      the others, and take the last slot through the adapter. */
  method HeapPop<V(==)>(h: MinHeap<V>) returns (x: Item<V>)
    requires h.Valid() && |h.items| > 0
    modifies h
    ensures h.Valid() && |h.items| == |old(h.items)| - 1
    ensures x.index == -1 && Entry(x) == Entry(old(h.items)[0])
    ensures Bag(old(h.items)) == Bag(h.items) + multiset{Entry(x)}
    ensures forall k :: 0 <= k < |old(h.items)| ==> x.priority <= old(h.items)[k].priority
    ensures forall e :: e in Bag(old(h.items)) ==> x.priority <= e.1
  {
    ghost var s0 := h.items;
    forall k | 0 <= k < |s0| ensures s0[0].priority <= s0[k].priority {
      RootIsMinimal(s0, |s0|, k);
    }
    forall e | e in Bag(s0) ensures s0[0].priority <= e.1 {
      var k :| 0 <= k < |s0| && Entries(s0)[k] == e;
    }
    var n := h.Len() - 1;
    h.Swap(0, n);
    var _ := Down(h, 0, n, 0);
    x := h.Pop();
  }

  /** container/heap `Init`: sift down every slot that has a child, from the
      last such slot back to the root. */
  method HeapInit<V(==)>(h: MinHeap<V>)
    requires Indexed(h.items)
    modifies h
    ensures h.Valid() && |h.items| == |old(h.items)| && Bag(h.items) == Bag(old(h.items))
  {
    var n := h.Len();
    var i := n / 2 - 1;
    while i >= 0
      invariant -1 <= i <= n / 2 - 1 && |h.items| == n
      invariant Indexed(h.items) && Bag(h.items) == Bag(old(h.items))
      invariant forall k {:trigger Parent(k)} :: 0 < k < n && Parent(k) > i ==> h.items[Parent(k)].priority <= h.items[k].priority
      decreases i
    {
      var _ := Down(h, i, n, i);
      i := i - 1;
    }
  }
}
