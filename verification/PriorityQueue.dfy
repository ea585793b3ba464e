// The binary heap behind the priority queue.
module PriorityQueues {
  import opened Ordering
  import opened Wrappers

  // Indices are computed in the source's 32-bit `int`. A queue of at most SIFTABLE items keeps even
  // the index below the last level within it.
  const MAX_INT := 0x7FFF_FFFF
  const SIFTABLE := 0x4000_0000

  // Division by two in the source's integers truncates.
  function Parent(child: int): (parent: int)
    requires child >= 0
    ensures child > 0 ==> 0 <= parent < child && (child == 2 * parent + 1 || child == 2 * parent + 2)
  {
    if child == 0 then 0 else (child - 1) / 2
  }

  ghost predicate Heap<T>(less: (T, T) -> bool, s: seq<T>) {
    forall i :: 0 < i < |s| ==> !less(s[Parent(i)], s[i])
  }

  // A heap but for the place child, which may be too large for its parent.
  ghost predicate HeapBut<T>(less: (T, T) -> bool, s: seq<T>, child: int) {
    && (forall i :: 0 < i < |s| && i != child ==> !less(s[Parent(i)], s[i]))
    && (forall i :: 0 < i < |s| && Parent(i) == child && child > 0 ==> !less(s[Parent(child)], s[i]))
  }

  // A heap but for the place parent, which may be too small for its children.
  ghost predicate HeapBelow<T>(less: (T, T) -> bool, s: seq<T>, parent: int) {
    && (forall i :: 0 < i < |s| && Parent(i) != parent ==> !less(s[Parent(i)], s[i]))
    && (forall i :: 0 < i < |s| && Parent(i) == parent && 0 < parent ==> !less(s[Parent(parent)], s[i]))
  }

  function Swapped<T>(s: seq<T>, i: nat, j: nat): (t: seq<T>)
    requires i < |s| && j < |s|
    ensures |t| == |s|
  {
    s[i := s[j]][j := s[i]]
  }

  lemma SwapKeepsItems<T>(s: seq<T>, i: nat, j: nat)
    requires i < |s| && j < |s|
    ensures multiset(Swapped(s, i, j)) == multiset(s)
  {
  }

  lemma OnlyTwoChildren(parent: int)
    requires parent >= 0
    ensures forall i :: i > 0 && Parent(i) == parent ==> i == 2 * parent + 1 || i == 2 * parent + 2
    ensures Parent(2 * parent + 1) == parent && Parent(2 * parent + 2) == parent
  {
  }

  // child is a child of parent that no other child exceeds.
  ghost predicate LargestChild<T>(less: (T, T) -> bool, s: seq<T>, parent: int, child: int) {
    && 0 <= parent && 0 < child < |s| && Parent(child) == parent
    && forall i :: 0 < i < |s| && Parent(i) == parent ==> !less(s[child], s[i])
  }

  lemma PicksLargest<T(!new)>(less: (T, T) -> bool, s: seq<T>, parent: int, child: int)
    requires StrictWeakOrder(less) && 0 <= parent && 2 * parent + 1 < |s|
    requires var left, right := 2 * parent + 1, 2 * parent + 2;
             child == if right < |s| && less(s[left], s[right]) then right else left
    ensures LargestChild(less, s, parent, child)
  {
    OnlyTwoChildren(parent);
  }

  lemma RisesOneLevel<T(!new)>(less: (T, T) -> bool, s: seq<T>, child: nat)
    requires StrictWeakOrder(less) && 0 < child < |s| && HeapBut(less, s, child) && less(s[Parent(child)], s[child])
    ensures HeapBut(less, Swapped(s, Parent(child), child), Parent(child))
  {
  }

  lemma SettlesUp<T(!new)>(less: (T, T) -> bool, s: seq<T>, child: nat)
    requires child < |s| && HeapBut(less, s, child) && (child > 0 ==> !less(s[Parent(child)], s[child]))
    ensures Heap(less, s)
  {
  }

  lemma NoChildren<T(!new)>(less: (T, T) -> bool, s: seq<T>, parent: int)
    requires HeapBelow(less, s, parent) && 0 <= parent && |s| <= 2 * parent + 1
    ensures Heap(less, s)
  {
    OnlyTwoChildren(parent);
  }

  lemma SettlesDown<T(!new)>(less: (T, T) -> bool, s: seq<T>, parent: int, child: int)
    requires StrictWeakOrder(less) && HeapBelow(less, s, parent) && LargestChild(less, s, parent, child)
    requires !less(s[parent], s[child])
    ensures Heap(less, s)
  {
    forall i | 0 < i < |s|
      ensures !less(s[Parent(i)], s[i])
    {
      if Parent(i) == parent {
        assert !less(s[child], s[i]);
      }
    }
  }

  lemma SinksOneLevel<T(!new)>(less: (T, T) -> bool, s: seq<T>, parent: int, child: int)
    requires StrictWeakOrder(less) && HeapBelow(less, s, parent) && LargestChild(less, s, parent, child)
    requires less(s[parent], s[child])
    ensures HeapBelow(less, Swapped(s, parent, child), child)
  {
    var t := Swapped(s, parent, child);
    forall i | 0 < i < |t| && Parent(i) != child
      ensures !less(t[Parent(i)], t[i])
    {
      if Parent(i) == parent {
        assert !less(s[child], s[i]);
      } else if i == parent {
        assert !less(s[Parent(parent)], s[child]);
      } else {
        assert t[i] == s[i] && t[Parent(i)] == s[Parent(i)];
      }
    }
    forall i | 0 < i < |t| && Parent(i) == child
      ensures !less(t[parent], t[i])
    {
      assert !less(s[child], s[i]);
    }
  }

  // The root is a maximum.
  lemma {:induction false} RootIsMaximum<T(!new)>(less: (T, T) -> bool, s: seq<T>, i: nat)
    requires StrictWeakOrder(less) && Heap(less, s) && i < |s|
    ensures !less(s[0], s[i])
  {
    if i > 0 {
      RootIsMaximum(less, s, Parent(i));
    }
  }

  class PriorityQueue<T(!new)> {
    const less: (T, T) -> bool
    var items: seq<T>

    ghost predicate Valid()
      reads this
    {
      StrictWeakOrder(less) && Heap(less, items)
    }

    constructor (less: (T, T) -> bool)
      requires StrictWeakOrder(less)
      ensures Valid() && items == [] && this.less == less
    {
      this.less := less;
      items := [];
    }

    // Carries the item at child up to its place.
    method AdjustUpwards(at: nat)
      requires StrictWeakOrder(less) && at < |items| && at <= MAX_INT && HeapBut(less, items, at)
      modifies this`items
      ensures Heap(less, items) && multiset(items) == multiset(old(items)) && |items| == |old(items)|
    {
      hide Heap, HeapBut, Parent, Swapped;
      var child := at;
      var parent := Parent(child);
      while child > 0
        invariant 0 <= child < |items| && parent == Parent(child)
        invariant HeapBut(less, items, child)
        invariant multiset(items) == multiset(old(items)) && |items| == |old(items)|
        decreases child
      {
        if !less(items[parent], items[child]) {
          break;
        }
        RisesOneLevel(less, items, child);
        SwapKeepsItems(items, parent, child);
        items := Swapped(items, parent, child);
        child := parent;
        parent := Parent(child);
      }
      SettlesUp(less, items, child);
    }

    // Carries the item at parent down to its place, unless an index leaves the 32-bit `int`.
    method AdjustDownwards(at: nat) returns (fits: bool)
      requires StrictWeakOrder(less) && HeapBelow(less, items, at)
      requires at == 0 || at < |items|
      modifies this`items
      ensures multiset(items) == multiset(old(items)) && |items| == |old(items)|
      ensures fits ==> Heap(less, items)
      ensures |items| <= SIFTABLE ==> fits
    {
      hide Heap, HeapBelow, LargestChild, Parent, Swapped;
      var parent := at;
      var child := parent * 2 + 1;
      if child > MAX_INT || |items| > MAX_INT {
        return false;
      }
      while child < |items|
        invariant 0 <= parent && child == parent * 2 + 1 && child <= MAX_INT
        invariant parent == 0 || parent < |items|
        invariant HeapBelow(less, items, parent)
        invariant multiset(items) == multiset(old(items)) && |items| == |old(items)|
        decreases |items| - parent
      {
        var left, right := child, child + 1;
        if right < |items| && less(items[left], items[right]) {
          child := right;
        }
        PicksLargest(less, items, parent, child);
        if !less(items[parent], items[child]) {
          SettlesDown(less, items, parent, child);
          return true;
        }
        SwapKeepsItems(items, parent, child);
        SinksOneLevel(less, items, parent, child);
        items := Swapped(items, parent, child);
        parent := child;
        if parent > (MAX_INT - 1) / 2 {
          return false;
        }
        child := parent * 2 + 1;
      }
      NoChildren(less, items, parent);
      fits := true;
    }

    // Adds an item, unless its index does not fit the 32-bit `int`.
    method Push(item: T) returns (fits: bool)
      requires Valid()
      modifies this`items
      ensures fits <==> |old(items)| <= MAX_INT
      ensures fits ==> Valid()
      ensures multiset(items) == multiset(old(items)) + multiset{item} && |items| == |old(items)| + 1
    {
      items := items + [item];
      if |items| - 1 > MAX_INT {
        return false;
      }
      AdjustUpwards(|items| - 1);
      fits := true;
    }

    method Top() returns (top: Option<T>)
      requires Valid()
      ensures top.None? <==> items == []
      ensures top.Some? ==> top.value in items && top.value == items[0] && forall x :: x in items ==>
              !less(top.value, x)
    {
      if |items| == 0 {
        return None;
      }
      forall x | x in items
        ensures !less(items[0], x)
      {
        var i :| 0 <= i < |items| && items[i] == x;
        RootIsMaximum(less, items, i);
      }
      top := Some(items[0]);
    }

    // Removes the root; what fits says is whether the others are a heap again.
    method Pop() returns (fits: bool)
      requires Valid()
      modifies this`items
      ensures fits ==> Valid()
      ensures |old(items)| <= SIFTABLE + 1 ==> fits
      ensures old(items) == [] ==> items == []
      ensures old(items) != [] ==>
                multiset(items) == multiset(old(items)) - multiset{old(items)[0]} && |items| == |old(items)| - 1
    {
      if |items| == 0 {
        return true;
      }
      ghost var was := items;
      var last := |items| - 1;
      SwapKeepsItems(items, 0, last);
      items := Swapped(items, 0, last);
      assert items == items[..last] + [was[0]];
      items := items[..last];
      fits := AdjustDownwards(0);
    }

    // A caller that pops the queue empty sees its items in order, largest first, each as often as
    // it was pushed.
    method Drain() returns (out: seq<T>, fits: bool)
      requires Valid()
      modifies this`items
      ensures |old(items)| <= SIFTABLE + 1 ==> fits
      ensures fits ==> Valid() && items == [] && multiset(out) == multiset(old(items))
      ensures fits ==> Descending(less, out)
    {
      out, fits := [], true;
      while |items| > 0
        invariant Valid() && fits && |items| <= |old(items)|
        invariant multiset(out) + multiset(items) == multiset(old(items))
        invariant Descending(less, out)
        invariant forall i, x :: 0 <= i < |out| && x in items ==> !less(out[i], x)
        decreases |items|
      {
        var top := Top();
        ghost var was := items;
        fits := Pop();
        if !fits {
          return;
        }
        forall x | x in items
          ensures x in was
        {
          assert x in multiset(items);
          assert x in multiset(was);
        }
        out := out + [top.value];
      }
    }
  }

  // No item before a larger one.
  ghost predicate Descending<T>(less: (T, T) -> bool, s: seq<T>) {
    forall i, j :: 0 <= i < j < |s| ==> !less(s[i], s[j])
  }

  // ---------- runs, against a multiset ----------

  datatype QueueOp<T> = PushOp(item: T) | PopOp

  // What is left in a multiset after the operations, when the pops took these items out.
  ghost function Bag<T>(ops: seq<QueueOp<T>>, tops: seq<Option<T>>): multiset<T>
    requires |tops| == |ops|
  {
    if ops == [] then multiset{}
    else
      var n := |ops| - 1;
      var before := Bag(ops[..n], tops[..n]);
      if ops[n].PushOp? then before + multiset{ops[n].item}
      else if tops[n].Some? then before - multiset{tops[n].value} else before
  }

  // A maximum of the bag, or none exactly when it is empty.
  ghost predicate IsTop<T>(less: (T, T) -> bool, bag: multiset<T>, top: Option<T>) {
    match top
    case None => bag == multiset{}
    case Some(x) => x in bag && forall y <- bag :: !less(x, y)
  }

  // Every pop took a maximum of what was there at that time.
  ghost predicate Served<T>(less: (T, T) -> bool, ops: seq<QueueOp<T>>, tops: seq<Option<T>>)
    requires |tops| == |ops|
  {
    forall i :: 0 <= i < |ops| && ops[i].PopOp? ==> IsTop(less, Bag(ops[..i], tops[..i]), tops[i])
  }

  lemma ServedMore<T>(less: (T, T) -> bool, ops: seq<QueueOp<T>>, tops: seq<Option<T>>, op: QueueOp<T>, top: Option<T>)
    requires |tops| == |ops| && Served(less, ops, tops)
    requires op.PopOp? ==> IsTop(less, Bag(ops, tops), top)
    ensures Served(less, ops + [op], tops + [top])
    ensures Bag(ops + [op], tops + [top]) ==
            if op.PushOp? then Bag(ops, tops) + multiset{op.item}
            else if top.Some? then Bag(ops, tops) - multiset{top.value} else Bag(ops, tops)
  {
    var more, longer := ops + [op], tops + [top];
    assert more[..|ops|] == ops && longer[..|ops|] == tops;
    assert forall i :: 0 <= i < |ops| ==> more[..i] == ops[..i] && longer[..i] == tops[..i];
  }

  lemma NothingServed<T>(less: (T, T) -> bool, ops: seq<QueueOp<T>>, tops: seq<Option<T>>)
    requires ops == [] && tops == []
    ensures Served(less, ops, tops) && Bag(ops, tops) == multiset{}
  {
  }

  // One operation on a queue; a pop also reports the item that it takes out.
  method Perform<T(!new)>(queue: PriorityQueue<T>, op: QueueOp<T>) returns (top: Option<T>, fits: bool)
    requires queue.Valid()
    modifies queue
    ensures fits ==> queue.Valid()
    ensures |old(queue.items)| <= SIFTABLE ==> fits
    ensures |queue.items| <= |old(queue.items)| + 1
    ensures op.PopOp? ==> IsTop(queue.less, multiset(old(queue.items)), top)
    ensures multiset(queue.items) ==
            if op.PushOp? then multiset(old(queue.items)) + multiset{op.item}
            else if top.Some? then multiset(old(queue.items)) - multiset{top.value} else multiset(old(queue.items))
  {
    top := None;
    if op.PushOp? {
      fits := queue.Push(op.item);
    } else {
      top := queue.Top();
      fits := queue.Pop();
    }
  }

  // Any sequence of operations on a new queue, which is popped empty in the end: every pop takes a
  // maximum of what a multiset would hold, and what the multiset holds in the end comes out in
  // order.
  method PerformAll<T(!new)>(less: (T, T) -> bool, ops: seq<QueueOp<T>>)
    returns (tops: seq<Option<T>>, out: seq<T>, fits: bool)
    requires StrictWeakOrder(less)
    ensures |ops| <= SIFTABLE ==> fits
    ensures fits ==> |tops| == |ops| && Served(less, ops, tops) && multiset(out) == Bag(ops, tops)
    ensures fits ==> Descending(less, out)
  {
    hide Bag, Served, IsTop, Descending, Heap;
    NothingServed(less, ops[..0], []);
    var queue := new PriorityQueue<T>(less);
    tops, out, fits := [], [], true;
    for i := 0 to |ops|
      invariant fresh(queue) && queue.Valid() && queue.less == less && fits
      invariant |tops| == i && |queue.items| <= i
      invariant Served(less, ops[..i], tops) && multiset(queue.items) == Bag(ops[..i], tops)
    {
      var top;
      top, fits := Perform(queue, ops[i]);
      if !fits {
        return;
      }
      ServedMore(less, ops[..i], tops, ops[i], top);
      assert ops[..i + 1] == ops[..i] + [ops[i]];
      tops := tops + [top];
    }
    assert ops[..|ops|] == ops;
    out, fits := queue.Drain();
  }
}
