// The insertion-ordered hash table: every node hangs in the chain of its bucket and in one doubly
// linked list of all nodes, and growing relinks the chains only.
module HashTables {
  import opened Sequences

  newtype uint64 = x: int | 0 <= x < 0x1_0000_0000_0000_0000

  const MAX_UINT64: uint64 := 0xFFFF_FFFF_FFFF_FFFF

  // The longest vector of 64-bit indices that Rehash can ask for.
  const MAX_INDICES: uint64 := 0x0FFF_FFFF_FFFF_FFFF

  // What a call does: it returns, or it throws one of the two errors of the source.
  datatype Outcome = Returns(ok: bool) | LengthError | LogicError

  // ---------- load arithmetic ----------

  // No step of the computation leaves 64 bits, and it rounds only once.
  function MaximumElementsFor(capacity: uint64, factor: uint64): (most: uint64)
    requires 1 <= factor <= 10
    ensures most as int == capacity as int * factor as int / 10
  {
    LoadSplits(capacity as int, factor as int);
    (capacity / 10) * factor + ((capacity % 10) * factor) / 10
  }

  lemma LoadSplits(capacity: int, factor: int)
    requires 0 <= capacity < 0x1_0000_0000_0000_0000 && 1 <= factor <= 10
    ensures (capacity / 10) * factor + ((capacity % 10) * factor) / 10 == capacity * factor / 10
    ensures 0 <= (capacity / 10) * factor <= capacity && 0 <= (capacity % 10) * factor < 100
    ensures 0 <= capacity * factor / 10 <= capacity
  {
    var q, r := capacity / 10, capacity % 10;
    assert capacity == 10 * q + r;
    Distributes(q, r, factor);
    AtMostTenfold(q, factor);
    AtMostTenfold(r, factor);
    TensOut(q * factor, r * factor);
  }

  lemma Distributes(q: int, r: int, factor: int)
    ensures (10 * q + r) * factor == 10 * (q * factor) + r * factor
  {
  }

  lemma AtMostTenfold(a: int, factor: int)
    requires a >= 0 && 1 <= factor <= 10
    ensures 0 <= a * factor <= 10 * a
  {
  }

  lemma TensOut(p: int, x: int)
    ensures (10 * p + x) / 10 == p + x / 10
  {
  }

  lemma MoreCapacityMoreElements(a: uint64, b: uint64, factor: uint64)
    requires 1 <= factor <= 10 && a <= b
    ensures MaximumElementsFor(a, factor) <= MaximumElementsFor(b, factor)
  {
    hide MaximumElementsFor;
    ProductGrows(a as int, b as int, factor as int);
    QuotientGrows(a as int * factor as int, b as int * factor as int);
  }

  lemma ProductGrows(a: int, b: int, factor: int)
    requires a <= b && factor >= 0
    ensures a * factor <= b * factor
  {
  }

  lemma QuotientGrows(x: int, y: int)
    requires x <= y
    ensures x / 10 <= y / 10
  {
  }

  // b comes from a by doubling, any number of times.
  ghost predicate Doubled(a: int, b: int)
    decreases b
  {
    0 < a && (a == b || (a < b && b % 2 == 0 && Doubled(a, b / 2)))
  }

  lemma DoubledItself(a: int)
    requires a > 0
    ensures Doubled(a, a)
  {
  }

  lemma NoRoomAtZero(factor: uint64)
    requires 1 <= factor <= 10
    ensures MaximumElementsFor(0, factor) == 0
  {
  }

  lemma DoubledOnce(a: int, b: int)
    requires Doubled(a, b)
    ensures Doubled(a, 2 * b) && a <= b
    decreases b
  {
    if a != b {
      DoubledOnce(a, b / 2);
    }
    assert (2 * b) / 2 == b && (2 * b) % 2 == 0;
  }

  // The capacity grew from start by doubling, no further than size elements needed.
  ghost predicate GrewFor(start: uint64, capacity: uint64, size: uint64, factor: uint64)
    requires 1 <= factor <= 10
  {
    && Doubled(start as int, capacity as int)
    && (capacity != start ==> size > MaximumElementsFor(capacity / 2, factor))
  }

  lemma GrowOnce(start: uint64, capacity: uint64, size: uint64, factor: uint64)
    requires 1 <= factor <= 10 && start > 0 && (capacity == start || GrewFor(start, capacity, size, factor))
    requires capacity <= MAX_UINT64 / 2 && size > MaximumElementsFor(capacity, factor)
    ensures GrewFor(start, capacity * 2, size, factor)
  {
    DoubledOnce(start as int, capacity as int);
    assert capacity * 2 / 2 == capacity;
  }

  // Two doublings of one start are a factor of two apart.
  lemma {:induction false} DoublingsApart(a: int, b: int, c: int)
    requires Doubled(a, b) && Doubled(a, c) && b < c
    ensures 2 * b <= c
    decreases c
  {
    DoubledOnce(a, c / 2);
    if a != b {
      DoublingsApart(a, b / 2, c / 2);
    }
  }

  // Doubling start on and on, the elements still do not fit when the next doubling overflows.
  ghost predicate OutgrownAt(start: uint64, elements: uint64, factor: uint64, capacity: uint64)
    requires 1 <= factor <= 10
  {
    Doubled(start as int, capacity as int) && capacity > MAX_UINT64 / 2 &&
      elements > MaximumElementsFor(capacity, factor)
  }

  ghost predicate Outgrown(start: uint64, elements: uint64, factor: uint64)
    requires 1 <= factor <= 10
  {
    exists capacity :: OutgrownAt(start, elements, factor, capacity)
  }

  lemma RoomIsNotOutgrown(start: uint64, elements: uint64, factor: uint64, capacity: uint64)
    requires 1 <= factor <= 10 && Doubled(start as int, capacity as int)
    requires elements <= MaximumElementsFor(capacity, factor)
    ensures !Outgrown(start, elements, factor)
  {
    hide Doubled, MaximumElementsFor;
    forall last | OutgrownAt(start, elements, factor, last)
      ensures false
    {
      if last < capacity {
        DoublingsApart(start as int, last as int, capacity as int);
      } else {
        MoreCapacityMoreElements(capacity, last, factor);
      }
    }
  }

  // As many elements as fit at any load factor into a capacity that cannot be doubled.
  const ALWAYS_FITS: uint64 := 0x8000_0000_0000_0000 / 10

  lemma FewAreNotOutgrown(start: uint64, elements: uint64, factor: uint64)
    requires 1 <= factor <= 10 && elements <= ALWAYS_FITS
    ensures !Outgrown(start, elements, factor)
  {
    hide Doubled;
    forall last | OutgrownAt(start, elements, factor, last)
      ensures false
    {
      ProductGrows(1, factor as int, last as int);
      QuotientGrows(0x8000_0000_0000_0000, last as int * factor as int);
    }
  }

  // No room can be made for one more element.
  ghost predicate CannotGrow(capacity: uint64, size: uint64, factor: uint64)
    requires 1 <= factor <= 10
  {
    size == MAX_UINT64 ||
    (size >= MaximumElementsFor(capacity, factor) &&
     (size > MAX_INDICES || Outgrown(if capacity == 0 then 10 else capacity, size + 1, factor)))
  }

  lemma FewCanGrow(capacity: uint64, size: uint64, factor: uint64)
    requires 1 <= factor <= 10 && size < ALWAYS_FITS
    ensures !CannotGrow(capacity, size, factor)
  {
    FewAreNotOutgrown(if capacity == 0 then 10 else capacity, size + 1, factor);
  }

  // ---------- nodes, in the order in which they were inserted ----------

  class HashNode<V> {
    const data: V
    var next: HashNode?<V> // the next node of the bucket
    var prev: HashNode?<V> // the neighbours in insertion order
    var succ: HashNode?<V>

    constructor (data: V)
      ensures this.data == data && next == null && prev == null && succ == null
    {
      this.data := data;
      next, prev, succ := null, null, null;
    }
  }

  ghost function DataOf<V>(nodes: seq<HashNode<V>>): (values: seq<V>)
    ensures |values| == |nodes| && forall i {:trigger values[i]} :: 0 <= i < |nodes| ==> values[i] == nodes[i].data
  {
    seq(|nodes|, i requires 0 <= i < |nodes| => nodes[i].data)
  }

  lemma DataOfWithout<V>(nodes: seq<HashNode<V>>, k: nat)
    requires k < |nodes|
    ensures DataOf(RemoveAt(nodes, k)) == RemoveAt(DataOf(nodes), k)
  {
  }

  ghost function AsSet<V>(nodes: seq<HashNode<V>>): set<HashNode<V>> {
    set n | n in nodes
  }

  ghost function NodeAt<V>(order: seq<HashNode<V>>, i: int): HashNode?<V> {
    if 0 <= i < |order| then order[i] else null
  }

  // The last of the first n places that holds b, or -1.
  ghost function Latest(slots: seq<int>, n: nat, b: int): (j: int)
    requires n <= |slots|
    ensures -1 <= j < n && (j >= 0 ==> slots[j] == b)
    ensures forall i :: j < i < n ==> slots[i] != b
  {
    if n == 0 then -1 else if slots[n - 1] == b then n - 1 else Latest(slots, n - 1, b)
  }

  lemma LatestStep(slots: seq<int>, n: nat)
    requires n < |slots|
    ensures forall b {:trigger Latest(slots, n + 1, b)} ::
              Latest(slots, n + 1, b) == if slots[n] == b then n else Latest(slots, n, b)
  {
  }

  // Where the i-th place of a sequence is after the k-th was taken out.
  function Shifted(i: int, k: int): int {
    if i > k then i - 1 else i
  }

  lemma {:induction false} LatestPrefix(slots: seq<int>, others: seq<int>, n: nat, b: int)
    requires n <= |slots| && n <= |others| && forall i :: 0 <= i < n ==> slots[i] == others[i]
    ensures Latest(slots, n, b) == Latest(others, n, b)
  {
    if n > 0 {
      LatestPrefix(slots, others, n - 1, b);
    }
  }

  // Taking out a place only moves its own bucket's pointer on to the place before it.
  lemma {:induction false} LatestWithout(slots: seq<int>, k: nat, n: nat, b: int)
    requires k < |slots| && n <= |slots|
    ensures var j := Latest(slots, n, b);
            var there := if j == k then Latest(slots, k, b) else j;
            there != k && Shifted(n, k) <= |RemoveAt(slots, k)| &&
            Latest(RemoveAt(slots, k), Shifted(n, k), b) == Shifted(there, k)
    decreases n
  {
    var less := RemoveAt(slots, k);
    if n <= k + 1 {
      LatestPrefix(slots, less, if n <= k then n else k, b);
    } else {
      LatestWithout(slots, k, n - 1, b);
      assert less[n - 2] == slots[n - 1];
    }
  }

  lemma ShiftedNode<V>(order: seq<HashNode<V>>, k: nat, j: int)
    requires k < |order| && j != k && j <= |order|
    ensures NodeAt(order, j) == NodeAt(RemoveAt(order, k), Shifted(j, k))
  {
  }

  lemma WithoutAt<T>(s: seq<T>, k: nat, j: nat)
    requires k < |s| && j < |s| - 1
    ensures RemoveAt(s, k)[j] == s[if j < k then j else j + 1]
  {
  }

  lemma NodeThere<V>(order: seq<HashNode<V>>, i: nat)
    requires i <= |order|
    ensures if i < |order| then NodeAt(order, i) == order[i] else NodeAt(order, i) == null
  {
  }

  // Where a chain goes on after the k-th place was taken out.
  lemma ShiftedChain<V>(order: seq<HashNode<V>>, slots: seq<int>, k: nat, n: nat, b: int)
    requires k < |order| == |slots| && n <= |order|
    ensures var to := Latest(slots, n, b);
            && Shifted(n, k) <= |RemoveAt(slots, k)|
            && NodeAt(RemoveAt(order, k), Latest(RemoveAt(slots, k), Shifted(n, k), b)) ==
               NodeAt(order, if to == k then Latest(slots, k, b) else to)
  {
    hide RemoveAt, NodeAt;
    LatestWithout(slots, k, n, b);
    var to := Latest(slots, n, b);
    ShiftedNode(order, k, if to == k then Latest(slots, k, b) else to);
  }

  // The neighbours of a place after the k-th was taken out.
  lemma WithoutAround<V>(order: seq<HashNode<V>>, k: nat, j: nat)
    requires k < |order| && j < |order| - 1
    ensures var less, i := RemoveAt(order, k), if j < k then j else j + 1;
            && |less| == |order| - 1 && less[j] == order[i]
            && NodeAt(less, j - 1) == NodeAt(order, if i == k + 1 then k - 1 else i - 1)
            && NodeAt(less, j + 1) == NodeAt(order, if i + 1 == k then k + 1 else i + 1)
  {
  }

  lemma WithoutEnds<V>(order: seq<HashNode<V>>, k: nat)
    requires k < |order|
    ensures var less := RemoveAt(order, k);
            && NodeAt(less, 0) == NodeAt(order, if k == 0 then 1 else 0)
            && NodeAt(less, |less| - 1) == NodeAt(order, if k == |order| - 1 then k - 1 else |order| - 1)
  {
  }

  class HashTable<K(==), V> {
    const keyOf: V -> K
    const hash: K -> uint64
    var buckets: array<HashNode?<V>>
    var size: uint64
    var loadFactor: uint64
    var capacity: uint64
    var tail: HashNode?<V>
    var head: HashNode?<V>
    ghost var order: seq<HashNode<V>>

    function Bucket(key: K, cap: uint64): (b: nat)
      requires cap > 0
      ensures b < cap as int
    {
      (hash(key) % cap) as int
    }

    function Slot(n: HashNode<V>, cap: uint64): (b: nat)
      requires cap > 0
      ensures b < cap as int && b == Bucket(keyOf(n.data), cap)
    {
      Bucket(keyOf(n.data), cap)
    }

    // The buckets of the nodes, in insertion order.
    ghost function Slots(nodes: seq<HashNode<V>>, cap: uint64): (slots: seq<int>)
      ensures |slots| == |nodes|
      ensures forall i {:trigger slots[i]} :: 0 <= i < |nodes| && cap > 0 ==>
              slots[i] == Bucket(keyOf(nodes[i].data), cap)
    {
      seq(|nodes|, i requires 0 <= i < |nodes| => if cap == 0 then 0 else Slot(nodes[i], cap))
    }

    ghost predicate Distinct(nodes: seq<HashNode<V>>) {
      forall i, j :: 0 <= i < j < |nodes| ==> nodes[i] != nodes[j] && keyOf(nodes[i].data) != keyOf(nodes[j].data)
    }

    // The list of all nodes runs through them in insertion order, both ways.
    ghost predicate Linked(nodes: seq<HashNode<V>>)
      reads this`head, this`tail, AsSet(nodes)`prev, AsSet(nodes)`succ
    {
      && (forall i {:trigger nodes[i].prev} :: 0 <= i < |nodes| ==> nodes[i].prev == NodeAt(nodes, i - 1))
      && (forall i {:trigger nodes[i].succ} :: 0 <= i < |nodes| ==> nodes[i].succ == NodeAt(nodes, i + 1))
      && head == NodeAt(nodes, 0) && tail == NodeAt(nodes, |nodes| - 1)
    }

    // The chain of every bucket runs through its nodes from the newest to the oldest.
    ghost predicate Chained(nodes: seq<HashNode<V>>, slots: seq<int>, heads: array<HashNode?<V>>)
      requires |slots| == |nodes|
      reads heads, AsSet(nodes)`next
    {
      && (forall i {:trigger nodes[i].next} :: 0 <= i < |nodes| ==>
            nodes[i].next == NodeAt(nodes, Latest(slots, i, slots[i])))
      && (forall b {:trigger heads[b]} :: 0 <= b < heads.Length ==>
            heads[b] == NodeAt(nodes, Latest(slots, |nodes|, b)))
    }

    ghost predicate Shaped()
      reads this, buckets, AsSet(order)
    {
      && Distinct(order) && Linked(order) && Chained(order, Slots(order, capacity), buckets)
      && buckets.Length == capacity as int && size as int == |order| && (capacity == 0 ==> order == [])
      && 1 <= loadFactor <= 10
    }

    ghost predicate Valid()
      reads this, buckets, AsSet(order)
    {
      Shaped() && size <= MaximumElementsFor(capacity, loadFactor)
    }

    ghost function Contents(): seq<V>
      reads this`order
    {
      DataOf(order)
    }

    constructor (keyOf: V -> K, hash: K -> uint64, capacity: uint64)
      ensures Valid() && Contents() == [] && this.capacity == capacity && loadFactor == 7
      ensures this.keyOf == keyOf && this.hash == hash && fresh(buckets)
    {
      this.keyOf, this.hash := keyOf, hash;
      size, loadFactor, this.capacity := 0, 7, capacity;
      buckets := new HashNode?<V>[capacity as int](_ => null);
      head, tail, order := null, null, [];
    }

    // Rebuilds the bucket chains for a new number of buckets; nothing else moves.
    method Rehash(newCapacity: uint64) returns (outcome: Outcome)
      requires Shaped()
      modifies this`buckets, this`capacity, AsSet(order)`next
      ensures Shaped() && order == old(order)
      ensures outcome == if newCapacity == 0 || size > MAX_INDICES then LengthError else Returns(true)
      ensures outcome.Returns? ==> capacity == newCapacity && fresh(buckets)
      ensures !outcome.Returns? ==> capacity == old(capacity) && buckets == old(buckets) && unchanged(buckets)
    {
      if newCapacity == 0 {
        return LengthError;
      }
      var newBuckets := new HashNode?<V>[newCapacity as int](_ => null);
      if size > MAX_INDICES {
        return LengthError;
      }
      var indices := Indices(newCapacity);
      Relink(newBuckets, indices);
      buckets, capacity := newBuckets, newCapacity;
      outcome := Returns(true);
    }

    // The new bucket of every node, in insertion order.
    method Indices(newCapacity: uint64) returns (indices: seq<int>)
      requires Linked(order) && newCapacity > 0
      ensures indices == Slots(order, newCapacity)
    {
      indices := [];
      var node := head;
      while node != null
        invariant |indices| <= |order| && node == NodeAt(order, |indices|)
        invariant indices == Slots(order, newCapacity)[..|indices|]
        decreases |order| - |indices|
      {
        indices := indices + [Slot(node, newCapacity)];
        node := node.succ;
      }
    }

    // Hangs a node in front of the chain of its bucket.
    method ChainFirst(heads: array<HashNode?<V>>, node: HashNode<V>, bucket: nat,
                      ghost nodes: seq<HashNode<V>>, ghost slots: seq<int>)
      requires bucket < heads.Length && node !in nodes && |slots| == |nodes| && Chained(nodes, slots, heads)
      modifies heads, node`next
      ensures Chained(nodes + [node], slots + [bucket], heads)
    {
      hide Latest;
      ghost var more, places := nodes + [node], slots + [bucket];
      node.next := heads[bucket];
      heads[bucket] := node;
      LatestPrefixes(slots, places);
      LatestStep(places, |slots|);
      forall i | 0 <= i < |more|
        ensures more[i].next == NodeAt(more, Latest(places, i, places[i]))
      {
        var to := Latest(slots, i, places[i]);
        assert NodeAt(more, to) == NodeAt(nodes, to);
        if i < |nodes| {
          assert nodes[i].next == NodeAt(nodes, Latest(slots, i, slots[i]));
        }
      }
      forall b | 0 <= b < heads.Length
        ensures heads[b] == NodeAt(more, Latest(places, |more|, b))
      {
        var to := Latest(slots, |nodes|, b);
        assert places[|slots|] == bucket && Latest(places, |slots|, b) == to;
        assert Latest(places, |slots| + 1, b) == if b == bucket then |slots| else to;
        assert NodeAt(more, to) == NodeAt(nodes, to);
      }
    }

    // Hangs every node in its new bucket, in insertion order.
    method Relink(newBuckets: array<HashNode?<V>>, indices: seq<int>)
      requires Linked(order) && Distinct(order) && |indices| == |order|
      requires forall i :: 0 <= i < |indices| ==> 0 <= indices[i] < newBuckets.Length
      requires forall b :: 0 <= b < newBuckets.Length ==> newBuckets[b] == null
      modifies newBuckets, AsSet(order)`next
      ensures Linked(order) && Chained(order, indices, newBuckets)
    {
      hide Latest;
      var node := head;
      NoChains(newBuckets, order[..0], indices[..0]);
      for i := 0 to |indices|
        invariant node == NodeAt(order, i) && Linked(order)
        invariant Chained(order[..i], indices[..i], newBuckets)
      {
        assert order[..i + 1] == order[..i] + [order[i]] && indices[..i + 1] == indices[..i] + [indices[i]];
        ChainFirst(newBuckets, node, indices[i], order[..i], indices[..i]);
        node := node.succ;
      }
      assert order[..|order|] == order && indices[..|order|] == indices;
    }

    lemma NoChains(heads: array<HashNode?<V>>, nodes: seq<HashNode<V>>, slots: seq<int>)
      requires nodes == [] && slots == [] && forall b :: 0 <= b < heads.Length ==> heads[b] == null
      ensures Chained(nodes, slots, heads)
    {
      forall b | 0 <= b < heads.Length
        ensures heads[b] == NodeAt(nodes, Latest(slots, |nodes|, b))
      {
        assert Latest(slots, |nodes|, b) == -1;
      }
    }

    // Makes room for one more element by doubling the number of buckets as often as needed.
    method EnsureCapacityForOneMore() returns (outcome: Outcome)
      requires Valid()
      modifies this`buckets, this`capacity, AsSet(order)`next
      ensures Valid() && order == old(order) && (buckets == old(buckets) || fresh(buckets))
      ensures outcome == Returns(true) ==> capacity > 0 && size < MaximumElementsFor(capacity, loadFactor)
      ensures outcome == if CannotGrow(old(capacity), size, loadFactor) then LengthError else Returns(true)
      ensures size < MaximumElementsFor(old(capacity), loadFactor) ==>
              outcome == Returns(true) && capacity == old(capacity)
      ensures capacity == old(capacity) ||
              (size < MAX_UINT64 &&
               GrewFor(if old(capacity) == 0 then 10 else old(capacity), capacity, size + 1, loadFactor))
    {
      hide Doubled, MaximumElementsFor, Latest;
      if loadFactor < 1 || loadFactor > 10 {
        return LogicError;
      }
      if size == MAX_UINT64 {
        return LengthError;
      }
      ghost var start := if capacity == 0 then 10 else capacity;
      DoubledItself(start as int);
      while capacity == 0 || size + 1 > MaximumElementsFor(capacity, loadFactor)
        invariant Valid() && order == old(order) && (buckets == old(buckets) || fresh(buckets))
        invariant size < MaximumElementsFor(old(capacity), loadFactor) ==> capacity == old(capacity)
        invariant size < MAX_UINT64 && (capacity == old(capacity) || size <= MAX_INDICES)
        invariant capacity == old(capacity) || GrewFor(start, capacity, size + 1, loadFactor)
        decreases if capacity == 0 then 0x1_0000_0000_0000_0000 else (MAX_UINT64 - capacity) as int
      {
        var newCapacity: uint64;
        NoRoomAtZero(loadFactor);
        if capacity == 0 {
          newCapacity := 10;
        } else {
          if capacity > MAX_UINT64 / 2 {
            assert OutgrownAt(start, size + 1, loadFactor, capacity);
            return LengthError;
          }
          newCapacity := capacity * 2;
          GrowOnce(start, capacity, size + 1, loadFactor);
        }
        MoreCapacityMoreElements(capacity, newCapacity, loadFactor);
        outcome := Rehash(newCapacity);
        if !outcome.Returns? {
          return;
        }
      }
      RoomIsNotOutgrown(start, size + 1, loadFactor, capacity);
      outcome := Returns(true);
    }

    // Doubles the number of buckets until the elements fit, or reports overflow.
    static method FittingCapacity(start: uint64, elements: uint64, factor: uint64)
      returns (capacity: uint64, fits: bool)
      requires 1 <= factor <= 10 && (start == 0 ==> elements == 0)
      ensures capacity == start || GrewFor(start, capacity, elements, factor)
      ensures fits ==> elements <= MaximumElementsFor(capacity, factor) && (capacity == 0 <==> start == 0)
      ensures capacity != start ==> elements > MaximumElementsFor(start, factor)
      ensures fits <==> elements <= MaximumElementsFor(start, factor) || !Outgrown(start, elements, factor)
    {
      hide Doubled, MaximumElementsFor;
      NoRoomAtZero(factor);
      capacity := start;
      if start > 0 {
        DoubledItself(start as int);
      }
      while capacity != 0 && elements > MaximumElementsFor(capacity, factor)
        invariant capacity >= start && (capacity == 0 <==> start == 0)
        invariant capacity == start || GrewFor(start, capacity, elements, factor)
        invariant capacity != start ==> elements > MaximumElementsFor(start, factor)
        decreases MAX_UINT64 - capacity
      {
        if capacity > MAX_UINT64 / 2 {
          assert OutgrownAt(start, elements, factor, capacity);
          return capacity, false;
        }
        GrowOnce(start, capacity, elements, factor);
        capacity := capacity * 2;
      }
      if start > 0 {
        RoomIsNotOutgrown(start, elements, factor, capacity);
      }
      fits := true;
    }

    // Sets the load factor, with more buckets if the elements no longer fit.
    method ChangeLoadFactor(newLoadFactor: uint64) returns (outcome: Outcome)
      requires Valid()
      modifies this`buckets, this`capacity, this`loadFactor, AsSet(order)`next
      ensures Valid() && order == old(order) && (buckets == old(buckets) || fresh(buckets))
      ensures outcome == Returns(false) <==> newLoadFactor < 1 || newLoadFactor > 10
      ensures outcome == Returns(true) ==> loadFactor == newLoadFactor
      ensures outcome != Returns(true) ==>
                loadFactor == old(loadFactor) && capacity == old(capacity) && buckets == old(buckets)
      ensures outcome == LengthError <==>
                && 1 <= newLoadFactor <= 10 && size > MaximumElementsFor(old(capacity), newLoadFactor)
                && (size > MAX_INDICES || Outgrown(old(capacity), size, newLoadFactor))
      ensures outcome != LogicError
      ensures outcome == Returns(true) ==>
                capacity == old(capacity) || GrewFor(old(capacity), capacity, size, newLoadFactor)
    {
      hide MaximumElementsFor, Doubled, Outgrown, GrewFor, Latest;
      if newLoadFactor < 1 || newLoadFactor > 10 {
        return Returns(false);
      }
      var newCapacity := capacity;
      if size != 0 && newCapacity == 0 {
        assert false; // the source would go on with 10 buckets, but a table without buckets is empty
      }
      var fits;
      newCapacity, fits := FittingCapacity(newCapacity, size, newLoadFactor);
      if !fits {
        return LengthError;
      }
      if newCapacity != capacity {
        outcome := Rehash(newCapacity);
        if !outcome.Returns? {
          return;
        }
      }
      loadFactor := newLoadFactor;
      outcome := Returns(true);
    }

    ghost predicate Present(contents: seq<V>, key: K) {
      exists i :: 0 <= i < |contents| && keyOf(contents[i]) == key
    }

    ghost predicate HasKey(key: K)
      reads this
    {
      exists i :: 0 <= i < |order| && keyOf(order[i].data) == key
    }

    // The place of the node with this key, or null if there is none.
    method FindNodeByKey(key: K) returns (node: HashNode?<V>)
      requires Valid()
      ensures node == null ==> !HasKey(key)
      ensures node != null ==> node in order && keyOf(node.data) == key
    {
      if size == 0 || capacity == 0 {
        return null;
      }
      var bucket := Bucket(key, capacity);
      ghost var slots := Slots(order, capacity);
      ghost var at := Latest(slots, |order|, bucket);
      node := buckets[bucket];
      hide Latest, MaximumElementsFor;
      while node != null
        invariant -1 <= at < |order| && node == NodeAt(order, at) && (at >= 0 ==> slots[at] == bucket)
        invariant forall i {:trigger slots[i]} :: at < i < |order| && slots[i] == bucket ==> keyOf(order[i].data) != key
        decreases at
      {
        if keyOf(node.data) == key {
          return;
        }
        node := node.next;
        at := Latest(slots, at, bucket);
      }
      forall i | 0 <= i < |order|
        ensures keyOf(order[i].data) != key
      {
        assert slots[i] == bucket ==> keyOf(order[i].data) != key;
      }
    }

    // Hangs a new node at the end of the list of all nodes.
    method LinkLast(node: HashNode<V>)
      requires node !in order && Distinct(order) && Linked(order)
      modifies this`head, this`tail, node`prev, node`succ, AsSet(order)`succ
      ensures Linked(order + [node])
    {
      node.prev, node.succ := tail, null;
      if tail != null {
        tail.succ := node;
      } else {
        head := node;
      }
      tail := node;
    }

    // Hangs a new node in both structures.
    method Append(node: HashNode<V>)
      requires Shaped() && capacity > 0 && size < MAX_UINT64 && node !in order && !HasKey(keyOf(node.data))
      modifies this`size, this`head, this`tail, this`order, buckets, node, AsSet(order)`succ
      ensures Shaped() && order == old(order) + [node] && size == old(size) + 1
    {
      ghost var slots := Slots(order, capacity);
      var bucket := Slot(node, capacity);
      ChainFirst(buckets, node, bucket, order, slots);
      LinkLast(node);
      order := order + [node];
      size := size + 1;
      assert Slots(order, capacity) == slots + [bucket];
    }

    // Adds a value whose key is not yet there.
    method Push(value: V) returns (outcome: Outcome)
      requires Valid()
      modifies this, buckets, AsSet(order)
      ensures Valid() && loadFactor == old(loadFactor)
      ensures outcome == Returns(false) <==> Present(old(Contents()), keyOf(value))
      ensures outcome == LengthError <==>
                !Present(old(Contents()), keyOf(value)) && CannotGrow(old(capacity), old(size), loadFactor)
      ensures outcome != LogicError
      ensures Contents() == if outcome.Returns? then After(keyOf, old(Contents()), PushOp(value)) else old(Contents())
      ensures |order| >= |old(order)| && order[..|old(order)|] == old(order)
      ensures buckets == old(buckets) || fresh(buckets)
      ensures forall n :: n in order && n !in old(order) ==> fresh(n)
    {
      hide Latest, MaximumElementsFor, CannotGrow, HashTable<K, V>.Linked, HashTable<K, V>.Chained,
        HashTable<K, V>.Distinct;
      ghost var before := Contents();
      var found := FindNodeByKey(keyOf(value));
      assert HasKey(keyOf(value)) <==> Present(before, keyOf(value)) by {
        assert forall i :: 0 <= i < |order| ==> before[i] == order[i].data;
      }
      if found != null {
        return Returns(false);
      }
      var node := new HashNode<V>(value);
      outcome := EnsureCapacityForOneMore();
      if !outcome.Returns? {
        return;
      }
      Append(node);
      assert Contents() == before + [value];
    }

    // Lets what points at the node in its chain point at the one behind it.
    method Bypass(previous: HashNode?<V>, target: HashNode<V>, bucket: nat)
      requires bucket < buckets.Length
      modifies buckets, (if previous == null then {} else {previous})`next
      ensures previous == null ==> buckets[..] == old(buckets[..])[bucket := target.next]
      ensures previous != null ==> previous.next == old(target.next) && buckets[..] == old(buckets[..])
    {
      if previous == null {
        buckets[bucket] := target.next;
      } else {
        previous.next := target.next;
      }
    }

    // Takes the k-th node out of its bucket's chain; previous is the one that points at it there,
    // or null if the bucket does.
    method Unchain(previous: HashNode?<V>, target: HashNode<V>, bucket: nat, ghost before: nat, ghost k: nat,
                   ghost slots: seq<int>)
      requires Distinct(order) && bucket < buckets.Length && k < before <= |order| && order[k] == target
      requires |slots| == |order| && slots[k] == bucket && Chained(order, slots, buckets)
      requires Latest(slots, before, bucket) == k && previous == NodeAt(order, before)
      requires if before < |order| then slots[before] == bucket else before == |order|
      modifies buckets, AsSet(order)`next
      ensures Chained(RemoveAt(order, k), RemoveAt(slots, k), buckets)
    {
      hide Latest, RemoveAt, NodeAt;
      ghost var less, left := RemoveAt(order, k), RemoveAt(slots, k);
      NodeThere(order, before);
      NodeThere(order, k);
      Bypass(previous, target, bucket);
      forall j | 0 <= j < |less|
        ensures less[j].next == NodeAt(less, Latest(left, j, left[j]))
      {
        var i := if j < k then j else j + 1;
        ShiftedChain(order, slots, k, i, slots[i]);
        WithoutAt(order, k, j);
        WithoutAt(slots, k, j);
      }
      forall b | 0 <= b < buckets.Length
        ensures buckets[b] == NodeAt(less, Latest(left, |less|, b))
      {
        ShiftedChain(order, slots, k, |order|, b);
      }
    }

    // Takes the k-th node out of the list of all nodes.
    method Unlink(target: HashNode<V>, ghost k: nat)
      requires Distinct(order) && Linked(order) && k < |order| && order[k] == target
      modifies this`head, this`tail, AsSet(order)`prev, AsSet(order)`succ
      ensures Linked(RemoveAt(order, k))
    {
      ghost var less := RemoveAt(order, k);
      if target.prev != null {
        target.prev.succ := target.succ;
      } else {
        head := target.succ;
      }
      if target.succ != null {
        target.succ.prev := target.prev;
      } else {
        tail := target.prev;
      }
      hide NodeAt, RemoveAt;
      forall j | 0 <= j < |less|
        ensures less[j].prev == NodeAt(less, j - 1) && less[j].succ == NodeAt(less, j + 1)
      {
        WithoutAround(order, k, j);
      }
      WithoutEnds(order, k);
    }

    lemma DistinctWithout(nodes: seq<HashNode<V>>, k: nat)
      requires Distinct(nodes) && k < |nodes|
      ensures Distinct(RemoveAt(nodes, k)) && nodes[k] !in RemoveAt(nodes, k)
    {
      var less := RemoveAt(nodes, k);
      assert forall j :: 0 <= j < |less| ==> less[j] == nodes[if j < k then j else j + 1];
    }

    // Takes the k-th node out of both structures.
    method TakeOut(previous: HashNode?<V>, target: HashNode<V>, bucket: nat, ghost before: nat, ghost k: nat)
      requires Shaped() && bucket < buckets.Length
      requires k < before <= |order| && order[k] == target && Slots(order, capacity)[k] == bucket
      requires Latest(Slots(order, capacity), before, bucket) == k && previous == NodeAt(order, before)
      requires if before < |order| then Slots(order, capacity)[before] == bucket else before == |order|
      modifies this`size, this`head, this`tail, this`order, buckets, AsSet(order)
      ensures Shaped() && order == RemoveAt(old(order), k) && size == old(size) - 1
    {
      hide Latest, RemoveAt, NodeAt, HashTable<K, V>.Slots, HashTable<K, V>.Linked,
        HashTable<K, V>.Distinct, HashTable<K, V>.Slot, HashTable<K, V>.Bucket;
      ghost var slots, less := Slots(order, capacity), RemoveAt(order, k);
      SlotsWithout(order, capacity, k);
      Unchain(previous, target, bucket, before, k, slots);
      assert Chained(less, Slots(less, capacity), buckets);
      Unlink(target, k);
      assert Chained(less, Slots(less, capacity), buckets);
      DistinctWithout(order, k);
      order := less;
      size := size - 1;
      assert Chained(order, Slots(order, capacity), buckets);
      assert Linked(order);
      assert Distinct(order);
    }

    lemma SlotsWithout(nodes: seq<HashNode<V>>, cap: uint64, k: nat)
      requires k < |nodes|
      ensures Slots(RemoveAt(nodes, k), cap) == RemoveAt(Slots(nodes, cap), k)
    {
    }

    // Walks the chain of a bucket to a node, if it hangs there.
    method FindInChain(target: HashNode<V>, bucket: nat, ghost k: nat)
      returns (previous: HashNode?<V>, node: HashNode?<V>, ghost before: nat)
      requires Shaped() && bucket < buckets.Length && k < |order| && order[k] == target
      ensures node == null <==> Slots(order, capacity)[k] != bucket
      ensures node != null ==>
                && node == target && k < before <= |order| && Latest(Slots(order, capacity), before, bucket) == k
                && previous == NodeAt(order, before)
                && if before < |order| then Slots(order, capacity)[before] == bucket else before == |order|
    {
      ghost var slots := Slots(order, capacity);
      ghost var at := Latest(slots, |order|, bucket);
      before, previous, node := |order|, null, buckets[bucket];
      hide Latest;
      while node != null && node != target
        invariant -1 <= at < |order| && node == NodeAt(order, at) && (at >= 0 ==> slots[at] == bucket)
        invariant 0 <= before <= |order| && at == Latest(slots, before, bucket)
        invariant previous == NodeAt(order, before) && (before < |order| ==> slots[before] == bucket)
        invariant k > at ==> slots[k] != bucket
        decreases at
      {
        previous, before := node, at;
        node := node.next;
        at := Latest(slots, at, bucket);
      }
    }

    // Unlinks a node from its bucket's chain and from the list, if it hangs in that bucket.
    method EraseNode(target: HashNode<V>, bucket: nat) returns (erased: bool)
      requires Valid() && bucket < buckets.Length && target in order
      modifies this`size, this`head, this`tail, this`order, buckets, AsSet(order)
      ensures Valid()
      ensures erased <==> bucket == Slot(target, capacity)
      ensures if erased
              then exists k :: 0 <= k < |old(order)| && old(order)[k] == target && order == RemoveAt(old(order), k)
              else order == old(order)
    {
      ghost var k :| 0 <= k < |order| && order[k] == target;
      var previous, node;
      ghost var before;
      previous, node, before := FindInChain(target, bucket, k);
      if node == null {
        return false;
      }
      TakeOut(previous, target, bucket, before, k);
      erased := true;
    }

    lemma ContentsUnique()
      requires Valid()
      ensures UniqueKeys(keyOf, Contents()) && |Contents()| == size as int && 1 <= loadFactor <= 10
    {
    }

    // Removes the element with this key.
    method PopKey(key: K) returns (popped: bool)
      requires Valid()
      modifies this`size, this`head, this`tail, this`order, buckets, AsSet(order)
      ensures Valid()
      ensures popped <==> Present(old(Contents()), key)
      ensures Contents() == After(keyOf, old(Contents()), PopOp(key))
      ensures order == old(order) || exists k :: 0 <= k < |old(order)| && order == RemoveAt(old(order), k)
    {
      hide Latest, MaximumElementsFor, RemoveAt, HashTable<K, V>.Linked, HashTable<K, V>.Chained,
        HashTable<K, V>.Distinct;
      ghost var before, was := Contents(), order;
      ContentsUnique();
      assert HasKey(key) <==> Present(before, key) by {
        assert forall i :: 0 <= i < |order| ==> before[i] == order[i].data;
      }
      if capacity == 0 {
        return false;
      }
      var target := FindNodeByKey(key);
      if target == null {
        return false;
      }
      popped := EraseNode(target, Bucket(key, capacity));
      ghost var k :| 0 <= k < |was| && was[k] == target && order == RemoveAt(was, k);
      PlaceIs(keyOf, before, key, k);
      DataOfWithout(was, k);
    }

    // Removes the element with the value's key.
    method Pop(value: V) returns (popped: bool)
      requires Valid()
      modifies this`size, this`head, this`tail, this`order, buckets, AsSet(order)
      ensures Valid()
      ensures popped <==> Present(old(Contents()), keyOf(value))
      ensures Contents() == After(keyOf, old(Contents()), PopOp(keyOf(value)))
      ensures order == old(order) || exists k :: 0 <= k < |old(order)| && order == RemoveAt(old(order), k)
    {
      popped := PopKey(keyOf(value));
    }

    // A copy: its own nodes, the same elements in the same order and the same bucket settings.
    constructor Copy(other: HashTable<K, V>)
      requires other.Valid()
      ensures Valid() && Contents() == other.Contents()
      ensures keyOf == other.keyOf && hash == other.hash
      ensures capacity == other.capacity && loadFactor == other.loadFactor
      ensures fresh(buckets) && forall n :: n in order ==> fresh(n)
    {
      keyOf, hash := other.keyOf, other.hash;
      size, loadFactor, capacity := 0, other.loadFactor, other.capacity;
      buckets := new HashNode?<V>[other.capacity as int](_ => null);
      head, tail, order := null, null, [];
      new;
      if capacity == 0 {
        return;
      }
      CopyNodes(other);
    }

    method CopyNodes(other: HashTable<K, V>)
      requires Shaped() && order == [] && capacity > 0 && size == 0
      requires other.Valid() && other != this && other.buckets != buckets && keyOf == other.keyOf
      modifies this`size, this`head, this`tail, this`order, buckets
      ensures Shaped() && DataOf(order) == DataOf(other.order)
      ensures forall n :: n in order ==> fresh(n)
    {
      hide Latest, MaximumElementsFor, HashTable<K, V>.Chained, HashTable<K, V>.Distinct;
      ghost var theirs := other.order;
      SameDistinct(other, theirs);
      var source := other.head;
      while source != null
        invariant Shaped() && |order| <= |theirs| && source == NodeAt(theirs, |order|)
        invariant forall i {:trigger theirs[i].succ} :: 0 <= i < |theirs| ==> theirs[i].succ == NodeAt(theirs, i + 1)
        invariant forall i {:trigger order[i].data} :: 0 <= i < |order| ==> order[i].data == theirs[i].data
        invariant forall n :: n in order ==> fresh(n)
        decreases |theirs| - |order|
      {
        NextIsNew(theirs);
        var node := new HashNode<V>(source.data);
        Append(node);
        source := source.succ;
      }
    }

    lemma SameDistinct(other: HashTable<K, V>, nodes: seq<HashNode<V>>)
      requires keyOf == other.keyOf && other.Distinct(nodes)
      ensures Distinct(nodes)
    {
    }

    // The next element of the other table has a key of its own.
    lemma NextIsNew(theirs: seq<HashNode<V>>)
      requires Distinct(theirs) && |order| < |theirs|
      requires forall i {:trigger order[i].data} :: 0 <= i < |order| ==> order[i].data == theirs[i].data
      ensures !HasKey(keyOf(theirs[|order|].data))
    {
    }

    // Iteration from Begin to End over the insertion list.
    method Walk() returns (values: seq<V>)
      requires Valid()
      ensures values == Contents()
    {
      values := [];
      var node := head;
      while node != null
        invariant |values| <= |order| && node == NodeAt(order, |values|) && values == Contents()[..|values|]
        decreases |order| - |values|
      {
        values := values + [node.data];
        node := node.succ;
      }
    }

    // The nodes of the first b buckets have been freed, and those of the next one that come after
    // place at.
    ghost predicate FreedSoFar(freed: seq<HashNode<V>>, nodes: seq<HashNode<V>>, slots: seq<int>, b: int, at: int)
      requires |slots| == |nodes|
    {
      && (forall i, j :: 0 <= i < j < |freed| ==> freed[i] != freed[j])
      && (forall n :: n in freed ==> n in nodes)
      && (forall i {:trigger nodes[i]} :: 0 <= i < |nodes| ==>
            (nodes[i] in freed <==> slots[i] < b || (slots[i] == b && i > at)))
    }

    // Frees the nodes of one bucket.
    method FreeChain(b: nat, ghost slots: seq<int>, ghost freed: seq<HashNode<V>>)
      returns (ghost more: seq<HashNode<V>>)
      requires b < buckets.Length && Distinct(order) && |slots| == |order|
      requires forall i {:trigger order[i].next} :: 0 <= i < |order| ==>
                 order[i].next == NodeAt(order, Latest(slots, i, slots[i]))
      requires buckets[b] == NodeAt(order, Latest(slots, |order|, b))
      requires FreedSoFar(freed, order, slots, b, |order|)
      ensures FreedSoFar(more, order, slots, b + 1, |order|)
    {
      more := freed;
      var node := buckets[b];
      ghost var at := Latest(slots, |order|, b);
      hide Latest;
      while node != null
        invariant -1 <= at < |order| && node == NodeAt(order, at) && (at >= 0 ==> slots[at] == b)
        invariant FreedSoFar(more, order, slots, b, at)
        decreases at
      {
        var next := node.next;
        assert node !in more; // freed now, and only now
        more := more + [node];
        node := next;
        at := Latest(slots, at, b);
      }
    }

    method FreeChains() returns (ghost freed: seq<HashNode<V>>)
      requires Valid()
      modifies buckets
      ensures forall b :: 0 <= b < buckets.Length ==> buckets[b] == null
      ensures forall i, j :: 0 <= i < j < |freed| ==> freed[i] != freed[j]
      ensures forall n :: n in freed <==> n in order
    {
      ghost var slots := Slots(order, capacity);
      freed := [];
      for b := 0 to buckets.Length
        invariant forall c {:trigger buckets[c]} :: b <= c < buckets.Length ==>
                    buckets[c] == NodeAt(order, Latest(slots, |order|, c))
        invariant forall c {:trigger buckets[c]} :: 0 <= c < b ==> buckets[c] == null
        invariant FreedSoFar(freed, order, slots, b, |order|)
      {
        freed := FreeChain(b, slots, freed);
        buckets[b] := null;
      }
      forall n | n in order
        ensures n in freed
      {
        var i :| 0 <= i < |order| && order[i] == n;
        assert slots[i] < buckets.Length;
      }
    }

    // Frees all nodes, bucket by bucket, each of them once; the bucket array stays.
    method ClearNodes() returns (ghost freed: seq<HashNode<V>>)
      requires Valid()
      modifies this`size, this`head, this`tail, this`order, buckets
      ensures Valid() && Contents() == [] && buckets == old(buckets) && capacity == old(capacity)
      ensures forall i, j :: 0 <= i < j < |freed| ==> freed[i] != freed[j]
      ensures forall n :: n in freed <==> n in old(order)
    {
      freed := FreeChains();
      size, tail, head := 0, null, null;
      order := [];
    }
  }

  lemma LatestPrefixes(slots: seq<int>, more: seq<int>)
    requires |slots| <= |more| && forall i :: 0 <= i < |slots| ==> more[i] == slots[i]
    ensures forall n, b {:trigger Latest(more, n, b)} :: 0 <= n <= |slots| ==> Latest(more, n, b) == Latest(slots, n, b)
  {
    forall n, b | 0 <= n <= |slots|
      ensures Latest(more, n, b) == Latest(slots, n, b)
    {
      LatestPrefix(slots, more, n, b);
    }
  }

  // ---------- what the chains hold ----------

  // The places that a walk from the last one of the first n in bucket b passes.
  ghost function ChainFrom(slots: seq<int>, n: nat, b: int): seq<int>
    requires n <= |slots|
  {
    var j := Latest(slots, n, b);
    if j < 0 then [] else [j] + ChainFrom(slots, j, b)
  }

  // A bucket's chain passes every one of its nodes exactly once, from the newest to the oldest,
  // and no node of another bucket.
  lemma {:induction false} ChainExact(slots: seq<int>, n: nat, b: int)
    requires n <= |slots|
    ensures forall i :: i in ChainFrom(slots, n, b) <==> 0 <= i < n && slots[i] == b
    ensures forall x, y :: 0 <= x < y < |ChainFrom(slots, n, b)| ==>
              ChainFrom(slots, n, b)[x] > ChainFrom(slots, n, b)[y]
  {
    var j := Latest(slots, n, b);
    if j >= 0 {
      ChainExact(slots, j, b);
      var rest := ChainFrom(slots, j, b);
      assert ChainFrom(slots, n, b) == [j] + rest;
      forall y | 0 <= y < |rest|
        ensures rest[y] < j
      {
        assert rest[y] in rest;
      }
    }
  }

  // So a bucket's chain holds exactly the nodes whose hash falls into the bucket.
  lemma ChainByHash<K, V>(table: HashTable<K, V>, b: nat)
    requires table.Valid() && b < table.buckets.Length
    ensures var chain := ChainFrom(table.Slots(table.order, table.capacity), |table.order|, b);
            forall i :: i in chain <==>
              0 <= i < |table.order| && table.hash(table.keyOf(table.order[i].data)) as int % table.capacity as int == b
  {
    ChainExact(table.Slots(table.order, table.capacity), |table.order|, b);
  }

  // ---------- runs, against a map with unique keys ----------

  datatype Op<K, V> = PushOp(value: V) | PopOp(key: K) | FactorOp(factor: uint64) | CopyOp

  // An operation, and whether it ended in the overflow error.
  datatype Step<K, V> = Step(op: Op<K, V>, refused: bool)

  ghost predicate UniqueKeys<K, V>(keyOf: V -> K, s: seq<V>) {
    forall i, j :: 0 <= i < j < |s| ==> keyOf(s[i]) != keyOf(s[j])
  }

  function PlaceOf<K(==), V>(keyOf: V -> K, s: seq<V>, key: K): (i: int)
    ensures -1 <= i < |s| && (i >= 0 ==> keyOf(s[i]) == key)
    ensures i < 0 ==> forall j :: 0 <= j < |s| ==> keyOf(s[j]) != key
  {
    if s == [] then -1
    else if keyOf(s[|s| - 1]) == key then |s| - 1
    else PlaceOf(keyOf, s[..|s| - 1], key)
  }

  // What an operation does to the contents.
  function After<K(==), V>(keyOf: V -> K, s: seq<V>, op: Op<K, V>): seq<V> {
    match op
    case PushOp(v) => if PlaceOf(keyOf, s, keyOf(v)) < 0 then s + [v] else s
    case PopOp(key) => var i := PlaceOf(keyOf, s, key); if i < 0 then s else RemoveAt(s, i)
    case FactorOp(_) => s
    case CopyOp => s
  }

  function StepAfter<K(==), V>(keyOf: V -> K, s: seq<V>, step: Step<K, V>): seq<V> {
    if step.refused then s else After(keyOf, s, step.op)
  }

  ghost function KeySet<K, V>(keyOf: V -> K, s: seq<V>): set<K> {
    set i | 0 <= i < |s| :: keyOf(s[i])
  }

  // The contents as a map.
  ghost function ToMap<K, V>(keyOf: V -> K, s: seq<V>): map<K, V> {
    map key | key in KeySet(keyOf, s) :: s[PlaceOf(keyOf, s, key)]
  }

  ghost function MapAfter<K, V>(keyOf: V -> K, m: map<K, V>, op: Op<K, V>): map<K, V> {
    match op
    case PushOp(v) => if keyOf(v) in m then m else m[keyOf(v) := v]
    case PopOp(key) => m - {key}
    case FactorOp(_) => m
    case CopyOp => m
  }

  lemma PlaceIs<K, V>(keyOf: V -> K, s: seq<V>, key: K, i: int)
    requires UniqueKeys(keyOf, s) && 0 <= i < |s| && keyOf(s[i]) == key
    ensures PlaceOf(keyOf, s, key) == i && key in KeySet(keyOf, s)
  {
  }

  lemma IsMapOf<K, V>(keyOf: V -> K, t: seq<V>, m: map<K, V>)
    requires UniqueKeys(keyOf, t)
    requires forall i :: 0 <= i < |t| ==> keyOf(t[i]) in m && m[keyOf(t[i])] == t[i]
    requires m.Keys <= KeySet(keyOf, t)
    ensures ToMap(keyOf, t) == m
  {
    assert m.Keys == KeySet(keyOf, t);
  }

  lemma PushRefines<K, V>(keyOf: V -> K, s: seq<V>, v: V)
    requires UniqueKeys(keyOf, s) && PlaceOf(keyOf, s, keyOf(v)) < 0
    ensures UniqueKeys(keyOf, s + [v]) && ToMap(keyOf, s + [v]) == ToMap(keyOf, s)[keyOf(v) := v]
  {
    var t, m := s + [v], ToMap(keyOf, s)[keyOf(v) := v];
    forall i | 0 <= i < |s|
      ensures keyOf(t[i]) in m && m[keyOf(t[i])] == t[i]
    {
      PlaceIs(keyOf, s, keyOf(s[i]), i);
    }
    forall key | key in m
      ensures key in KeySet(keyOf, t)
    {
      var i := if key == keyOf(v) then |s| else PlaceOf(keyOf, s, key);
      assert keyOf(t[i]) == key;
    }
    IsMapOf(keyOf, t, m);
  }

  lemma PopRefines<K, V>(keyOf: V -> K, s: seq<V>, k: nat)
    requires UniqueKeys(keyOf, s) && k < |s|
    ensures UniqueKeys(keyOf, RemoveAt(s, k)) && ToMap(keyOf, RemoveAt(s, k)) == ToMap(keyOf, s) - {keyOf(s[k])}
  {
    var t, m := RemoveAt(s, k), ToMap(keyOf, s) - {keyOf(s[k])};
    assert forall i :: 0 <= i < |t| ==> t[i] == s[if i < k then i else i + 1];
    forall i | 0 <= i < |t|
      ensures keyOf(t[i]) in m && m[keyOf(t[i])] == t[i]
    {
      var was := if i < k then i else i + 1;
      PlaceIs(keyOf, s, keyOf(s[was]), was);
    }
    forall key | key in m
      ensures key in KeySet(keyOf, t)
    {
      var i := PlaceOf(keyOf, s, key);
      assert keyOf(t[Shifted(i, k)]) == key;
    }
    IsMapOf(keyOf, t, m);
  }

  // One operation on the table is one operation on the map.
  lemma AfterRefines<K, V>(keyOf: V -> K, s: seq<V>, op: Op<K, V>)
    requires UniqueKeys(keyOf, s)
    ensures UniqueKeys(keyOf, After(keyOf, s, op))
    ensures ToMap(keyOf, After(keyOf, s, op)) == MapAfter(keyOf, ToMap(keyOf, s), op)
  {
    match op {
      case PushOp(v) =>
        if PlaceOf(keyOf, s, keyOf(v)) < 0 {
          PushRefines(keyOf, s, v);
        } else {
          PlaceIs(keyOf, s, keyOf(v), PlaceOf(keyOf, s, keyOf(v)));
        }
      case PopOp(key) =>
        var k := PlaceOf(keyOf, s, key);
        if k >= 0 {
          PopRefines(keyOf, s, k);
        } else {
          assert key !in KeySet(keyOf, s);
        }
      case FactorOp(_) =>
      case CopyOp =>
    }
  }

  ghost function Run<K, V>(keyOf: V -> K, steps: seq<Step<K, V>>): seq<V> {
    if steps == [] then [] else StepAfter(keyOf, Run(keyOf, steps[..|steps| - 1]), steps[|steps| - 1])
  }

  ghost function MapRun<K, V>(keyOf: V -> K, steps: seq<Step<K, V>>): map<K, V> {
    if steps == [] then map[]
    else
      var m, last := MapRun(keyOf, steps[..|steps| - 1]), steps[|steps| - 1];
      if last.refused then m else MapAfter(keyOf, m, last.op)
  }

  // The elements of s were pushed at these places of the run, in this order.
  ghost predicate PushedAt<K, V>(steps: seq<Step<K, V>>, s: seq<V>, places: seq<int>) {
    && |places| == |s| && (forall i, j :: 0 <= i < j < |places| ==> places[i] < places[j])
    && forall i :: 0 <= i < |places| ==> 0 <= places[i] < |steps| && steps[places[i]] == Step(PushOp(s[i]), false)
  }

  lemma PushedWithout<K, V>(steps: seq<Step<K, V>>, s: seq<V>, places: seq<int>, k: nat)
    requires PushedAt(steps, s, places) && k < |s|
    ensures PushedAt(steps, RemoveAt(s, k), RemoveAt(places, k))
  {
    var left, t := RemoveAt(places, k), RemoveAt(s, k);
    assert forall i :: 0 <= i < |left| ==> left[i] == places[if i < k then i else i + 1];
    assert forall i :: 0 <= i < |t| ==> t[i] == s[if i < k then i else i + 1];
  }

  lemma PushedMore<K, V>(steps: seq<Step<K, V>>, step: Step<K, V>, s: seq<V>, places: seq<int>)
    requires PushedAt(steps, s, places)
    ensures |places| == |s| && PushedAt(steps + [step], s, places)
    ensures step.op.PushOp? && !step.refused ==> PushedAt(steps + [step], s + [step.op.value], places + [|steps|])
  {
  }

  lemma PushedStep<K, V>(keyOf: V -> K, steps: seq<Step<K, V>>, step: Step<K, V>, s: seq<V>, places: seq<int>)
    returns (next: seq<int>)
    requires PushedAt(steps, s, places)
    ensures PushedAt(steps + [step], StepAfter(keyOf, s, step), next)
  {
    hide PushedAt, PlaceOf;
    PushedMore(steps, step, s, places);
    next := places;
    if step.refused {
      return;
    }
    match step.op {
      case PushOp(v) =>
        if PlaceOf(keyOf, s, keyOf(v)) < 0 {
          next := places + [|steps|];
        }
      case PopOp(key) =>
        var k := PlaceOf(keyOf, s, key);
        if k >= 0 {
          next := RemoveAt(places, k);
          PushedWithout(steps + [step], s, places, k);
        }
      case FactorOp(_) =>
      case CopyOp =>
    }
  }

  // Over any run the contents are a map with unique keys that is iterated in insertion order: the
  // places of its elements in the run, where each of them was pushed, increase.
  lemma {:induction false} RunRefines<K, V>(keyOf: V -> K, steps: seq<Step<K, V>>) returns (pushed: seq<int>)
    ensures UniqueKeys(keyOf, Run(keyOf, steps)) && ToMap(keyOf, Run(keyOf, steps)) == MapRun(keyOf, steps)
    ensures PushedAt(steps, Run(keyOf, steps), pushed)
  {
    if steps == [] {
      return [];
    }
    var earlier, step := steps[..|steps| - 1], steps[|steps| - 1];
    pushed := RunRefines(keyOf, earlier);
    AfterRefines(keyOf, Run(keyOf, earlier), step.op);
    hide After, MapAfter, UniqueKeys, ToMap, PushedAt;
    pushed := PushedStep(keyOf, earlier, step, Run(keyOf, earlier), pushed);
    assert steps == earlier + [step];
  }

  // Performs one operation on a table; a copy takes the place of its original.
  method Perform<K(==), V>(table: HashTable<K, V>, op: Op<K, V>) returns (next: HashTable<K, V>, refused: bool)
    requires table.Valid()
    modifies table, table.buckets, AsSet(table.order)
    ensures next.Valid() && next.keyOf == table.keyOf && next.hash == table.hash
    ensures next.Contents() == StepAfter(table.keyOf, old(table.Contents()), Step(op, refused))
    ensures refused ==> |old(table.Contents())| >= ALWAYS_FITS as int
    ensures next == table || fresh(next)
    ensures next.buckets == old(table.buckets) || fresh(next.buckets)
    ensures forall n :: n in next.order && n !in old(table.order) ==> fresh(n)
  {
    hide PlaceOf, HashTable<K, V>.Shaped, CannotGrow, Outgrown, MaximumElementsFor;
    table.ContentsUnique();
    FewCanGrow(table.capacity, if table.size < ALWAYS_FITS then table.size else 0, table.loadFactor);
    if op.FactorOp? && 1 <= op.factor <= 10 && table.size < ALWAYS_FITS {
      FewAreNotOutgrown(table.capacity, table.size, op.factor);
    }
    next, refused := table, false;
    if op.PushOp? {
      var outcome := table.Push(op.value);
      refused := outcome == LengthError;
    } else if op.PopOp? {
      var popped := table.PopKey(op.key);
    } else if op.FactorOp? {
      var outcome := table.ChangeLoadFactor(op.factor);
      refused := outcome == LengthError;
    } else {
      next := new HashTable<K, V>.Copy(table);
    }
  }

  lemma {:induction false} RunIsShort<K, V>(keyOf: V -> K, steps: seq<Step<K, V>>)
    ensures |Run(keyOf, steps)| <= |steps|
  {
    if steps != [] {
      RunIsShort(keyOf, steps[..|steps| - 1]);
    }
  }

  // Only a table that held at least ALWAYS_FITS elements refused an operation.
  ghost predicate OnlyFullRefused<K, V>(keyOf: V -> K, steps: seq<Step<K, V>>) {
    forall i :: 0 <= i < |steps| && steps[i].refused ==> |Run(keyOf, steps[..i])| >= ALWAYS_FITS as int
  }

  lemma OneMoreStep<K, V>(keyOf: V -> K, steps: seq<Step<K, V>>, step: Step<K, V>)
    requires OnlyFullRefused(keyOf, steps) && (step.refused ==> |Run(keyOf, steps)| >= ALWAYS_FITS as int)
    ensures OnlyFullRefused(keyOf, steps + [step])
    ensures Run(keyOf, steps + [step]) == StepAfter(keyOf, Run(keyOf, steps), step)
  {
    assert (steps + [step])[..|steps|] == steps;
    assert forall i :: 0 <= i < |steps| ==> (steps + [step])[..i] == steps[..i];
  }

  lemma FewNeverRefused<K, V>(keyOf: V -> K, steps: seq<Step<K, V>>)
    requires OnlyFullRefused(keyOf, steps) && |steps| <= ALWAYS_FITS as int
    ensures forall i :: 0 <= i < |steps| ==> !steps[i].refused
  {
    forall i | 0 <= i < |steps|
      ensures !steps[i].refused
    {
      RunIsShort(keyOf, steps[..i]);
    }
  }

  // Any sequence of operations on a new table: in the end it holds what the same operations leave
  // in a map, in the order of the pushes.
  method PerformAll<K(==), V>(keyOf: V -> K, hash: K -> uint64, capacity: uint64, ops: seq<Op<K, V>>)
    returns (table: HashTable<K, V>, steps: seq<Step<K, V>>)
    ensures table.Valid() && table.keyOf == keyOf && table.hash == hash
    ensures |steps| == |ops| && forall i :: 0 <= i < |ops| ==> steps[i].op == ops[i]
    ensures table.Contents() == Run(keyOf, steps)
    ensures UniqueKeys(keyOf, table.Contents()) && ToMap(keyOf, table.Contents()) == MapRun(keyOf, steps)
    ensures exists places :: PushedAt(steps, table.Contents(), places)
    ensures OnlyFullRefused(keyOf, steps)
    ensures |ops| <= ALWAYS_FITS as int ==> forall i :: 0 <= i < |steps| ==> !steps[i].refused
  {
    hide Run, StepAfter, OnlyFullRefused, UniqueKeys, ToMap, PushedAt, HashTable<K, V>.Shaped;
    table := new HashTable<K, V>(keyOf, hash, capacity);
    steps := [];
    NoStepsYet(keyOf, steps);
    for i := 0 to |ops|
      invariant table.Valid() && table.keyOf == keyOf && table.hash == hash
      invariant fresh(table) && fresh(table.buckets) && forall n :: n in table.order ==> fresh(n)
      invariant |steps| == i && forall j :: 0 <= j < i ==> steps[j].op == ops[j]
      invariant table.Contents() == Run(keyOf, steps) && OnlyFullRefused(keyOf, steps)
    {
      var refused;
      table, refused := Perform(table, ops[i]);
      OneMoreStep(keyOf, steps, Step(ops[i], refused));
      steps := steps + [Step(ops[i], refused)];
    }
    ghost var places := RunRefines(keyOf, steps);
    if |ops| <= ALWAYS_FITS as int {
      FewNeverRefused(keyOf, steps);
    }
  }

  lemma NoStepsYet<K, V>(keyOf: V -> K, steps: seq<Step<K, V>>)
    requires steps == []
    ensures Run(keyOf, steps) == [] && OnlyFullRefused(keyOf, steps)
  {
  }
}
