// Whole runs of the two ordered trees, against a map whose keys are taken up to equivalence.
module TreeRuns {
  import opened Wrappers
  import opened Sequences
  import opened Ordering
  import opened LinkedTree
  import opened RedBlack
  import opened Balance

  datatype TreeOp<K, V> = PushOp(value: V) | PopOp(key: K)

  // What the map holds under a key after the operations.
  ghost function Holding<K, V>(less: (K, K) -> bool, keyOf: V -> K, ops: seq<TreeOp<K, V>>, k: K): Option<V> {
    if ops == [] then None
    else
      var before, last := Holding(less, keyOf, ops[..|ops| - 1], k), ops[|ops| - 1];
      match last
      case PushOp(v) => if before.None? && Equivalent(less, keyOf(v), k) then Some(v) else before
      case PopOp(key) => if Equivalent(less, key, k) then None else before
  }

  // What a sequence of values holds under a key.
  ghost predicate Answers<K, V>(less: (K, K) -> bool, keyOf: V -> K, s: seq<V>, k: K, r: Option<V>) {
    match r
    case None => forall i :: 0 <= i < |s| ==> !Equivalent(less, keyOf(s[i]), k)
    case Some(v) => v in s && Equivalent(less, keyOf(v), k)
  }

  ghost predicate Ascending<K, V>(less: (K, K) -> bool, keyOf: V -> K, s: seq<V>) {
    forall i, j :: 0 <= i < j < |s| ==> less(keyOf(s[i]), keyOf(s[j]))
  }

  // The values are those of the map, in ascending order.
  ghost predicate Agrees<K(!new), V>(less: (K, K) -> bool, keyOf: V -> K, ops: seq<TreeOp<K, V>>, s: seq<V>) {
    Ascending(less, keyOf, s) && forall k :: Answers(less, keyOf, s, k, Holding(less, keyOf, ops, k))
  }

  // ---------- one operation on the values ----------

  lemma PushKeeps<K(!new), V>(less: (K, K) -> bool, keyOf: V -> K, ops: seq<TreeOp<K, V>>, s: seq<V>, v: V, i: nat)
    requires StrictWeakOrder(less) && Agrees(less, keyOf, ops, s)
    requires i < |s| && Equivalent(less, keyOf(s[i]), keyOf(v))
    ensures Agrees(less, keyOf, ops + [PushOp(v)], s)
  {
  }

  lemma PushAdds<K(!new), V>(less: (K, K) -> bool, keyOf: V -> K, ops: seq<TreeOp<K, V>>, s: seq<V>, v: V, i: nat)
    requires StrictWeakOrder(less) && Agrees(less, keyOf, ops, s)
    requires i <= |s| && Ascending(less, keyOf, InsertAt(s, i, v))
    ensures Agrees(less, keyOf, ops + [PushOp(v)], InsertAt(s, i, v))
  {
  }

  lemma PopKeeps<K(!new), V>(less: (K, K) -> bool, keyOf: V -> K, ops: seq<TreeOp<K, V>>, s: seq<V>, key: K)
    requires StrictWeakOrder(less) && Agrees(less, keyOf, ops, s)
    requires forall i :: 0 <= i < |s| ==> !Equivalent(less, keyOf(s[i]), key)
    ensures Agrees(less, keyOf, ops + [PopOp(key)], s)
  {
  }

  lemma PopTakes<K(!new), V>(less: (K, K) -> bool, keyOf: V -> K, ops: seq<TreeOp<K, V>>, s: seq<V>, key: K, i: nat)
    requires StrictWeakOrder(less) && Agrees(less, keyOf, ops, s)
    requires i < |s| && Equivalent(less, keyOf(s[i]), key)
    ensures Agrees(less, keyOf, ops + [PopOp(key)], RemoveAt(s, i))
  {
  }

  // ---------- the values are determined ----------

  lemma SameMembers<K(!new), V>(less: (K, K) -> bool, keyOf: V -> K, ops: seq<TreeOp<K, V>>, s: seq<V>, x: V)
    requires StrictWeakOrder(less) && Agrees(less, keyOf, ops, s)
    ensures x in s <==> Holding(less, keyOf, ops, keyOf(x)) == Some(x)
  {
  }

  lemma {:induction false} AscendingIsDetermined<K(!new), V>(less: (K, K) -> bool, keyOf: V -> K, s: seq<V>, t: seq<V>)
    requires StrictWeakOrder(less) && Ascending(less, keyOf, s) && Ascending(less, keyOf, t)
    requires forall x :: x in s <==> x in t
    ensures s == t
  {
    assert |s| > 0 ==> s[0] in t;
    assert |t| > 0 ==> t[0] in s;
    if s == [] || t == [] {
      return;
    }
    var m, n := |s| - 1, |t| - 1;
    assert s[m] in t && t[n] in s;
    var i :| 0 <= i <= n && t[i] == s[m];
    var j :| 0 <= j <= m && s[j] == t[n];
    assert i == n;
    forall x
      ensures x in s[..m] <==> x in t[..n]
    {
      assert x in s <==> x in s[..m] || x == s[m];
      assert x in t <==> x in t[..n] || x == t[n];
    }
    AscendingIsDetermined(less, keyOf, s[..m], t[..n]);
  }

  // So two containers that went through the same operations are iterated alike.
  lemma AgreementIsDetermined<K(!new), V>(less: (K, K) -> bool, keyOf: V -> K, ops: seq<TreeOp<K, V>>, s: seq<V>,
                                          t: seq<V>)
    requires StrictWeakOrder(less) && Agrees(less, keyOf, ops, s) && Agrees(less, keyOf, ops, t)
    ensures s == t
  {
    forall x
      ensures x in s <==> x in t
    {
      SameMembers(less, keyOf, ops, s, x);
      SameMembers(less, keyOf, ops, t, x);
    }
    AscendingIsDetermined(less, keyOf, s, t);
  }

  // ---------- the trees ----------

  ghost function ValuesOf<V, A>(nodes: seq<Node<V, A>>): (values: seq<V>)
    ensures |values| == |nodes| && forall i {:trigger values[i]} :: 0 <= i < |nodes| ==> values[i] == nodes[i].data
  {
    seq(|nodes|, i requires 0 <= i < |nodes| => nodes[i].data)
  }

  // A tree whose nodes are these agrees with the operations.
  ghost predicate NodesAgree<K(!new), V, A>(
    less: (K, K) -> bool, keyOf: V -> K, ops: seq<TreeOp<K, V>>, nodes: seq<Node<V, A>>)
  {
    Agrees(less, keyOf, ops, ValuesOf(nodes))
  }

  ghost predicate HasKey<K, V, A>(less: (K, K) -> bool, keyOf: V -> K, nodes: seq<Node<V, A>>, key: K) {
    exists n :: n in nodes && Equivalent(less, keyOf(n.data), key)
  }

  lemma NothingYet<K(!new), V, A>(less: (K, K) -> bool, keyOf: V -> K, ops: seq<TreeOp<K, V>>, nodes: seq<Node<V, A>>)
    requires ops == [] && nodes == []
    ensures NodesAgree(less, keyOf, ops, nodes)
  {
  }

  lemma NodesAfterPush<K(!new), V, A>(
    less: (K, K) -> bool, keyOf: V -> K, ops: seq<TreeOp<K, V>>, v: V,
    nodes: seq<Node<V, A>>, more: seq<Node<V, A>>)
    requires StrictWeakOrder(less) && NodesAgree(less, keyOf, ops, nodes) && Sorted(less, keyOf, more)
    requires if HasKey(less, keyOf, nodes, keyOf(v)) then more == nodes
             else exists i: nat, n: Node<V, A> :: i <= |nodes| && n.data == v && more == InsertAt(nodes, i, n)
    ensures NodesAgree(less, keyOf, ops + [PushOp(v)], more)
  {
    var s, t := ValuesOf(nodes), ValuesOf(more);
    assert Ascending(less, keyOf, t);
    if HasKey(less, keyOf, nodes, keyOf(v)) {
      var i :| 0 <= i < |nodes| && Equivalent(less, keyOf(nodes[i].data), keyOf(v));
      PushKeeps(less, keyOf, ops, s, v, i);
    } else {
      var i: nat, n: Node<V, A> :| i <= |nodes| && n.data == v && more == InsertAt(nodes, i, n);
      assert t == InsertAt(s, i, v);
      PushAdds(less, keyOf, ops, s, v, i);
    }
  }

  lemma NodesAfterPop<K(!new), V, A>(
    less: (K, K) -> bool, keyOf: V -> K, ops: seq<TreeOp<K, V>>, key: K,
    nodes: seq<Node<V, A>>, fewer: seq<Node<V, A>>)
    requires StrictWeakOrder(less) && NodesAgree(less, keyOf, ops, nodes)
    requires if HasKey(less, keyOf, nodes, key)
             then exists i ::
                    0 <= i < |nodes| && Equivalent(less, keyOf(nodes[i].data), key) && fewer == RemoveAt(nodes, i)
             else fewer == nodes
    ensures NodesAgree(less, keyOf, ops + [PopOp(key)], fewer)
  {
    var s, t := ValuesOf(nodes), ValuesOf(fewer);
    if HasKey(less, keyOf, nodes, key) {
      var i :| 0 <= i < |nodes| && Equivalent(less, keyOf(nodes[i].data), key) && fewer == RemoveAt(nodes, i);
      assert t == RemoveAt(s, i);
      PopTakes(less, keyOf, ops, s, key, i);
    } else {
      forall i | 0 <= i < |s|
        ensures !Equivalent(less, keyOf(s[i]), key)
      {
        assert nodes[i] in nodes;
      }
      PopKeeps(less, keyOf, ops, s, key);
    }
  }

  method RedBlackStep<K(!new), V>(tree: RedBlackTree<K, V>, op: TreeOp<K, V>, ghost ops: seq<TreeOp<K, V>>)
    requires tree.Valid() && NodesAgree(tree.less, tree.keyOf, ops, InOrder(tree.shape))
    modifies tree, tree.links, tree.links.nodes
    ensures tree.Valid() && NodesAgree(tree.less, tree.keyOf, ops + [op], InOrder(tree.shape))
    ensures fresh(tree.links.nodes - old(tree.links.nodes))
  {
    hide NodesAgree;
    ghost var was := InOrder(tree.shape);
    match op {
      case PushOp(v) =>
        var node, inserted := tree.Push(v);
        NodesAfterPush(tree.less, tree.keyOf, ops, v, was, InOrder(tree.shape));
      case PopOp(key) =>
        var removed := tree.PopKey(key);
        NodesAfterPop(tree.less, tree.keyOf, ops, key, was, InOrder(tree.shape));
    }
  }

  // Any sequence of operations on a new red-black tree leaves a valid tree that holds what they
  // leave in the map.
  method RunRedBlack<K(!new), V>(less: (K, K) -> bool, keyOf: V -> K, ops: seq<TreeOp<K, V>>)
    returns (tree: RedBlackTree<K, V>)
    requires StrictWeakOrder(less)
    ensures tree.Valid() && tree.less == less && tree.keyOf == keyOf
    ensures NodesAgree(less, keyOf, ops, InOrder(tree.shape))
  {
    hide NodesAgree;
    tree := new RedBlackTree(less, keyOf);
    NothingYet(less, keyOf, ops[..0], InOrder(tree.shape));
    for i := 0 to |ops|
      invariant fresh(tree) && fresh(tree.links) && fresh(tree.links.nodes)
      invariant tree.Valid() && tree.less == less && tree.keyOf == keyOf
      invariant NodesAgree(less, keyOf, ops[..i], InOrder(tree.shape))
    {
      RedBlackStep(tree, ops[i], ops[..i]);
      assert ops[..i + 1] == ops[..i] + [ops[i]];
    }
    assert ops[..|ops|] == ops;
  }

  method BalanceStep<K(!new), V>(tree: BalanceTree<K, V>, op: TreeOp<K, V>, ghost ops: seq<TreeOp<K, V>>)
    requires tree.Valid() && NodesAgree(tree.less, tree.keyOf, ops, InOrder(tree.shape))
    modifies tree, tree.links, tree.links.nodes
    ensures tree.Valid() && NodesAgree(tree.less, tree.keyOf, ops + [op], InOrder(tree.shape))
    ensures fresh(tree.links.nodes - old(tree.links.nodes))
  {
    hide NodesAgree;
    ghost var was := InOrder(tree.shape);
    match op {
      case PushOp(v) =>
        var inserted := tree.Insert(v);
        NodesAfterPush(tree.less, tree.keyOf, ops, v, was, InOrder(tree.shape));
      case PopOp(key) =>
        tree.Pop(key);
        NodesAfterPop(tree.less, tree.keyOf, ops, key, was, InOrder(tree.shape));
    }
  }

  // And so does any sequence of operations on a new AVL tree.
  method RunBalance<K(!new), V>(less: (K, K) -> bool, keyOf: V -> K, ops: seq<TreeOp<K, V>>)
    returns (tree: BalanceTree<K, V>)
    requires StrictWeakOrder(less)
    ensures tree.Valid() && tree.less == less && tree.keyOf == keyOf
    ensures NodesAgree(less, keyOf, ops, InOrder(tree.shape))
  {
    hide NodesAgree;
    tree := new BalanceTree(less, keyOf);
    NothingYet(less, keyOf, ops[..0], InOrder(tree.shape));
    for i := 0 to |ops|
      invariant fresh(tree) && fresh(tree.links) && fresh(tree.links.nodes)
      invariant tree.Valid() && tree.less == less && tree.keyOf == keyOf
      invariant NodesAgree(less, keyOf, ops[..i], InOrder(tree.shape))
    {
      BalanceStep(tree, ops[i], ops[..i]);
      assert ops[..i + 1] == ops[..i] + [ops[i]];
    }
    assert ops[..|ops|] == ops;
  }
}
