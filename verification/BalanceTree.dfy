// The AVL tree: insertion and removal that keep stored heights and balance factors exact.
module Balance {
  import opened LinkedTree
  import opened Ordering
  import opened Sequences

  datatype Info = Info(height: int, balance: int)

  type AvlNode<V> = Node<V, Info>
  type AvlNode?<V> = Node?<V, Info>
  type AvlTree<V> = Tree<V, Info>
  type AvlCtx<V> = Ctx<V, Info>

  // Every node stores its height and balance factor, and no factor leaves [-1, 1].
  ghost predicate Exact<V>(t: AvlTree<V>) {
    t.Bin? ==>
      var b := Height(t.right) - Height(t.left);
      && Exact(t.left) && Exact(t.right)
      && t.attr == Info(Height(t), b) && -1 <= b <= 1
  }

  // The siblings along the way up are exact and balanced against a hole of height `h`;
  // what the ancestors store is still to be brought up to date.
  ghost predicate CtxExact<V>(c: AvlCtx<V>, h: int) {
    c.Top? ||
    var s := if c.InLeft? then c.right else c.left;
    && Exact(s) && -1 <= h - Height(s) <= 1
    && CtxExact(c.up, 1 + Max(h, Height(s)))
  }

  // The heights a node's subtrees can have when one of them has just changed by at most one,
  // the node having been of height `h` before.
  predicate Near(hl: int, hr: int, h: int) {
    if hl == hr + 2 then h == hr + 2 || h == hr + 3
    else if hr == hl + 2 then h == hl + 2 || h == hl + 3
    else -1 <= hl - hr <= 1 && -1 <= 1 + Max(hl, hr) - h <= 1
  }

  ghost predicate Pending<V>(c: AvlCtx<V>, t: AvlTree<V>, h: int) {
    && t.Bin? && Exact(t.left) && Exact(t.right)
    && Near(Height(t.left), Height(t.right), h) && CtxExact(c, h)
  }

  ghost predicate Ready<V>(c: AvlCtx<V>, t: AvlTree<V>, h: int) {
    Exact(t) && -1 <= Height(t) - h <= 1 && CtxExact(c, h)
  }

  ghost function Stored<V>(t: AvlTree<V>): int {
    if t.Leaf? then 0 else t.attr.height
  }

  ghost function Computed<V>(t: AvlTree<V>): Info
    requires t.Bin?
  {
    Info(1 + Max(Stored(t.left), Stored(t.right)), Stored(t.right) - Stored(t.left))
  }

  ghost function Upper<V>(c: AvlCtx<V>, t: AvlTree<V>): AvlTree<V>
    requires !c.Top?
  {
    if c.InLeft? then Bin(t, c.node, c.attr, c.right) else Bin(c.left, c.node, c.attr, t)
  }

  // The parent of a rebalanced subtree is the next one to look at.
  lemma StepUp<V>(c: AvlCtx<V>, t: AvlTree<V>, h: int)
    requires Ready(c, t, h) && !c.Top?
    ensures Pending(c.up, Upper(c, t), 1 + Max(h, Height(if c.InLeft? then c.right else c.left)))
  {
  }

  // An exact tree is exact everywhere inside.
  lemma {:induction false} UnplugExact<V>(d: AvlCtx<V>, base: AvlCtx<V>, u: AvlTree<V>)
    requires Exact(Plug(d, u)) && CtxExact(base, Height(Plug(d, u)))
    ensures Exact(u) && CtxExact(Compose(d, base), Height(u))
    decreases d
  {
    if !d.Top? {
      UnplugExact(d.up, base, Upper(d, u));
    }
  }

  lemma StoredExact<V>(t: AvlTree<V>)
    requires Exact(t)
    ensures Stored(t) == Height(t)
  {
  }

  // Fewest nodes an AVL tree of height h can have, plus one.
  ghost function Fib(n: nat): nat {
    if n < 2 then n else Fib(n - 1) + Fib(n - 2)
  }

  lemma {:induction false} FibMonotone(m: nat, n: nat)
    requires m <= n
    ensures Fib(m) <= Fib(n)
    decreases n
  {
    if m < n {
      FibMonotone(m, n - 1);
    }
  }

  // An exact tree of height h has at least Fib(h + 2) - 1 nodes.
  lemma {:induction false} HeightBound<V>(t: AvlTree<V>)
    requires Exact(t)
    ensures |InOrder(t)| >= Fib(Height(t) + 2) - 1
  {
    if t.Bin? {
      HeightBound(t.left);
      HeightBound(t.right);
      var h := Height(t);
      var lower := if Height(t.left) < Height(t.right) then Height(t.left) else Height(t.right);
      FibMonotone(h, lower + 2);
      assert Fib(h + 2) == Fib(h + 1) + Fib(h);
    }
  }

  // A rotation together with the two updates that follow it.
  ghost function UpdatedLeft<V>(t: AvlTree<V>): AvlTree<V>
    requires t.Bin? && t.right.Bin?
  {
    var n := Bin(t.left, t.node, t.attr, t.right.left);
    var p := Bin(n.(attr := Computed(n)), t.right.node, t.right.attr, t.right.right);
    p.(attr := Computed(p))
  }

  ghost function UpdatedRight<V>(t: AvlTree<V>): AvlTree<V>
    requires t.Bin? && t.left.Bin?
  {
    var n := Bin(t.left.right, t.node, t.attr, t.right);
    var p := Bin(t.left.left, t.left.node, t.left.attr, n.(attr := Computed(n)));
    p.(attr := Computed(p))
  }

  // One or two rotations balance a node whose left subtree is two levels higher.
  lemma LightenedLeft<V>(c: AvlCtx<V>, t: AvlTree<V>, h: int, l: AvlTree<V>, u: AvlTree<V>)
    requires Pending(c, t, h) && Height(t.left) == Height(t.right) + 2
    requires if t.left.attr.balance > 0 then l == UpdatedLeft(t.left) else l == t.left
    requires l.Bin? && u == UpdatedRight(Bin(l, t.node, t.attr, t.right))
    ensures Ready(c, u, h)
  {
    var k := t.left;
    StoredExact(k.left);
    StoredExact(k.right);
    StoredExact(t.right);
    if k.attr.balance > 0 {
      var q := k.right;
      StoredExact(q.left);
      StoredExact(q.right);
      var n := Bin(k.left, k.node, k.attr, q.left);
      assert Exact(n.(attr := Computed(n)));
      var m := Bin(q.right, t.node, t.attr, t.right);
      assert Exact(m.(attr := Computed(m)));
    } else {
      var m := Bin(k.right, t.node, t.attr, t.right);
      assert Exact(m.(attr := Computed(m)));
    }
  }

  // One or two rotations balance a node whose right subtree is two levels higher.
  lemma LightenedRight<V>(c: AvlCtx<V>, t: AvlTree<V>, h: int, l: AvlTree<V>, u: AvlTree<V>)
    requires Pending(c, t, h) && Height(t.right) == Height(t.left) + 2
    requires if t.right.attr.balance < 0 then l == UpdatedRight(t.right) else l == t.right
    requires l.Bin? && u == UpdatedLeft(Bin(t.left, t.node, t.attr, l))
    ensures Ready(c, u, h)
  {
    var k := t.right;
    StoredExact(k.right);
    StoredExact(k.left);
    StoredExact(t.left);
    if k.attr.balance < 0 {
      var q := k.left;
      StoredExact(q.right);
      StoredExact(q.left);
      var n := Bin(q.right, k.node, k.attr, k.right);
      assert Exact(n.(attr := Computed(n)));
      var m := Bin(t.left, t.node, t.attr, q.left);
      assert Exact(m.(attr := Computed(m)));
    } else {
      var m := Bin(t.left, t.node, t.attr, k.left);
      assert Exact(m.(attr := Computed(m)));
    }
  }

  // Where the successor was taken out, a subtree one level lower is left.
  lemma SuccessorExact<V>(c: AvlCtx<V>, t: AvlTree<V>, d: AvlCtx<V>, u: AvlTree<V>, m: AvlNode<V>, a: Info)
    requires Exact(t) && CtxExact(c, Height(t)) && t.Bin?
    requires t.right == Plug(d, u) && u.Bin? && u.left.Leaf?
    ensures Ready(Compose(d, InRight(t.left, m, a, c)), u.right, Height(u))
  {
    UnplugExact(d, InRight(t.left, m, a, c), u);
  }

  // A new leaf stands where nothing stood.
  lemma NewLeaf<V>(c: AvlCtx<V>, t: AvlTree<V>)
    requires Exact(Plug(c, Leaf)) && t.Bin? && t.left.Leaf? && t.right.Leaf? && t.attr == Info(1, 0)
    ensures Ready(c, t, 0) && InOrder(Plug(c, t)) == Before(c) + [t.node] + After(c)
  {
    UnplugExact(c, Top, Leaf);
    ComposeTop(c);
    PlugInOrder(c, t);
  }

  class BalanceTree<K(!new), V> {
    const less: (K, K) -> bool
    const keyOf: V -> K
    const links: Links<V, Info>
    ghost var shape: AvlTree<V>

    ghost predicate Valid()
      reads this, links, links.nodes
    {
      && StrictWeakOrder(less) && links.At(Top, shape)
      && Sorted(less, keyOf, InOrder(shape)) && Exact(shape)
    }

    constructor (less: (K, K) -> bool, keyOf: V -> K)
      requires StrictWeakOrder(less)
      ensures Valid() && fresh(links) && links.nodes == {} && shape == Leaf
      ensures this.less == less && this.keyOf == keyOf
    {
      this.less, this.keyOf := less, keyOf;
      links := new Links<V, Info>();
      shape := Leaf;
    }

    static function StoredHeight(n: AvlNode?<V>): int
      reads n
    {
      if n == null then 0 else n.attr.height
    }

    method UpdateHeightAndBalance(n: AvlNode<V>, ghost c: AvlCtx<V>, ghost t: AvlTree<V>)
      requires links.At(c, t) && t.Bin? && t.node == n
      modifies links.nodes
      ensures links.At(c, t.(attr := Computed(t)))
      ensures n.attr == Computed(t)
    {
      links.Here(c, t);
      ChildHeights(c, t);
      var leftHeight := StoredHeight(n.left);
      var rightHeight := StoredHeight(n.right);
      links.Paint(n, Info(Max(leftHeight, rightHeight) + 1, rightHeight - leftHeight), c, t);
    }

    lemma ChildHeights(c: AvlCtx<V>, t: AvlTree<V>)
      requires links.At(c, t) && t.Bin?
      ensures StoredHeight(t.node.left) == Stored(t.left) && StoredHeight(t.node.right) == Stored(t.right)
      ensures t.left.Bin? ==> t.node.left != null && t.node.left.attr == t.left.attr
      ensures t.right.Bin? ==> t.node.right != null && t.node.right.attr == t.right.attr
    {
      var h := Picture(links.nodes);
      assert Fits(h, t.left, t.node) && Fits(h, t.right, t.node);
    }

    method RotateLeft(node: AvlNode<V>, ghost c: AvlCtx<V>, ghost t: AvlTree<V>)
      returns (pivot: AvlNode<V>, ghost u: AvlTree<V>)
      requires links.At(c, t) && t.Bin? && t.node == node && t.right.Bin?
      modifies links, links.nodes
      ensures links.At(c, u) && links.nodes == old(links.nodes) && u.Bin? && u.node == pivot
      ensures u == UpdatedLeft(t)
      ensures InOrder(u) == InOrder(t)
    {
      links.Here(c, t);
      pivot := node.right;
      links.LeftRevolve(node, c, t);
      RotatedLeftKeeps(t);
      u := RotatedLeft(t);
      ghost var d := InLeft(c, u.node, u.attr, u.right);
      links.Climb(d, u.left);
      UpdateHeightAndBalance(node, d, u.left);
      ghost var n := u.left.(attr := Computed(u.left));
      links.Climb(d, n);
      u := Bin(n, u.node, u.attr, u.right);
      UpdateHeightAndBalance(pivot, c, u);
      u := u.(attr := Computed(u));
    }

    method RotateRight(node: AvlNode<V>, ghost c: AvlCtx<V>, ghost t: AvlTree<V>)
      returns (pivot: AvlNode<V>, ghost u: AvlTree<V>)
      requires links.At(c, t) && t.Bin? && t.node == node && t.left.Bin?
      modifies links, links.nodes
      ensures links.At(c, u) && links.nodes == old(links.nodes) && u.Bin? && u.node == pivot
      ensures u == UpdatedRight(t)
      ensures InOrder(u) == InOrder(t)
    {
      links.Here(c, t);
      pivot := node.left;
      links.RightRevolve(node, c, t);
      RotatedRightKeeps(t);
      u := RotatedRight(t);
      ghost var d := InRight(u.left, u.node, u.attr, c);
      links.Climb(d, u.right);
      UpdateHeightAndBalance(node, d, u.right);
      ghost var n := u.right.(attr := Computed(u.right));
      links.Climb(d, n);
      u := Bin(u.left, u.node, u.attr, n);
      UpdateHeightAndBalance(pivot, c, u);
      u := u.(attr := Computed(u));
    }

    // The left subtree is two levels higher.
    method LightenLeft(node: AvlNode<V>, ghost c: AvlCtx<V>, ghost t: AvlTree<V>, ghost h: int)
      returns (top: AvlNode<V>, ghost u: AvlTree<V>)
      requires links.At(c, t) && Pending(c, t, h) && t.node == node
      requires Height(t.left) == Height(t.right) + 2
      modifies links, links.nodes
      ensures links.At(c, u) && links.nodes == old(links.nodes) && InOrder(u) == InOrder(t)
      ensures u.Bin? && u.node == top && Ready(c, u, h)
    {
      links.Here(c, t);
      ChildHeights(c, t);
      ghost var l, t1 := t.left, t;
      if node.left.attr.balance > 0 {
        ghost var d := InLeft(c, node, t.attr, t.right);
        links.Climb(d, l);
        var child;
        child, l := RotateLeft(node.left, d, l);
        links.Climb(d, l);
        t1 := Bin(l, node, t.attr, t.right);
      }
      top, u := RotateRight(node, c, t1);
      LightenedLeft(c, t, h, l, u);
    }

    // The right subtree is two levels higher.
    method LightenRight(node: AvlNode<V>, ghost c: AvlCtx<V>, ghost t: AvlTree<V>, ghost h: int)
      returns (top: AvlNode<V>, ghost u: AvlTree<V>)
      requires links.At(c, t) && Pending(c, t, h) && t.node == node
      requires Height(t.right) == Height(t.left) + 2
      modifies links, links.nodes
      ensures links.At(c, u) && links.nodes == old(links.nodes) && InOrder(u) == InOrder(t)
      ensures u.Bin? && u.node == top && Ready(c, u, h)
    {
      links.Here(c, t);
      ChildHeights(c, t);
      ghost var l, t1 := t.right, t;
      if node.right.attr.balance < 0 {
        ghost var d := InRight(t.left, node, t.attr, c);
        links.Climb(d, l);
        var child;
        child, l := RotateRight(node.right, d, l);
        links.Climb(d, l);
        t1 := Bin(t.left, node, t.attr, l);
      }
      top, u := RotateLeft(node, c, t1);
      LightenedRight(c, t, h, l, u);
    }

    // Brings heights and balance up to date from `start` up to the root.
    method RebalanceFrom(start: AvlNode?<V>, ghost c0: AvlCtx<V>, ghost t0: AvlTree<V>, ghost h0: int)
      returns (ghost s: AvlTree<V>)
      requires links.At(c0, t0)
      requires if start == null then c0.Top? && Exact(t0) else start == Root(t0) && Pending(c0, t0, h0)
      modifies links, links.nodes
      ensures links.At(Top, s) && Exact(s) && InOrder(s) == InOrder(Plug(c0, t0))
      ensures links.nodes == old(links.nodes)
    {
      var node := start;
      ghost var c, t, h := c0, t0, h0;
      while node != null
        invariant links.At(c, t) && links.nodes == old(links.nodes)
        invariant if node == null then c.Top? && Exact(t) else node == Root(t) && Pending(c, t, h)
        invariant InOrder(Plug(c, t)) == InOrder(Plug(c0, t0))
        decreases if node == null then 0 else 1 + Depth(c)
      {
        var top;
        ghost var u;
        top, u := RebalanceNode(node, c, t, h);
        Refilled(c, t, u);
        links.Here(c, u);
        node := top.parent;
        if node != null {
          links.Climb(c, u);
          StepUp(c, u, h);
          h := 1 + Max(h, Height(if c.InLeft? then c.right else c.left));
          c, t := c.up, Upper(c, u);
        } else {
          t := u;
        }
      }
      s := t;
    }

    method RebalanceNode(node: AvlNode<V>, ghost c: AvlCtx<V>, ghost t: AvlTree<V>, ghost h: int)
      returns (top: AvlNode<V>, ghost u: AvlTree<V>)
      requires links.At(c, t) && Pending(c, t, h) && t.node == node
      modifies links, links.nodes
      ensures links.At(c, u) && links.nodes == old(links.nodes) && InOrder(u) == InOrder(t)
      ensures u.Bin? && u.node == top && Ready(c, u, h)
    {
      UpdateHeightAndBalance(node, c, t);
      StoredExact(t.left);
      StoredExact(t.right);
      top, u := node, t.(attr := Computed(t));
      if node.attr.balance < -1 {
        top, u := LightenLeft(node, c, u, h);
      } else if node.attr.balance > 1 {
        top, u := LightenRight(node, c, u, h);
      }
    }

    // `Insert`: adds a value unless an equivalent key is there already.
    method Insert(v: V) returns (inserted: bool)
      requires Valid()
      modifies this, links, links.nodes
      ensures Valid() && fresh(links.nodes - old(links.nodes))
      ensures inserted <==> forall n | n in old(InOrder(shape)) :: !Equivalent(less, keyOf(n.data), keyOf(v))
      ensures !inserted ==> shape == old(shape)
      ensures inserted ==>
        exists i, n | 0 <= i <= |old(InOrder(shape))| && n in links.nodes ::
          fresh(n) && n.data == v && InOrder(shape) == InsertAt(old(InOrder(shape)), i, n)
    {
      var found, parent;
      ghost var c, u, steps;
      found, parent, c, u, steps := links.FindNode(less, keyOf, keyOf(v), shape);
      if found != null {
        return false;
      }
      SideOfKey(less, keyOf, keyOf(v), c);
      var node;
      node, shape := InsertNew(v, parent, c, u);
      SortedInsert(less, keyOf, Before(c), node, After(c));
      inserted := true;
    }

    method InsertNew(v: V, parent: AvlNode?<V>, ghost c: AvlCtx<V>, ghost u: AvlTree<V>)
      returns (node: AvlNode<V>, ghost s: AvlTree<V>)
      requires links.At(c, u) && u.Leaf? && parent == ParentOf(c) && Exact(Plug(c, u))
      requires !c.Top? ==> less(keyOf(v), keyOf(c.node.data)) == c.InLeft?
      modifies links, links.nodes
      ensures fresh(node) && node.data == v && node in links.nodes && links.nodes == old(links.nodes) + {node}
      ensures links.At(Top, s) && Exact(s) && InOrder(s) == Before(c) + [node] + After(c)
    {
      node := new Node(v, Info(1, 0));
      links.Attach(node, parent, parent != null && less(keyOf(v), keyOf(parent.data)), c);
      ghost var t := Bin(Leaf, node, Info(1, 0), Leaf);
      NewLeaf(c, t);
      s := RebalanceAbove(parent, parent, c, t, 0);
    }

    // Rebalances from the parent of an exact subtree `t` that stands where one of height `h` stood;
    // without a parent there is only the subtree itself to start from.
    method RebalanceAbove(start: AvlNode?<V>, ghost parent: AvlNode?<V>,
                          ghost c: AvlCtx<V>, ghost t: AvlTree<V>, ghost h: int)
      returns (ghost s: AvlTree<V>)
      requires links.At(c, t) && Ready(c, t, h) && parent == ParentOf(c)
      requires start == parent || (parent == null && start == Root(t))
      modifies links, links.nodes
      ensures links.At(Top, s) && Exact(s) && InOrder(s) == InOrder(Plug(c, t))
      ensures links.nodes == old(links.nodes)
    {
      ghost var c', t', h' := c, t, Height(t);
      if parent != null {
        links.Climb(c, t);
        StepUp(c, t, h);
        c', t', h' := c.up, Upper(c, t), 1 + Max(h, Height(if c.InLeft? then c.right else c.left));
      }
      s := RebalanceFrom(start, c', t', h');
    }

    // `Find`, in at most as many steps as the tree is high.
    method Find(k: K) returns (r: AvlNode?<V>, ghost steps: nat)
      requires Valid()
      ensures r != null ==> r in InOrder(shape) && Equivalent(less, keyOf(r.data), k)
      ensures r == null ==> forall n | n in InOrder(shape) :: !Equivalent(less, keyOf(n.data), k)
      ensures steps <= Height(shape)
    {
      ghost var c, u;
      var parent;
      r, parent, c, u, steps := links.FindNode(less, keyOf, k, shape);
      if r == null {
        NoneEquivalent(less, keyOf, k, Before(c), After(c));
      }
    }

    // `Pop`: removes the value with an equivalent key, if there is one.
    method Pop(k: K)
      requires Valid()
      modifies this, links, links.nodes
      ensures Valid() && links.nodes <= old(links.nodes)
      ensures (forall n | n in old(InOrder(shape)) :: !Equivalent(less, keyOf(n.data), k)) ==> shape == old(shape)
      ensures (exists n | n in old(InOrder(shape)) :: Equivalent(less, keyOf(n.data), k)) ==>
        exists i | 0 <= i < |old(InOrder(shape))| ::
          && Equivalent(less, keyOf(old(InOrder(shape))[i].data), k)
          && InOrder(shape) == RemoveAt(old(InOrder(shape)), i)
    {
      var target, parent;
      ghost var c, u, steps;
      target, parent, c, u, steps := links.FindNode(less, keyOf, k, shape);
      if target == null {
        NoneEquivalent(less, keyOf, k, Before(c), After(c));
        return;
      }
      RemovedOrder(less, keyOf, c, u);
      shape := EraseNode(target, c, u);
    }

    method EraseNode(target: AvlNode<V>, ghost c: AvlCtx<V>, ghost t: AvlTree<V>)
      returns (ghost s: AvlTree<V>)
      requires links.At(c, t) && t.Bin? && t.node == target && Exact(Plug(c, t))
      modifies links, links.nodes
      ensures links.At(Top, s) && Exact(s) && links.nodes == old(links.nodes) - {target}
      ensures InOrder(s) == Before(c) + InOrder(t.left) + InOrder(t.right) + After(c)
    {
      links.Here(c, t);
      var rebalanceStart;
      ghost var c1, v, h;
      if target.left == null || target.right == null {
        rebalanceStart, v := EraseOuter(target, c, t);
        c1, h := c, Height(t);
      } else {
        ghost var u;
        UnplugExact(c, Top, t);
        ComposeTop(c);
        rebalanceStart, c1, u := EraseInner(target, c, t);
        v, h := u.right, Height(u);
      }
      PlugInOrder(c1, v);
      s := RebalanceAbove(rebalanceStart, ParentOf(c1), c1, v, h);
    }

    // The case of at most one child, which takes the place of the target.
    method EraseOuter(target: AvlNode<V>, ghost c: AvlCtx<V>, ghost t: AvlTree<V>)
      returns (rebalanceStart: AvlNode?<V>, ghost v: AvlTree<V>)
      requires links.At(c, t) && t.Bin? && t.node == target && Exact(Plug(c, t))
      requires t.left.Leaf? || t.right.Leaf?
      modifies links, links.nodes
      ensures links.At(c, v) && Ready(c, v, Height(t)) && links.nodes == old(links.nodes) - {target}
      ensures Before(c) + InOrder(v) + After(c) == Before(c) + InOrder(t.left) + InOrder(t.right) + After(c)
      ensures rebalanceStart == if c.Top? then Root(v) else ParentOf(c)
    {
      links.Here(c, t);
      UnplugExact(c, Top, t);
      ComposeTop(c);
      if target.left == null {
        rebalanceStart := if target.parent != null then target.parent else target.right;
        v := t.right;
        links.LiftRight(target, c, t);
      } else {
        rebalanceStart := if target.parent != null then target.parent else target.left;
        v := t.left;
        links.LiftLeft(target, c, t);
      }
    }

    // The two-child case: the successor takes the place of the target.
    method EraseInner(target: AvlNode<V>, ghost c: AvlCtx<V>, ghost t: AvlTree<V>)
      returns (rebalanceStart: AvlNode<V>, ghost c1: AvlCtx<V>, ghost u: AvlTree<V>)
      requires links.At(c, t) && t.Bin? && t.node == target && t.left.Bin? && t.right.Bin?
      requires Exact(t) && CtxExact(c, Height(t))
      modifies links, links.nodes
      ensures u.Bin? && links.At(c1, u.right) && links.nodes == old(links.nodes) - {target}
      ensures Ready(c1, u.right, Height(u)) && rebalanceStart == ParentOf(c1)
      ensures Before(c1) + InOrder(u.right) + After(c1)
           == Before(c) + InOrder(t.left) + InOrder(t.right) + After(c)
    {
      links.Here(c, t);
      ghost var d, base := Top, InRight(t.left, target, t.attr, c);
      links.Climb(base, t.right);
      var successor;
      successor, d, u := links.Leftmost(target.right, base, t.right);
      links.SuccessorParent(c, t, d, u);
      rebalanceStart := if successor.parent != target then successor.parent else successor;
      links.ReplaceBySuccessor(target, successor, c, t, d, u);
      ghost var m := Bin(t.left, successor, u.attr, Plug(d, u.right));
      UpdateHeightAndBalance(successor, c, m);
      c1 := Compose(d, InRight(t.left, successor, Computed(m), c));
      links.Below(c, t.left, successor, Computed(m), d, u.right);
      SuccessorOrder(c, t, d, u, successor, Computed(m));
      SuccessorExact(c, t, d, u, successor, Computed(m));
    }
  }
}
