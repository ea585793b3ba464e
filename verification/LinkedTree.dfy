// The linked representation that the two ordered trees share: nodes with left,
// right and parent links, and a root link that points at one of them.
//
// The ghost value of a linked tree is an algebraic `Tree` whose nodes are the
// objects themselves.  Code that works in the middle of a tree is described by a
// zipper: a context `Ctx` with a hole, and the subtree that fills the hole.
module LinkedTree {
  import opened Ordering
  import opened Sequences

  class Node<V, A> {
    const data: V
    var attr: A // color (red-black) or height and balance (AVL)
    var left: Node?<V, A>
    var right: Node?<V, A>
    var parent: Node?<V, A>

    constructor (data: V, attr: A)
      ensures this.data == data && this.attr == attr
      ensures left == null && right == null && parent == null
    {
      this.data := data;
      this.attr := attr;
      left, right, parent := null, null, null;
    }
  }

  datatype Tree<V, A> =
    | Leaf
    | Bin(left: Tree<V, A>, node: Node<V, A>, attr: A, right: Tree<V, A>)

  datatype Ctx<V, A> =
    | Top
    | InLeft(up: Ctx<V, A>, node: Node<V, A>, attr: A, right: Tree<V, A>)
    | InRight(left: Tree<V, A>, node: Node<V, A>, attr: A, up: Ctx<V, A>)

  ghost function Root<V, A>(t: Tree<V, A>): Node?<V, A> {
    if t.Leaf? then null else t.node
  }

  ghost function ParentOf<V, A>(c: Ctx<V, A>): Node?<V, A> {
    if c.Top? then null else c.node
  }

  ghost function Plug<V, A>(c: Ctx<V, A>, t: Tree<V, A>): Tree<V, A>
    decreases c
  {
    match c
    case Top => t
    case InLeft(up, n, a, r) => Plug(up, Bin(t, n, a, r))
    case InRight(l, n, a, up) => Plug(up, Bin(l, n, a, t))
  }

  ghost function Depth<V, A>(c: Ctx<V, A>): nat {
    if c.Top? then 0 else 1 + Depth(c.up)
  }

  ghost function Nodes<V, A>(t: Tree<V, A>): set<Node<V, A>> {
    if t.Leaf? then {} else Nodes(t.left) + {t.node} + Nodes(t.right)
  }

  ghost function CtxNodes<V, A>(c: Ctx<V, A>): set<Node<V, A>> {
    match c
    case Top => {}
    case InLeft(up, n, _, r) => CtxNodes(up) + {n} + Nodes(r)
    case InRight(l, n, _, up) => CtxNodes(up) + {n} + Nodes(l)
  }

  // The nodes in key order: of a subtree, and on either side of a hole.
  ghost function InOrder<V, A>(t: Tree<V, A>): seq<Node<V, A>> {
    if t.Leaf? then [] else InOrder(t.left) + [t.node] + InOrder(t.right)
  }

  ghost function Before<V, A>(c: Ctx<V, A>): seq<Node<V, A>> {
    match c
    case Top => []
    case InLeft(up, _, _, _) => Before(up)
    case InRight(l, n, _, up) => Before(up) + InOrder(l) + [n]
  }

  ghost function After<V, A>(c: Ctx<V, A>): seq<Node<V, A>> {
    match c
    case Top => []
    case InLeft(up, n, _, r) => [n] + InOrder(r) + After(up)
    case InRight(_, _, _, up) => After(up)
  }

  // No object occurs twice.
  ghost predicate Distinct<V, A>(t: Tree<V, A>) {
    t.Bin? ==>
      && Distinct(t.left) && Distinct(t.right)
      && t.node !in Nodes(t.left) && t.node !in Nodes(t.right)
      && Nodes(t.left) !! Nodes(t.right)
  }

  ghost predicate DistinctCtx<V, A>(c: Ctx<V, A>) {
    match c
    case Top => true
    case InLeft(up, n, _, s) =>
      && DistinctCtx(up) && Distinct(s)
      && n !in Nodes(s) && n !in CtxNodes(up) && Nodes(s) !! CtxNodes(up)
    case InRight(s, n, _, up) =>
      && DistinctCtx(up) && Distinct(s)
      && n !in Nodes(s) && n !in CtxNodes(up) && Nodes(s) !! CtxNodes(up)
  }

  ghost predicate Apart<V, A>(c: Ctx<V, A>, t: Tree<V, A>) {
    DistinctCtx(c) && Distinct(t) && CtxNodes(c) !! Nodes(t)
  }

  // What one object's links and attribute are, and a picture of many objects.
  datatype Cell<V, A> = Cell(left: Node?<V, A>, right: Node?<V, A>, parent: Node?<V, A>, attr: A)

  type Heap<V, A> = map<Node<V, A>, Cell<V, A>>

  ghost function Picture<V, A>(s: set<Node<V, A>>): Heap<V, A>
    reads s
  {
    map n | n in s :: Cell(n.left, n.right, n.parent, n.attr)
  }

  // The cells of the objects are the ones the algebraic tree prescribes.
  ghost predicate Fits<V, A>(h: Heap<V, A>, t: Tree<V, A>, p: Node?<V, A>) {
    t.Bin? ==>
      && t.node in h && h[t.node] == Cell(Root(t.left), Root(t.right), p, t.attr)
      && Fits(h, t.left, t.node) && Fits(h, t.right, t.node)
  }

  ghost predicate FitsCtx<V, A>(h: Heap<V, A>, root: Node?<V, A>, c: Ctx<V, A>, hole: Node?<V, A>)
    decreases c
  {
    match c
    case Top => root == hole
    case InLeft(up, n, a, r) =>
      && n in h && h[n] == Cell(hole, Root(r), ParentOf(up), a)
      && Fits(h, r, n) && FitsCtx(h, root, up, n)
    case InRight(l, n, a, up) =>
      && n in h && h[n] == Cell(Root(l), hole, ParentOf(up), a)
      && Fits(h, l, n) && FitsCtx(h, root, up, n)
  }

  lemma {:induction false} FitsFrame<V, A>(h: Heap<V, A>, h': Heap<V, A>, t: Tree<V, A>, p: Node?<V, A>)
    requires Fits(h, t, p)
    requires forall n | n in Nodes(t) :: n in h && n in h' && h'[n] == h[n]
    ensures Fits(h', t, p)
  {
    if t.Bin? {
      FitsFrame(h, h', t.left, t.node);
      FitsFrame(h, h', t.right, t.node);
    }
  }

  // Only the parent link of the subtree's root changed.
  lemma FitsReparented<V, A>(h: Heap<V, A>, h': Heap<V, A>, t: Tree<V, A>, p: Node?<V, A>, q: Node?<V, A>)
    requires Fits(h, t, p) && Distinct(t)
    requires forall n | n in Nodes(t) ::
      n in h && n in h' && h'[n] == if n == Root(t) then h[n].(parent := q) else h[n]
    ensures Fits(h', t, q)
  {
    if t.Bin? {
      FitsFrame(h, h', t.left, t.node);
      FitsFrame(h, h', t.right, t.node);
    }
  }

  // Only the link into the hole changed.
  lemma CtxRehung<V, A>(h: Heap<V, A>, h': Heap<V, A>, root: Node?<V, A>, root': Node?<V, A>,
                        c: Ctx<V, A>, hole: Node?<V, A>, hole': Node?<V, A>)
    requires FitsCtx(h, root, c, hole) && DistinctCtx(c)
    requires if c.Top? then root' == hole' else root' == root
    requires forall n | n in CtxNodes(c) ::
      n in h && n in h' && h'[n] == if n == ParentOf(c)
        then (if c.InLeft? then h[n].(left := hole') else h[n].(right := hole')) else h[n]
    ensures FitsCtx(h', root', c, hole')
  {
    match c
    case Top =>
    case InLeft(up, n, _, s) =>
      FitsFrame(h, h', s, n);
      CtxFrame(h, h', root, up, n);
    case InRight(s, n, _, up) =>
      FitsFrame(h, h', s, n);
      CtxFrame(h, h', root, up, n);
  }

  lemma {:induction false} CtxFrame<V, A>(h: Heap<V, A>, h': Heap<V, A>, root: Node?<V, A>, c: Ctx<V, A>,
                                          hole: Node?<V, A>)
    requires FitsCtx(h, root, c, hole)
    requires forall n | n in CtxNodes(c) :: n in h && n in h' && h'[n] == h[n]
    ensures FitsCtx(h', root, c, hole)
    decreases c
  {
    match c
    case Top =>
    case InLeft(up, n, _, s) =>
      FitsFrame(h, h', s, n);
      CtxFrame(h, h', root, up, n);
    case InRight(s, n, _, up) =>
      FitsFrame(h, h', s, n);
      CtxFrame(h, h', root, up, n);
  }

  // `d` is a context inside the hole of `base`.
  ghost function Compose<V, A>(d: Ctx<V, A>, base: Ctx<V, A>): Ctx<V, A> {
    match d
    case Top => base
    case InLeft(up, n, a, r) => InLeft(Compose(up, base), n, a, r)
    case InRight(l, n, a, up) => InRight(l, n, a, Compose(up, base))
  }

  ghost function RotatedLeft<V, A>(t: Tree<V, A>): Tree<V, A>
    requires t.Bin? && t.right.Bin?
  {
    var p := t.right;
    Bin(Bin(t.left, t.node, t.attr, p.left), p.node, p.attr, p.right)
  }

  ghost function RotatedRight<V, A>(t: Tree<V, A>): Tree<V, A>
    requires t.Bin? && t.left.Bin?
  {
    var p := t.left;
    Bin(p.left, p.node, p.attr, Bin(p.right, t.node, t.attr, t.right))
  }

  lemma Regroup<T>(a: seq<T>, x: T, b: seq<T>, y: T, d: seq<T>)
    ensures a + [x] + (b + [y] + d) == (a + [x] + b) + [y] + d
  {
  }

  // Rotations keep the nodes and their order.
  lemma RotatedLeftKeeps<V, A>(t: Tree<V, A>)
    requires t.Bin? && t.right.Bin?
    ensures InOrder(RotatedLeft(t)) == InOrder(t)
    ensures Nodes(RotatedLeft(t)) == Nodes(t)
    ensures Distinct(t) <==> Distinct(RotatedLeft(t))
  {
    var x, y, a, b, d := t.node, t.right.node, t.left, t.right.left, t.right.right;
    var u := Bin(a, x, t.attr, b);
    Regroup(InOrder(a), x, InOrder(b), y, InOrder(d));
    assert InOrder(u) == InOrder(a) + [x] + InOrder(b) && Nodes(u) == Nodes(a) + {x} + Nodes(b);
    assert InOrder(t.right) == InOrder(b) + [y] + InOrder(d) && Nodes(t.right) == Nodes(b) + {y} + Nodes(d);
    assert Distinct(u) <==> Distinct(a) && Distinct(b) && x !in Nodes(a) && x !in Nodes(b) && Nodes(a) !! Nodes(b);
    assert Distinct(t.right) <==>
           Distinct(b) && Distinct(d) && y !in Nodes(b) && y !in Nodes(d) && Nodes(b) !! Nodes(d);
  }

  lemma RotatedRightKeeps<V, A>(t: Tree<V, A>)
    requires t.Bin? && t.left.Bin?
    ensures InOrder(RotatedRight(t)) == InOrder(t)
    ensures Nodes(RotatedRight(t)) == Nodes(t)
    ensures Distinct(t) <==> Distinct(RotatedRight(t))
  {
    RotatedLeftKeeps(RotatedRight(t));
    assert RotatedLeft(RotatedRight(t)) == t;
  }

  lemma RegroupLeft<T>(b: seq<T>, i: seq<T>, x: T, s: seq<T>, e: seq<T>)
    ensures b + (i + [x] + s) + e == b + i + ([x] + s + e)
  {
  }

  lemma RegroupRight<T>(b: seq<T>, s: seq<T>, x: T, i: seq<T>, e: seq<T>)
    ensures b + (s + [x] + i) + e == (b + s + [x]) + i + e
  {
  }

  lemma {:induction false} PlugInOrder<V, A>(c: Ctx<V, A>, t: Tree<V, A>)
    ensures InOrder(Plug(c, t)) == Before(c) + InOrder(t) + After(c)
    decreases c
  {
    match c
    case Top =>
    case InLeft(up, n, a, r) =>
      PlugInOrder(up, Bin(t, n, a, r));
      RegroupLeft(Before(up), InOrder(t), n, InOrder(r), After(up));
    case InRight(l, n, a, up) =>
      PlugInOrder(up, Bin(l, n, a, t));
      RegroupRight(Before(up), InOrder(l), n, InOrder(t), After(up));
  }

  // Exchanging what fills a hole for something with the same nodes in the same order.
  lemma Refilled<V, A>(c: Ctx<V, A>, t: Tree<V, A>, u: Tree<V, A>)
    requires InOrder(t) == InOrder(u)
    ensures InOrder(Plug(c, t)) == InOrder(Plug(c, u))
  {
    PlugInOrder(c, t);
    PlugInOrder(c, u);
  }

  lemma {:induction false} PlugNodes<V, A>(c: Ctx<V, A>, t: Tree<V, A>)
    ensures Nodes(Plug(c, t)) == CtxNodes(c) + Nodes(t)
    decreases c
  {
    match c
    case Top =>
    case InLeft(up, n, a, r) => PlugNodes(up, Bin(t, n, a, r));
    case InRight(l, n, a, up) => PlugNodes(up, Bin(l, n, a, t));
  }

  lemma Reassociate<T>(a: seq<T>, b: seq<T>, x: seq<T>, d: seq<T>)
    ensures (a + b) + x + d == a + (b + x + d) && (a + b) + (x + d) == (a + b + x) + d
  {
  }

  lemma {:induction false} PlugCompose<V, A>(d: Ctx<V, A>, base: Ctx<V, A>, t: Tree<V, A>)
    ensures Plug(Compose(d, base), t) == Plug(base, Plug(d, t))
    ensures Before(Compose(d, base)) == Before(base) + Before(d)
    ensures After(Compose(d, base)) == After(d) + After(base)
    decreases d
  {
    match d
    case Top =>
    case InLeft(up, n, a, r) =>
      PlugCompose(up, base, Bin(t, n, a, r));
      Reassociate([n], InOrder(r), After(up), After(base));
    case InRight(l, n, a, up) =>
      PlugCompose(up, base, Bin(l, n, a, t));
      Reassociate(Before(base), Before(up), InOrder(l), [n]);
  }

  lemma ComposeParent<V, A>(d: Ctx<V, A>, base: Ctx<V, A>)
    ensures ParentOf(Compose(d, base)) == if d.Top? then ParentOf(base) else d.node
  {
  }

  lemma {:induction false} ComposeTop<V, A>(d: Ctx<V, A>)
    ensures Compose(d, Top) == d
  {
    if !d.Top? {
      ComposeTop(d.up);
    }
  }

  lemma {:induction false} PlugDistinct<V, A>(c: Ctx<V, A>, t: Tree<V, A>)
    ensures Distinct(Plug(c, t)) <==> Apart(c, t)
    decreases c
  {
    match c
    case Top =>
    case InLeft(up, n, a, r) =>
      PlugDistinct(up, Bin(t, n, a, r));
      ApartStep(c, t);
    case InRight(l, n, a, up) =>
      PlugDistinct(up, Bin(l, n, a, t));
      ApartStep(c, t);
  }

  lemma ApartStep<V, A>(c: Ctx<V, A>, t: Tree<V, A>)
    ensures c.InLeft? ==> (Apart(c, t) <==> Apart(c.up, Bin(t, c.node, c.attr, c.right)))
    ensures c.InRight? ==> (Apart(c, t) <==> Apart(c.up, Bin(c.left, c.node, c.attr, t)))
  {
  }

  // The i-th node in key order, as the root of a subtree in its context.
  lemma {:induction false} Locate<V, A>(t: Tree<V, A>, i: nat) returns (c: Ctx<V, A>, u: Tree<V, A>)
    requires i < |InOrder(t)|
    ensures Plug(c, u) == t && u.Bin? && u.node == InOrder(t)[i]
    ensures |Before(c)| + |InOrder(u.left)| == i
  {
    var k := |InOrder(t.left)|;
    if i == k {
      c, u := Top, t;
    } else if i < k {
      var d;
      d, u := Locate(t.left, i);
      c := Compose(d, InLeft(Top, t.node, t.attr, t.right));
      PlugCompose(d, InLeft(Top, t.node, t.attr, t.right), u);
    } else {
      var d;
      d, u := Locate(t.right, i - k - 1);
      c := Compose(d, InRight(t.left, t.node, t.attr, Top));
      PlugCompose(d, InRight(t.left, t.node, t.attr, Top), u);
    }
  }

  // Longest path from the root down, in nodes.
  ghost function Height<V, A>(t: Tree<V, A>): nat {
    if t.Leaf? then 0 else 1 + Max(Height(t.left), Height(t.right))
  }

  function Max(a: int, b: int): int {
    if a < b then b else a
  }

  // Key order.  `less` is the comparator and `keyOf` extracts the key from a node's value.
  ghost predicate Sorted<V, A, K>(less: (K, K) -> bool, keyOf: V -> K, s: seq<Node<V, A>>) {
    forall i, j | 0 <= i < j < |s| :: less(keyOf(s[i].data), keyOf(s[j].data))
  }

  ghost predicate AllBelow<V, A, K>(less: (K, K) -> bool, keyOf: V -> K, s: seq<Node<V, A>>, k: K) {
    forall i | 0 <= i < |s| :: less(keyOf(s[i].data), k)
  }

  ghost predicate AllAbove<V, A, K>(less: (K, K) -> bool, keyOf: V -> K, s: seq<Node<V, A>>, k: K) {
    forall i | 0 <= i < |s| :: less(k, keyOf(s[i].data))
  }

  // A key strictly between the two halves of the order is equivalent to none.
  lemma NoneEquivalent<V, A, K(!new)>(less: (K, K) -> bool, keyOf: V -> K, k: K, b: seq<Node<V, A>>, a: seq<Node<V, A>>)
    requires AllBelow(less, keyOf, b, k) && AllAbove(less, keyOf, a, k)
    ensures forall n | n in b + a :: !Equivalent(less, keyOf(n.data), k)
  {
  }

  // The side on which the empty place hangs agrees with one more comparison.
  lemma SideOfKey<V, A, K(!new)>(less: (K, K) -> bool, keyOf: V -> K, k: K, c: Ctx<V, A>)
    requires StrictWeakOrder(less) && Bounds(less, keyOf, k, c)
    ensures c.InLeft? ==> less(k, keyOf(c.node.data)) && !less(keyOf(c.node.data), k)
    ensures c.InRight? ==> less(keyOf(c.node.data), k) && !less(k, keyOf(c.node.data))
  {
    if c.InLeft? {
      assert After(c)[0] == c.node;
    } else if c.InRight? {
      assert Before(c)[|Before(c)| - 1] == c.node;
    }
  }

  // A new node between the smaller and the greater keys keeps the order.
  lemma SortedInsert<V, A, K(!new)>(less: (K, K) -> bool, keyOf: V -> K, b: seq<Node<V, A>>, n: Node<V, A>,
                                    a: seq<Node<V, A>>)
    requires Sorted(less, keyOf, b + a)
    requires StrictWeakOrder(less) && AllBelow(less, keyOf, b, keyOf(n.data)) && AllAbove(less, keyOf, a, keyOf(n.data))
    ensures Sorted(less, keyOf, b + [n] + a) && b + [n] + a == InsertAt(b + a, |b|, n)
    ensures forall m | m in b + a :: !Equivalent(less, keyOf(m.data), keyOf(n.data))
  {
    var s, s' := b + a, b + [n] + a;
    forall i, j | 0 <= i < j < |s'| ensures less(keyOf(s'[i].data), keyOf(s'[j].data)) {
      var i0, j0 := if i > |b| then i - 1 else i, if j > |b| then j - 1 else j;
      assert i != |b| ==> s'[i] == s[i0];
      assert j != |b| ==> s'[j] == s[j0];
      assert i < |b| < j ==> less(keyOf(b[i].data), keyOf(n.data)) && less(keyOf(n.data), keyOf(a[j - |b| - 1].data));
    }
  }

  lemma SortedRemove<V, A, K(!new)>(less: (K, K) -> bool, keyOf: V -> K, b: seq<Node<V, A>>, n: Node<V, A>,
                                    a: seq<Node<V, A>>)
    requires Sorted(less, keyOf, b + [n] + a)
    ensures Sorted(less, keyOf, b + a) && b + a == RemoveAt(b + [n] + a, |b|)
  {
    var s, s' := b + [n] + a, b + a;
    forall i, j | 0 <= i < j < |s'| ensures less(keyOf(s'[i].data), keyOf(s'[j].data)) {
      assert s'[i] == s[if i < |b| then i else i + 1] && s'[j] == s[if j < |b| then j else j + 1];
    }
  }

  // The order without the node at the focus.
  lemma RemovedOrder<V, A, K(!new)>(less: (K, K) -> bool, keyOf: V -> K, c: Ctx<V, A>, u: Tree<V, A>)
    requires u.Bin? && Sorted(less, keyOf, InOrder(Plug(c, u)))
    ensures var s, s' := InOrder(Plug(c, u)), Before(c) + InOrder(u.left) + InOrder(u.right) + After(c);
      && Sorted(less, keyOf, s')
      && exists i | 0 <= i < |s| :: s[i] == u.node && s' == RemoveAt(s, i)
  {
    PlugInOrder(c, u);
    var b, a := Before(c) + InOrder(u.left), InOrder(u.right) + After(c);
    RegroupAround(Before(c), InOrder(u.left), u.node, InOrder(u.right), After(c));
    SortedRemove(less, keyOf, b, u.node, a);
    assert (b + [u.node] + a)[|b|] == u.node;
  }

  lemma RegroupAround<T>(b: seq<T>, l: seq<T>, m: T, r: seq<T>, a: seq<T>)
    ensures b + (l + [m] + r) + a == (b + l) + [m] + (r + a)
    ensures b + l + r + a == (b + l) + (r + a)
  {
  }

  // The sequence passes every element of the set exactly once.
  ghost predicate EachOnce<T>(s: seq<T>, all: set<T>) {
    (set x | x in s) == all && forall i, j :: 0 <= i < j < |s| ==> s[i] != s[j]
  }

  // The key order passes every node exactly once.
  lemma {:induction false} InOrderNodes<V, A>(t: Tree<V, A>)
    requires Distinct(t)
    ensures EachOnce(InOrder(t), Nodes(t))
  {
    if t.Bin? {
      InOrderNodes(t.left);
      InOrderNodes(t.right);
      var l, r := InOrder(t.left), InOrder(t.right);
      forall n | n in l
        ensures n !in r
      {
        assert n in Nodes(t.left);
      }
      ConcatDistinct(l, t.node, r);
    }
  }

  lemma ConcatDistinct<T>(a: seq<T>, x: T, b: seq<T>)
    requires x !in a && x !in b && forall y :: y in a ==> y !in b
    requires forall i, j :: 0 <= i < j < |a| ==> a[i] != a[j]
    requires forall i, j :: 0 <= i < j < |b| ==> b[i] != b[j]
    ensures var s := a + [x] + b; forall i, j :: 0 <= i < j < |s| ==> s[i] != s[j]
  {
    var s := a + [x] + b;
    forall i, j | 0 <= i < j < |s|
      ensures s[i] != s[j]
    {
      assert s[i] == if i < |a| then a[i] else if i == |a| then x else b[i - |a| - 1];
      assert s[j] == if j < |a| then a[j] else if j == |a| then x else b[j - |a| - 1];
      assert i < |a| < j ==> s[i] in a && s[j] in b;
    }
  }

  // What a left rotation at `x` writes, cell by cell.
  ghost predicate TurnedLeft<V, A>(h: Heap<V, A>, h': Heap<V, A>, x: Node<V, A>)
    requires x in h && h[x].right in h
  {
    var y, p := h[x].right, h[x].parent;
    var b := h[y].left;
    h'.Keys == h.Keys && forall n | n in h ::
      h'[n] ==
        if n == x then h[n].(right := b, parent := y)
        else if n == y then h[n].(left := x, parent := p)
        else if n == b then h[n].(parent := x)
        else if n != p then h[n]
        else if h[n].left == x then h[n].(left := y) else h[n].(right := y)
  }

  lemma LeftRotationCells<V, A>(h: Heap<V, A>, root: Node?<V, A>, c: Ctx<V, A>, t: Tree<V, A>)
    requires t.Bin? && t.right.Bin? && Apart(c, t)
    requires FitsCtx(h, root, c, Root(t)) && Fits(h, t, ParentOf(c))
    ensures var x, y, b, p := t.node, t.right.node, Root(t.right.left), ParentOf(c);
      && x in h && h[x].right == y && h[x].parent == p && y in h && h[y].left == b
      && x != y && b != x && b != y && p != x && p != y && (p != null ==> b != p)
      && (b != null ==> b in h && b in Nodes(t))
      && (p != null ==> p in h && p in CtxNodes(c) && (h[p].left == x <==> c.InLeft?))
      && (p == null ==> c.Top?)
  {
    var b := t.right.left;
    assert Fits(h, t.right, t.node) && Fits(h, b, t.right.node) && Distinct(t.right);
    assert b.Bin? ==> b.node in Nodes(b);
    assert Nodes(t) == Nodes(t.left) + {t.node} + (Nodes(b) + {t.right.node} + Nodes(t.right.right));
    if c.InRight? {
      assert c.left.Bin? ==> c.left.node in Nodes(c.left) && c.left.node in CtxNodes(c);
    }
  }

  lemma RotatedLeftFits<V, A>(h: Heap<V, A>, h': Heap<V, A>, root: Node?<V, A>, root': Node?<V, A>,
                              c: Ctx<V, A>, t: Tree<V, A>)
    requires t.Bin? && t.right.Bin? && Apart(c, t)
    requires FitsCtx(h, root, c, Root(t)) && Fits(h, t, ParentOf(c))
    requires h.Keys == CtxNodes(c) + Nodes(t) && h[t.node].right in h && TurnedLeft(h, h', t.node)
    requires root' == if c.Top? then t.right.node else root
    ensures FitsCtx(h', root', c, t.right.node) && Fits(h', RotatedLeft(t), ParentOf(c))
  {
    var a, b, d := t.left, t.right.left, t.right.right;
    assert Fits(h, t.right, t.node);
    assert Distinct(t.right) && (b.Bin? ==> b.node in Nodes(b));
    assert Nodes(t) == Nodes(a) + {t.node} + (Nodes(b) + {t.right.node} + Nodes(d));
    LeftRotationCells(h, root, c, t);
    FitsFrame(h, h', a, t.node);
    FitsFrame(h, h', d, t.right.node);
    FitsReparented(h, h', b, t.right.node, t.node);
    CtxRehung(h, h', root, root', c, t.node, t.right.node);
  }

  // What a right rotation at `x` writes, cell by cell.
  ghost predicate TurnedRight<V, A>(h: Heap<V, A>, h': Heap<V, A>, x: Node<V, A>)
    requires x in h && h[x].left in h
  {
    var y, p := h[x].left, h[x].parent;
    var b := h[y].right;
    h'.Keys == h.Keys && forall n | n in h ::
      h'[n] ==
        if n == x then h[n].(left := b, parent := y)
        else if n == y then h[n].(right := x, parent := p)
        else if n == b then h[n].(parent := x)
        else if n != p then h[n]
        else if h[n].right == x then h[n].(right := y) else h[n].(left := y)
  }

  lemma RightRotationCells<V, A>(h: Heap<V, A>, root: Node?<V, A>, c: Ctx<V, A>, t: Tree<V, A>)
    requires t.Bin? && t.left.Bin? && Apart(c, t)
    requires FitsCtx(h, root, c, Root(t)) && Fits(h, t, ParentOf(c))
    ensures var x, y, b, p := t.node, t.left.node, Root(t.left.right), ParentOf(c);
      && x in h && h[x].left == y && h[x].parent == p && y in h && h[y].right == b
      && x != y && b != x && b != y && p != x && p != y && (p != null ==> b != p)
      && (b != null ==> b in h && b in Nodes(t))
      && (p != null ==> p in h && p in CtxNodes(c) && (h[p].right == x <==> c.InRight?))
      && (p == null ==> c.Top?)
  {
    var b := t.left.right;
    assert Fits(h, t.left, t.node) && Fits(h, b, t.left.node) && Distinct(t.left);
    assert b.Bin? ==> b.node in Nodes(b);
    assert Nodes(t) == Nodes(t.right) + {t.node} + (Nodes(b) + {t.left.node} + Nodes(t.left.left));
    if c.InLeft? {
      assert c.right.Bin? ==> c.right.node in Nodes(c.right) && c.right.node in CtxNodes(c);
    }
  }

  lemma RotatedRightFits<V, A>(h: Heap<V, A>, h': Heap<V, A>, root: Node?<V, A>, root': Node?<V, A>,
                              c: Ctx<V, A>, t: Tree<V, A>)
    requires t.Bin? && t.left.Bin? && Apart(c, t)
    requires FitsCtx(h, root, c, Root(t)) && Fits(h, t, ParentOf(c))
    requires h.Keys == CtxNodes(c) + Nodes(t) && h[t.node].left in h && TurnedRight(h, h', t.node)
    requires root' == if c.Top? then t.left.node else root
    ensures FitsCtx(h', root', c, t.left.node) && Fits(h', RotatedRight(t), ParentOf(c))
  {
    var a, b, d := t.right, t.left.right, t.left.left;
    assert Fits(h, t.left, t.node);
    assert Distinct(t.left) && (b.Bin? ==> b.node in Nodes(b));
    assert Nodes(t) == Nodes(a) + {t.node} + (Nodes(b) + {t.left.node} + Nodes(d));
    RightRotationCells(h, root, c, t);
    FitsFrame(h, h', a, t.node);
    FitsFrame(h, h', d, t.left.node);
    FitsReparented(h, h', b, t.left.node, t.node);
    CtxRehung(h, h', root, root', c, t.node, t.left.node);
  }

  // The cells once the subtree `t` hangs where its former parent `n` was.
  lemma LiftFits<V, A>(h: Heap<V, A>, h1: Heap<V, A>, h': Heap<V, A>, root: Node?<V, A>,
                       c: Ctx<V, A>, n: Node<V, A>, t: Tree<V, A>)
    requires Apart(c, t) && FitsCtx(h1, root, c, Root(t)) && Fits(h, t, n)
    requires forall x | x in CtxNodes(c) :: x in h1 && x in h' && h'[x] == h1[x]
    requires forall x | x in Nodes(t) ::
      x in h && x in h' && h'[x] == if x == Root(t) then h[x].(parent := ParentOf(c)) else h[x]
    ensures FitsCtx(h', root, c, Root(t)) && Fits(h', t, ParentOf(c))
  {
    FitsReparented(h, h', t, n, ParentOf(c));
    CtxFrame(h1, h', root, c, Root(t));
  }

  // The cells once `t.node`, already above `t.right`, has been put in the place of `n`.
  lemma SucceedFits<V, A>(h: Heap<V, A>, h1: Heap<V, A>, h': Heap<V, A>, root: Node?<V, A>,
                          c: Ctx<V, A>, n: Node<V, A>, t: Tree<V, A>)
    requires t.Bin? && t.left.Bin? && Apart(c, t)
    requires FitsCtx(h1, root, c, t.node) && Fits(h, t.left, n) && Fits(h, t.right, t.node)
    requires forall x | x in CtxNodes(c) :: x in h1 && x in h' && h'[x] == h1[x]
    requires forall x | x in Nodes(t.left) ::
      x in h && x in h' && h'[x] == if x == t.left.node then h[x].(parent := t.node) else h[x]
    requires forall x | x in Nodes(t.right) :: x in h && x in h' && h'[x] == h[x]
    requires t.node in h' && h'[t.node] == Cell(t.left.node, Root(t.right), ParentOf(c), t.attr)
    ensures FitsCtx(h', root, c, t.node) && Fits(h', t, ParentOf(c))
  {
    assert Distinct(t.left) && Nodes(t.left) !! Nodes(t.right) && t.left.node in Nodes(t.left);
    FitsReparented(h, h', t.left, n, t.node);
    FitsFrame(h, h', t.right, t.node);
    CtxFrame(h1, h', root, c, t.node);
  }

  lemma InheritApart<V, A>(c: Ctx<V, A>, t: Tree<V, A>)
    requires Apart(c, t) && t.Bin? && t.left.Bin?
    ensures t.left.node in Nodes(t.left) && Nodes(t.left) !! Nodes(t.right)
    ensures t.node !in Nodes(t.left) && t.node !in Nodes(t.right) && t.node !in CtxNodes(c)
    ensures CtxNodes(c) !! Nodes(t.left) && CtxNodes(c) !! Nodes(t.right)
  {
  }

  // Taking the leftmost node out of a subtree.
  lemma LeftmostOut<V, A>(d: Ctx<V, A>, u: Tree<V, A>)
    requires Distinct(Plug(d, u)) && u.Bin? && u.left.Leaf?
    ensures var r := Plug(d, u.right);
      Distinct(r) && Nodes(Plug(d, u)) == Nodes(r) + {u.node} && u.node !in Nodes(r)
  {
    PlugDistinct(d, u);
    PlugDistinct(d, u.right);
    PlugNodes(d, u);
    PlugNodes(d, u.right);
    assert Nodes(u) == {u.node} + Nodes(u.right);
  }

  lemma {:induction false} PlugIsBin<V, A>(d: Ctx<V, A>, t: Tree<V, A>)
    requires !d.Top? || t.Bin?
    ensures Plug(d, t).Bin?
    decreases d
  {
    match d
    case Top =>
    case InLeft(up, n, a, r) => PlugIsBin(up, Bin(t, n, a, r));
    case InRight(l, n, a, up) => PlugIsBin(up, Bin(l, n, a, t));
  }

  lemma SuccessorNodes<V, A>(c: Ctx<V, A>, t: Tree<V, A>, d: Ctx<V, A>, u: Tree<V, A>)
    requires Apart(c, t) && t.Bin? && t.right == Plug(d, u) && u.Bin? && u.left.Leaf?
    ensures Nodes(t.right) == Nodes(Plug(d, u.right)) + {u.node} && u.node !in Nodes(Plug(d, u.right))
    ensures u.node !in Nodes(t.left) && u.node !in CtxNodes(c) && u.node != t.node
  {
    LeftmostOut(d, u);
    assert u.node in Nodes(t.right) && u.node in Nodes(t);
  }

  lemma SuccessorApart<V, A>(c: Ctx<V, A>, t: Tree<V, A>, d: Ctx<V, A>, u: Tree<V, A>)
    requires Apart(c, t) && t.Bin? && t.right == Plug(d, u) && u.Bin? && u.left.Leaf?
    ensures Apart(c, Bin(t.left, u.node, u.attr, Plug(d, u.right)))
  {
    LeftmostOut(d, u);
    SuccessorNodes(c, t, d, u);
    var l, r := t.left, Plug(d, u.right);
    assert forall x | x in Nodes(r) :: x in Nodes(t.right);
    assert Distinct(Bin(l, u.node, u.attr, r));
    assert forall x | x in Nodes(Bin(l, u.node, u.attr, r)) :: x in Nodes(t);
  }

  // With the leftmost node `m` of the right subtree in the place of `t.node`, and the focus where `m` was,
  // the order has lost exactly `t.node`.
  lemma SuccessorOrder<V, A>(c: Ctx<V, A>, t: Tree<V, A>, d: Ctx<V, A>, u: Tree<V, A>, m: Node<V, A>, a: A)
    requires t.Bin? && t.right == Plug(d, u) && u.Bin? && u.node == m && u.left.Leaf? && Before(d) == []
    ensures var c1 := Compose(d, InRight(t.left, m, a, c));
      Before(c1) + InOrder(u.right) + After(c1) == Before(c) + InOrder(t.left) + InOrder(t.right) + After(c)
  {
    var base := InRight(t.left, m, a, c);
    var c1 := Compose(d, base);
    PlugCompose(d, base, u);
    PlugInOrder(d, u);
    NilLeft(m, InOrder(u.right), After(d));
    NilRight(Before(base));
    Glue(Before(c), InOrder(t.left), m, InOrder(u.right), After(d), After(c), Before(c1), After(c1), InOrder(t.right));
  }

  lemma NoneBefore<V, A>(d: Ctx<V, A>, base: Ctx<V, A>)
    requires Before(d) == [] && base.InRight?
    ensures d.Top? || d.InLeft?
    ensures !Compose(d, base).Top? && (Compose(d, base).InLeft? <==> !d.Top?)
  {
    assert d.InRight? ==> |Before(d)| > 0;
  }

  lemma NilLeft<T>(n: T, i: seq<T>, e: seq<T>)
    ensures [] + ([] + [n] + i) + e == [n] + i + e
  {
  }

  lemma NilRight<T>(s: seq<T>)
    ensures s + [] == s
  {
  }

  lemma Glue<T>(b: seq<T>, l: seq<T>, m: T, i: seq<T>, e: seq<T>, a: seq<T>, b1: seq<T>, a1: seq<T>, r: seq<T>)
    requires b1 == b + l + [m] && a1 == e + a && r == [m] + i + e
    ensures b1 + i + a1 == b + l + r + a
  {
    assert b1 + i + a1 == (b + l) + ([m] + i + e) + a;
  }

  // Whoever is the root of the whole tree is not below a context node.
  lemma {:induction false} RootAbove<V, A>(h: Heap<V, A>, root: Node?<V, A>, c: Ctx<V, A>, hole: Node?<V, A>)
    requires FitsCtx(h, root, c, hole) && !c.Top?
    ensures root in CtxNodes(c)
    decreases c
  {
    if !c.up.Top? {
      RootAbove(h, root, c.up, c.node);
    }
  }

  // The place of key `k` is in the hole of `c`.
  ghost predicate Bounds<V, A, K>(less: (K, K) -> bool, keyOf: V -> K, k: K, c: Ctx<V, A>) {
    AllBelow(less, keyOf, Before(c), k) && AllAbove(less, keyOf, After(c), k)
  }

  // Stepping right of a smaller key, or left of a greater one, keeps the search bounds.
  lemma SplitBounds<V, A, K(!new)>(less: (K, K) -> bool, keyOf: V -> K, k: K, b: seq<Node<V, A>>,
                                   l: seq<Node<V, A>>, n: Node<V, A>, r: seq<Node<V, A>>, a: seq<Node<V, A>>)
    requires StrictWeakOrder(less) && Sorted(less, keyOf, b + (l + [n] + r) + a)
    requires AllBelow(less, keyOf, b, k) && AllAbove(less, keyOf, a, k)
    ensures less(keyOf(n.data), k) ==> AllBelow(less, keyOf, b + l + [n], k)
    ensures less(k, keyOf(n.data)) ==> AllAbove(less, keyOf, [n] + r + a, k)
  {
    var s := b + (l + [n] + r) + a;
    var j := |b| + |l|;
    assert s[j] == n;
    if less(keyOf(n.data), k) {
      forall i | 0 <= i < j ensures less(keyOf((b + l)[i].data), k) {
        assert s[i] == (b + l)[i];
        assert less(keyOf(s[i].data), keyOf(s[j].data));
      }
    }
    if less(k, keyOf(n.data)) {
      var q := [n] + r + a;
      forall i | 0 <= i < |q| ensures less(k, keyOf(q[i].data)) {
        assert s[j + i] == q[i];
        assert i > 0 ==> less(keyOf(s[j].data), keyOf(s[j + i].data));
      }
    }
  }

  lemma SearchStep<V, A, K(!new)>(less: (K, K) -> bool, keyOf: V -> K, k: K, c: Ctx<V, A>, u: Tree<V, A>)
    requires StrictWeakOrder(less) && Sorted(less, keyOf, InOrder(Plug(c, u))) && u.Bin? && Bounds(less, keyOf, k, c)
    ensures less(keyOf(u.node.data), k) ==> Bounds(less, keyOf, k, InRight(u.left, u.node, u.attr, c))
    ensures less(k, keyOf(u.node.data)) ==> Bounds(less, keyOf, k, InLeft(c, u.node, u.attr, u.right))
    ensures u.node in InOrder(Plug(c, u))
  {
    PlugInOrder(c, u);
    SplitBounds(less, keyOf, k, Before(c), InOrder(u.left), u.node, InOrder(u.right), After(c));
    assert InOrder(u)[|InOrder(u.left)|] == u.node;
    assert InOrder(Plug(c, u))[|Before(c)| + |InOrder(u.left)|] == u.node;
  }

  class Links<V, A> {
    var root: Node?<V, A>
    ghost var nodes: set<Node<V, A>>

    constructor ()
      ensures At(Top, Leaf) && nodes == {}
    {
      root := null;
      nodes := {};
    }

    // The linked structure is exactly the subtree `t` in the context `c`.
    ghost predicate At(c: Ctx<V, A>, t: Tree<V, A>)
      reads this, nodes
    {
      && nodes == CtxNodes(c) + Nodes(t) && Apart(c, t)
      && FitsCtx(Picture(nodes), root, c, Root(t)) && Fits(Picture(nodes), t, ParentOf(c))
    }

    // The in-order sequence holds every node of the structure, each once.
    lemma OrderIsNodes(t: Tree<V, A>)
      requires At(Top, t)
      ensures EachOnce(InOrder(t), nodes)
    {
      InOrderNodes(t);
    }

    // Moving the focus between a subtree and its parent.
    lemma Climb(c: Ctx<V, A>, t: Tree<V, A>)
      ensures c.InLeft? ==> (At(c, t) <==> At(c.up, Bin(t, c.node, c.attr, c.right)))
      ensures c.InRight? ==> (At(c, t) <==> At(c.up, Bin(c.left, c.node, c.attr, t)))
    {
      if c.InLeft? {
        assert CtxNodes(c) + Nodes(t) == CtxNodes(c.up) + Nodes(Bin(t, c.node, c.attr, c.right));
      } else if c.InRight? {
        assert CtxNodes(c) + Nodes(t) == CtxNodes(c.up) + Nodes(Bin(c.left, c.node, c.attr, t));
      }
    }

    // The same structure seen from the hole of `d` or from the root of what fills `base`.
    lemma {:induction false} Refocus(d: Ctx<V, A>, base: Ctx<V, A>, t: Tree<V, A>)
      ensures At(Compose(d, base), t) <==> At(base, Plug(d, t))
      decreases d
    {
      Climb(Compose(d, base), t);
      match d
      case Top =>
      case InLeft(up, n, a, r) => Refocus(up, base, Bin(t, n, a, r));
      case InRight(l, n, a, up) => Refocus(up, base, Bin(l, n, a, t));
    }

    lemma Whole(c: Ctx<V, A>, t: Tree<V, A>)
      ensures At(c, t) <==> At(Top, Plug(c, t))
      ensures InOrder(Plug(c, t)) == Before(c) + InOrder(t) + After(c)
      ensures Nodes(Plug(c, t)) == CtxNodes(c) + Nodes(t)
    {
      Refocus(c, Top, t);
      ComposeTop(c);
      PlugInOrder(c, t);
      PlugNodes(c, t);
    }

    method LeftRevolve(x: Node<V, A>, ghost c: Ctx<V, A>, ghost t: Tree<V, A>)
      requires At(c, t) && t.Bin? && t.node == x && t.right.Bin?
      modifies this`root, nodes
      ensures At(c, RotatedLeft(t))
    {
      ghost var h, r := Picture(nodes), root;
      LeftRotationCells(h, r, c, t);
      TurnLeft(x);
      RotatedLeftKeeps(t);
      RotatedLeftFits(h, Picture(nodes), r, root, c, t);
    }

    method TurnLeft(x: Node<V, A>)
      requires x in nodes && x.right != null && x.right in nodes && x != x.right
      requires x.right.left != null ==> x.right.left in nodes && x.right.left != x && x.right.left != x.right
      requires x.parent != null ==>
                 x.parent in nodes && x.parent != x && x.parent != x.right && x.parent != x.right.left
      modifies this`root, nodes
      ensures root == if old(x.parent) == null then old(x.right) else old(root)
      ensures TurnedLeft(old(Picture(nodes)), Picture(nodes), x)
    {
      var pivot := x.right;
      x.right := pivot.left;
      if pivot.left != null {
        pivot.left.parent := x;
      }
      pivot.parent := x.parent;
      if x.parent == null {
        root := pivot;
      } else if x == x.parent.left {
        x.parent.left := pivot;
      } else {
        x.parent.right := pivot;
      }
      pivot.left := x;
      x.parent := pivot;
    }

    method RightRevolve(x: Node<V, A>, ghost c: Ctx<V, A>, ghost t: Tree<V, A>)
      requires At(c, t) && t.Bin? && t.node == x && t.left.Bin?
      modifies this`root, nodes
      ensures At(c, RotatedRight(t))
    {
      ghost var h, r := Picture(nodes), root;
      RightRotationCells(h, r, c, t);
      TurnRight(x);
      RotatedRightKeeps(t);
      RotatedRightFits(h, Picture(nodes), r, root, c, t);
    }

    method TurnRight(x: Node<V, A>)
      requires x in nodes && x.left != null && x.left in nodes && x != x.left
      requires x.left.right != null ==> x.left.right in nodes && x.left.right != x && x.left.right != x.left
      requires x.parent != null ==> x.parent in nodes && x.parent != x && x.parent != x.left && x.parent != x.left.right
      modifies this`root, nodes
      ensures root == if old(x.parent) == null then old(x.left) else old(root)
      ensures TurnedRight(old(Picture(nodes)), Picture(nodes), x)
    {
      var pivot := x.left;
      x.left := pivot.right;
      if pivot.right != null {
        pivot.right.parent := x;
      }
      pivot.parent := x.parent;
      if x.parent == null {
        root := pivot;
      } else if x == x.parent.right {
        x.parent.right := pivot;
      } else {
        x.parent.left := pivot;
      }
      pivot.right := x;
      x.parent := pivot;
    }

    method Paint(n: Node<V, A>, a: A, ghost c: Ctx<V, A>, ghost t: Tree<V, A>)
      requires At(c, t) && t.Bin? && t.node == n
      modifies n`attr
      ensures At(c, t.(attr := a)) && n.attr == a
    {
      ghost var h := Picture(nodes);
      n.attr := a;
      ghost var h' := Picture(nodes);
      FitsFrame(h, h', t.left, n);
      FitsFrame(h, h', t.right, n);
      CtxFrame(h, h', root, c, n);
      assert Nodes(t.(attr := a)) == Nodes(t);
    }

    // Links `node` into the empty place `c`, on the side the caller has chosen.
    method Attach(node: Node<V, A>, parent: Node?<V, A>, goLeft: bool, ghost c: Ctx<V, A>)
      requires At(c, Leaf) && parent == ParentOf(c) && (!c.Top? ==> goLeft == c.InLeft?)
      requires node !in nodes && node.left == null && node.right == null
      modifies this, nodes, node`parent
      ensures At(c, Bin(Leaf, node, node.attr, Leaf))
      ensures nodes == old(nodes) + {node}
    {
      ghost var h, r := Picture(nodes), root;
      node.parent := parent;
      if parent == null {
        root := node;
      } else if goLeft {
        parent.left := node;
      } else {
        parent.right := node;
      }
      nodes := nodes + {node};
      CtxRehung(h, Picture(nodes), r, root, c, null, node);
    }

    // `heir` takes the place of `gone` below its parent.
    method Transplant(gone: Node<V, A>, heir: Node?<V, A>, ghost c: Ctx<V, A>)
      requires CtxNodes(c) <= nodes && DistinctCtx(c)
      requires FitsCtx(Picture(nodes), root, c, gone) && gone.parent == ParentOf(c)
      requires gone !in CtxNodes(c) && (heir != null ==> heir !in CtxNodes(c))
      modifies this`root, CtxNodes(c), if heir != null then {heir} else {}
      ensures FitsCtx(Picture(nodes), root, c, heir)
      ensures heir != null ==>
        && heir.parent == ParentOf(c)
        && heir.left == old(heir.left) && heir.right == old(heir.right) && heir.attr == old(heir.attr)
    {
      ghost var h, r := Picture(nodes), root;
      var parent := gone.parent;
      if parent == null {
        root := heir;
      } else if parent.left == gone {
        parent.left := heir;
      } else {
        parent.right := heir;
      }
      if heir != null {
        heir.parent := parent;
      }
      CtxRehung(h, Picture(nodes), r, root, c, gone, heir);
    }

    // Puts `m` where `n` was, and hands it the left child of `n`.
    method Succeed(n: Node<V, A>, m: Node<V, A>, ghost c: Ctx<V, A>)
      requires CtxNodes(c) <= nodes && n in nodes && m in nodes && n.left != null && n.left in nodes
      requires DistinctCtx(c) && n !in CtxNodes(c) && m !in CtxNodes(c) && n.left !in CtxNodes(c)
      requires n != m && n.left != n && n.left != m
      requires FitsCtx(Picture(nodes), root, c, n) && n.parent == ParentOf(c)
      modifies this`root, CtxNodes(c), m, n.left
      ensures FitsCtx(Picture(nodes), root, c, m) && m.parent == ParentOf(c)
      ensures m.left == n.left && m.right == old(m.right) && m.attr == old(m.attr)
      ensures n.left.parent == m && n.left.left == old(n.left.left)
      ensures n.left.right == old(n.left.right) && n.left.attr == old(n.left.attr)
    {
      Transplant(n, m, c);
      ghost var h1 := Picture(nodes);
      m.left := n.left;
      m.left.parent := m;
      CtxFrame(h1, Picture(nodes), root, c, m);
    }

    // A node with at most one child gives its place to that child.
    method LiftRight(n: Node<V, A>, ghost c: Ctx<V, A>, ghost t: Tree<V, A>)
      requires At(c, t) && t.Bin? && t.node == n && t.left.Leaf?
      modifies this, nodes
      ensures At(c, t.right) && nodes == old(nodes) - {n}
      ensures n.right == old(n.right) && n.attr == old(n.attr)
    {
      ghost var h, r := Picture(nodes), t.right;
      assert r.Bin? ==> r.node in Nodes(r);
      Transplant(n, n.right, c);
      ghost var h1 := Picture(nodes);
      nodes := nodes - {n};
      LiftFits(h, h1, Picture(nodes), root, c, n, r);
    }

    method LiftLeft(n: Node<V, A>, ghost c: Ctx<V, A>, ghost t: Tree<V, A>)
      requires At(c, t) && t.Bin? && t.node == n && t.right.Leaf?
      modifies this, nodes
      ensures At(c, t.left) && nodes == old(nodes) - {n}
    {
      ghost var h, l := Picture(nodes), t.left;
      assert l.Bin? ==> l.node in Nodes(l);
      Transplant(n, n.left, c);
      ghost var h1 := Picture(nodes);
      nodes := nodes - {n};
      LiftFits(h, h1, Picture(nodes), root, c, n, l);
    }

    // `m`, above `r`, takes the place of `n` and its left subtree `l`.
    method Inherit(n: Node<V, A>, m: Node<V, A>, ghost c: Ctx<V, A>, ghost l: Tree<V, A>, ghost r: Tree<V, A>)
      requires l.Bin? && Apart(c, Bin(l, m, m.attr, r))
      requires n in nodes && nodes - {n} == CtxNodes(c) + Nodes(Bin(l, m, m.attr, r))
      requires FitsCtx(Picture(nodes), root, c, n) && n.parent == ParentOf(c)
      requires n.left == l.node && Fits(Picture(nodes), l, n)
      requires m.right == Root(r) && Fits(Picture(nodes), r, m)
      modifies this, nodes
      ensures At(c, Bin(l, m, old(m.attr), r)) && nodes == old(nodes) - {n}
    {
      hide Fits, FitsCtx, DistinctCtx, Distinct;
      ghost var h, done := Picture(nodes), Bin(l, m, m.attr, r);
      InheritApart(c, done);
      assert forall x | x in CtxNodes(c) + Nodes(done) :: x in nodes && x != n;
      Succeed(n, m, c);
      Settle(h, c, n, done);
      nodes := nodes - {n};
      assert nodes == CtxNodes(c) + Nodes(done);
    }

    lemma Settle(h: Heap<V, A>, c: Ctx<V, A>, n: Node<V, A>, t: Tree<V, A>)
      requires CtxNodes(c) + Nodes(t) <= nodes && Apart(c, t) && t.Bin? && t.left.Bin?
      requires FitsCtx(Picture(nodes), root, c, t.node) && Fits(h, t.left, n) && Fits(h, t.right, t.node)
      requires forall x | x in Nodes(t.left) && x != t.left.node :: x in h && Picture(nodes)[x] == h[x]
      requires t.left.node in h && Picture(nodes)[t.left.node] == h[t.left.node].(parent := t.node)
      requires forall x | x in Nodes(t.right) :: x in h && Picture(nodes)[x] == h[x]
      requires Picture(nodes)[t.node] == Cell(t.left.node, Root(t.right), ParentOf(c), t.attr)
      ensures var h' := Picture(CtxNodes(c) + Nodes(t));
        FitsCtx(h', root, c, t.node) && Fits(h', t, ParentOf(c))
    {
      SucceedFits(h, Picture(nodes), Picture(CtxNodes(c) + Nodes(t)), root, c, n, t);
    }

    // `m` comes from outside the tree and takes over the right subtree of `n`.
    method TakeRight(n: Node<V, A>, m: Node<V, A>, ghost c: Ctx<V, A>, ghost t: Tree<V, A>)
      requires At(c, t) && t.Bin? && t.node == n && t.left.Bin? && t.right.Bin? && m !in nodes
      modifies this`nodes, m, t.right.node
      ensures nodes == old(nodes) + {m}
      ensures FitsCtx(Picture(nodes), root, c, n) && n.parent == ParentOf(c)
      ensures n.left == t.left.node && Fits(Picture(nodes), t.left, n)
      ensures m.right == t.right.node && Fits(Picture(nodes), t.right, m) && m.attr == old(m.attr)
    {
      ghost var h := Picture(nodes);
      assert t.right.node in Nodes(t.right) && t.right.node in Nodes(t);
      m.right := n.right;
      m.right.parent := m;
      nodes := nodes + {m};
      ghost var h1 := Picture(nodes);
      CtxFrame(h, h1, root, c, n);
      FitsFrame(h, h1, t.left, n);
      FitsReparented(h, h1, t.right, n, m);
    }

    // `m`, the leftmost node of the right subtree of `n` and not its root, goes above that subtree.
    method BringUp(n: Node<V, A>, m: Node<V, A>, ghost c: Ctx<V, A>, ghost t: Tree<V, A>,
                   ghost d: Ctx<V, A>, ghost u: Tree<V, A>)
      requires At(c, t) && t.Bin? && t.node == n && t.left.Bin? && !d.Top?
      requires t.right == Plug(d, u) && u.Bin? && u.node == m && u.left.Leaf?
      modifies this, nodes
      ensures var r := Plug(d, u.right);
        && nodes == old(nodes) && FitsCtx(Picture(nodes), root, c, n) && n.parent == ParentOf(c)
        && n.left == t.left.node && Fits(Picture(nodes), t.left, n)
        && m.right == Root(r) && Fits(Picture(nodes), r, m) && m.attr == u.attr
    {
      hide Fits, FitsCtx;
      ghost var base, r := InRight(t.left, n, t.attr, c), Plug(d, u.right);
      SuccessorApart(c, t, d, u);
      SuccessorNodes(c, t, d, u);
      Climb(base, t.right);
      Refocus(d, base, u);
      Here(Compose(d, base), u);
      LiftRight(m, Compose(d, base), u);
      Refocus(d, base, u.right);
      Climb(base, r);
      PlugIsBin(d, u.right);
      TakeRight(n, m, c, Bin(t.left, n, t.attr, r));
    }

    // The two-child removal: `m`, the leftmost node of the right subtree, replaces `n`.
    method ReplaceBySuccessor(n: Node<V, A>, m: Node<V, A>, ghost c: Ctx<V, A>, ghost t: Tree<V, A>,
                              ghost d: Ctx<V, A>, ghost u: Tree<V, A>)
      requires At(c, t) && t.Bin? && t.node == n && t.left.Bin?
      requires t.right == Plug(d, u) && u.Bin? && u.node == m && u.left.Leaf?
      modifies this, nodes
      ensures At(c, Bin(t.left, m, u.attr, Plug(d, u.right))) && nodes == old(nodes) - {n}
    {
      SuccessorApart(c, t, d, u);
      SuccessorNodes(c, t, d, u);
      SuccessorParent(c, t, d, u);
      if m.parent != n {
        BringUp(n, m, c, t, d, u);
      } else {
        assert t.right == u && Fits(Picture(nodes), u, n);
      }
      ghost var done := Bin(t.left, m, m.attr, Plug(d, u.right));
      assert nodes - {n} == CtxNodes(c) + Nodes(done);
      Inherit(n, m, c, t.left, Plug(d, u.right));
    }

    lemma SuccessorParent(c: Ctx<V, A>, t: Tree<V, A>, d: Ctx<V, A>, u: Tree<V, A>)
      requires At(c, t) && t.Bin? && t.right == Plug(d, u) && u.Bin?
      ensures u.node in nodes && u.node.right == Root(u.right) && u.node.attr == u.attr
      ensures u.node.parent == if d.Top? then t.node else d.node
      ensures u.node.parent == t.node <==> d.Top?
      ensures d.InLeft? ==> d.node.left == u.node
    {
      var base := InRight(t.left, t.node, t.attr, c);
      Climb(base, t.right);
      Refocus(d, base, u);
      ComposeParent(d, base);
      Here(Compose(d, base), u);
      if !d.Top? {
        PlugNodes(d, u);
        assert d.node in CtxNodes(d) && d.node in Nodes(t.right);
      }
    }

    // The structure seen from the hole of `d` in the right subtree.
    lemma Below(c: Ctx<V, A>, l: Tree<V, A>, m: Node<V, A>, a: A, d: Ctx<V, A>, v: Tree<V, A>)
      requires At(c, Bin(l, m, a, Plug(d, v)))
      ensures var c1 := Compose(d, InRight(l, m, a, c));
        At(c1, v) && !c1.Top? && c1.node == if d.Top? then m else d.node
    {
      var base := InRight(l, m, a, c);
      Climb(base, Plug(d, v));
      Refocus(d, base, v);
      ComposeParent(d, base);
    }

    // What the objects at the focus hold.
    lemma Here(c: Ctx<V, A>, t: Tree<V, A>)
      requires At(c, t)
      ensures t.Bin? ==>
        && t.node in nodes && t.node.left == Root(t.left) && t.node.right == Root(t.right)
        && t.node.parent == ParentOf(c) && t.node.attr == t.attr
      ensures !c.Top? ==> c.node in nodes && c.node.attr == c.attr && c.node.parent == ParentOf(c.up)
      ensures c.InLeft? ==>
        c.node.left == Root(t) && c.node.right == Root(c.right) && (t.Bin? ==> c.node.right != t.node)
      ensures c.InRight? ==>
        c.node.right == Root(t) && c.node.left == Root(c.left) && (t.Bin? ==> c.node.left != t.node)
      ensures root == Root(t) <==> c.Top?
    {
      if c.InLeft? {
        assert c.right.Bin? ==> c.right.node in Nodes(c.right);
      } else if c.InRight? {
        assert c.left.Bin? ==> c.left.node in Nodes(c.left);
      }
      if !c.Top? {
        RootAbove(Picture(nodes), root, c, Root(t));
      }
      assert t.Bin? ==> t.node in Nodes(t);
    }

    method Leftmost(n: Node<V, A>, ghost c: Ctx<V, A>, ghost t: Tree<V, A>)
      returns (m: Node<V, A>, ghost d: Ctx<V, A>, ghost u: Tree<V, A>)
      requires At(c, t) && t.Bin? && t.node == n
      ensures t == Plug(d, u) && u.Bin? && u.node == m && u.left.Leaf? && Before(d) == []
    {
      m, d, u := n, Top, t;
      Here(c, t);
      while m.left != null
        invariant t == Plug(d, u) && u.Bin? && u.node == m && Before(d) == []
        invariant At(Compose(d, c), u) && m.left == Root(u.left)
        decreases u
      {
        m := m.left;
        d, u := InLeft(d, u.node, u.attr, u.right), u.left;
        Climb(Compose(d, c), u);
        Here(Compose(d, c), u);
      }
    }

    method Rightmost(n: Node<V, A>, ghost c: Ctx<V, A>, ghost t: Tree<V, A>)
      returns (m: Node<V, A>, ghost d: Ctx<V, A>, ghost u: Tree<V, A>)
      requires At(c, t) && t.Bin? && t.node == n
      ensures t == Plug(d, u) && u.Bin? && u.node == m && u.right.Leaf? && After(d) == []
    {
      m, d, u := n, Top, t;
      Here(c, t);
      while m.right != null
        invariant t == Plug(d, u) && u.Bin? && u.node == m && After(d) == []
        invariant At(Compose(d, c), u) && m.right == Root(u.right)
        decreases u
      {
        m := m.right;
        d, u := InRight(u.left, u.node, u.attr, d), u.right;
        Climb(Compose(d, c), u);
        Here(Compose(d, c), u);
      }
    }

    // `++`: the node after `n` in key order, or null after the last one.
    method Next(n: Node<V, A>, ghost t: Tree<V, A>, ghost i: nat) returns (r: Node?<V, A>)
      requires At(Top, t) && i < |InOrder(t)| && InOrder(t)[i] == n
      ensures r == if i + 1 < |InOrder(t)| then InOrder(t)[i + 1] else null
    {
      ghost var c, u := Locate(t, i);
      Whole(c, u);
      Here(c, u);
      assert InOrder(t)[i + 1..] == InOrder(u.right) + After(c);
      if n.right != null {
        ghost var d, v, rc := Top, u, InRight(u.left, n, u.attr, c);
        Climb(rc, u.right);
        r, d, v := Leftmost(n.right, rc, u.right);
        PlugInOrder(d, v);
      } else {
        var cur := n;
        var parent := n.parent;
        while parent != null && cur == parent.right
          invariant At(c, u) && u.Bin? && u.node == cur && parent == ParentOf(c)
          invariant After(c) == InOrder(t)[i + 1..]
          decreases c
        {
          Here(c, u);
          Climb(c, u);
          c, u := c.up, Bin(c.left, c.node, c.attr, u);
          Here(c, u);
          cur := parent;
          parent := parent.parent;
        }
        Here(c, u);
        r := parent;
      }
    }

    // `--`: the node before `n` in key order, or null before the first one.
    method Previous(n: Node<V, A>, ghost t: Tree<V, A>, ghost i: nat) returns (r: Node?<V, A>)
      requires At(Top, t) && i < |InOrder(t)| && InOrder(t)[i] == n
      ensures r == if i == 0 then null else InOrder(t)[i - 1]
    {
      ghost var c, u := Locate(t, i);
      Whole(c, u);
      Here(c, u);
      assert InOrder(t)[..i] == Before(c) + InOrder(u.left);
      if n.left != null {
        ghost var d, v, lc := Top, u, InLeft(c, n, u.attr, u.right);
        Climb(lc, u.left);
        r, d, v := Rightmost(n.left, lc, u.left);
        PlugInOrder(d, v);
      } else {
        var cur := n;
        var parent := n.parent;
        while parent != null && cur == parent.left
          invariant At(c, u) && u.Bin? && u.node == cur && parent == ParentOf(c)
          invariant Before(c) == InOrder(t)[..i]
          decreases c
        {
          Here(c, u);
          Climb(c, u);
          c, u := c.up, Bin(u, c.node, c.attr, c.right);
          Here(c, u);
          cur := parent;
          parent := parent.parent;
        }
        Here(c, u);
        r := parent;
      }
    }

    // `Begin` and `Rbegin`: the ends of the key order.
    method First(ghost t: Tree<V, A>) returns (r: Node?<V, A>)
      requires At(Top, t)
      ensures r == if InOrder(t) == [] then null else InOrder(t)[0]
    {
      r := root;
      Here(Top, t);
      if r != null {
        ghost var d, u;
        r, d, u := Leftmost(r, Top, t);
        PlugInOrder(d, u);
      }
    }

    method Last(ghost t: Tree<V, A>) returns (r: Node?<V, A>)
      requires At(Top, t)
      ensures r == if InOrder(t) == [] then null else InOrder(t)[|InOrder(t)| - 1]
    {
      r := root;
      Here(Top, t);
      if r != null {
        ghost var d, u;
        r, d, u := Rightmost(r, Top, t);
        PlugInOrder(d, u);
      }
    }

    // A whole walk `for (it = Begin(); it != End(); ++it)` and the reverse one.
    method Walk(ghost t: Tree<V, A>) returns (visited: seq<Node<V, A>>)
      requires At(Top, t)
      ensures visited == InOrder(t)
    {
      visited := [];
      var it := First(t);
      while it != null
        invariant |visited| <= |InOrder(t)| && visited == InOrder(t)[..|visited|]
        invariant it == if |visited| < |InOrder(t)| then InOrder(t)[|visited|] else null
        decreases |InOrder(t)| - |visited|
      {
        var next := Next(it, t, |visited|);
        visited := visited + [it];
        it := next;
      }
    }

    method WalkBack(ghost t: Tree<V, A>) returns (visited: seq<Node<V, A>>)
      requires At(Top, t)
      ensures |visited| == |InOrder(t)|
      ensures forall i | 0 <= i < |visited| :: visited[i] == InOrder(t)[|visited| - 1 - i]
    {
      visited := [];
      var it := Last(t);
      ghost var left := |InOrder(t)|;
      while it != null
        invariant 0 <= left <= |InOrder(t)| && |visited| == |InOrder(t)| - left
        invariant forall i | 0 <= i < |visited| :: visited[i] == InOrder(t)[|InOrder(t)| - 1 - i]
        invariant it == if left > 0 then InOrder(t)[left - 1] else null
        decreases left
      {
        left := left - 1;
        var next := Previous(it, t, left);
        visited := visited + [it];
        it := next;
      }
    }

    // The search loop of both trees; `steps` counts its rounds.
    method FindNode<K(!new)>(less: (K, K) -> bool, keyOf: V -> K, k: K, ghost t: Tree<V, A>)
      returns (r: Node?<V, A>, parent: Node?<V, A>, ghost c: Ctx<V, A>, ghost u: Tree<V, A>, ghost steps: nat)
      requires At(Top, t) && StrictWeakOrder(less) && Sorted(less, keyOf, InOrder(t))
      ensures steps <= Height(t) && At(c, u) && Plug(c, u) == t && r == Root(u)
      ensures r != null ==> r in InOrder(t) && Equivalent(less, keyOf(r.data), k)
      ensures r == null ==>
        Bounds(less, keyOf, k, c) && InOrder(t) == Before(c) + After(c) && parent == ParentOf(c)
    {
      r, parent, c, u, steps := root, null, Top, t, 0;
      while r != null
        invariant At(c, u) && Plug(c, u) == t && r == Root(u) && parent == ParentOf(c)
        invariant Bounds(less, keyOf, k, c)
        invariant steps + Height(u) <= Height(t)
        decreases u
      {
        Here(c, u);
        SearchStep(less, keyOf, k, c, u);
        steps := steps + 1;
        var nodeKey := keyOf(r.data);
        if !less(nodeKey, k) && !less(k, nodeKey) {
          return;
        }
        parent := r;
        if less(nodeKey, k) {
          r := r.right;
          c, u := InRight(u.left, u.node, u.attr, c), u.right;
        } else {
          r := r.left;
          c, u := InLeft(c, u.node, u.attr, u.right), u.left;
        }
        Climb(c, u);
      }
      PlugInOrder(c, u);
    }

    // `Clear` drops a root that has no left child.
    method FreeRoot(node: Node<V, A>, ghost t: Tree<V, A>)
      requires At(Top, t) && t.Bin? && t.node == node && t.left.Leaf?
      modifies this, nodes
      ensures At(Top, t.right) && nodes == old(nodes) - {node}
    {
      ghost var h, r := Picture(nodes), t.right;
      assert r.Bin? ==> r.node in Nodes(r);
      root := node.right;
      if root != null {
        root.parent := null;
      }
      nodes := nodes - {node};
      FitsReparented(h, Picture(nodes), r, node, null);
    }
  }
}
