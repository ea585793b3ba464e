// The red-black tree: insertion and removal with their color repair loops.
module RedBlack {
  import opened LinkedTree
  import opened Ordering
  import opened Sequences

  datatype Color = Red | Black

  type RbNode<V> = Node<V, Color>
  type RbNode?<V> = Node?<V, Color>
  type RbTree<V> = Tree<V, Color>
  type RbCtx<V> = Ctx<V, Color>

  ghost predicate IsRed<V>(t: RbTree<V>) {
    t.Bin? && t.attr.Red?
  }

  // No red node has a red child, and every way down from `t` meets `h` black nodes.
  ghost predicate Colored<V>(t: RbTree<V>, h: int) {
    match t
    case Leaf => h == 0
    case Bin(l, _, Red, r) => Colored(l, h) && Colored(r, h) && !IsRed(l) && !IsRed(r)
    case Bin(l, _, Black, r) => h > 0 && Colored(l, h - 1) && Colored(r, h - 1)
  }

  ghost predicate BlackAbove<V>(c: RbCtx<V>) {
    c.Top? || c.attr.Black?
  }

  // The same for a context whose hole wants a subtree of black height `h`.
  ghost predicate CtxColored<V>(c: RbCtx<V>, h: int) {
    c.Top? ||
    var s := if c.InLeft? then c.right else c.left;
    && Colored(s, h)
    && if c.attr.Black? then CtxColored(c.up, h + 1)
       else !IsRed(s) && !c.up.Top? && c.up.attr.Black? && CtxColored(c.up, h)
  }

  ghost function BlackHeight<V>(t: RbTree<V>): nat {
    if t.Leaf? then 0 else BlackHeight(t.left) + if t.attr.Black? then 1 else 0
  }

  ghost predicate ValidColors<V>(t: RbTree<V>) {
    !IsRed(t) && Colored(t, BlackHeight(t))
  }

  lemma {:induction false} ColoredHeight<V>(t: RbTree<V>, h: int)
    requires Colored(t, h)
    ensures h == BlackHeight(t)
  {
    if t.Bin? {
      ColoredHeight(t.left, if t.attr.Red? then h else h - 1);
    }
  }

  // A colored context filled with a fitting subtree is a valid tree once its root is black.
  lemma {:induction false} PlugColored<V>(c: RbCtx<V>, t: RbTree<V>, h: int)
    requires CtxColored(c, h) && Colored(t, h) && (IsRed(t) ==> !c.Top? && BlackAbove(c))
    ensures ValidColors(Plug(c, t))
    decreases c
  {
    match c
    case Top => ColoredHeight(t, h);
    case InLeft(up, n, a, r) => PlugColored(up, Bin(t, n, a, r), if a.Red? then h else h + 1);
    case InRight(l, n, a, up) => PlugColored(up, Bin(l, n, a, t), if a.Red? then h else h + 1);
  }

  lemma {:induction false} UnplugColored<V>(c: RbCtx<V>, t: RbTree<V>) returns (h: int)
    requires ValidColors(Plug(c, t))
    ensures CtxColored(c, h) && Colored(t, h) && (IsRed(t) ==> !c.Top? && BlackAbove(c))
    decreases c
  {
    match c
    case Top => h := BlackHeight(t);
    case InLeft(up, n, a, r) =>
      h := UnplugColored(up, Bin(t, n, a, r));
      h := if a.Red? then h else h - 1;
    case InRight(l, n, a, up) =>
      h := UnplugColored(up, Bin(l, n, a, t));
      h := if a.Red? then h else h - 1;
  }

  // What a colored context says when the hole's parent is red.
  lemma RedParent<V>(c: RbCtx<V>, h: int)
    requires CtxColored(c, h) && !BlackAbove(c)
    ensures var s := if c.InLeft? then c.right else c.left;
      Colored(s, h) && !IsRed(s) && !c.up.Top? && c.up.attr.Black?
    ensures Colored(if c.up.InLeft? then c.up.right else c.up.left, h) && CtxColored(c.up.up, h + 1)
    ensures h >= 0
  {
    ColoredHeight(if c.InLeft? then c.right else c.left, h);
  }

  // A red leaf fits into every hole that was empty.
  lemma NewLeaf<V>(c: RbCtx<V>, t: RbTree<V>) returns (h: int)
    requires ValidColors(Plug(c, Leaf)) && IsRed(t) && t.left.Leaf? && t.right.Leaf?
    ensures CtxColored(c, h) && Colored(t, h) && InOrder(Plug(c, t)) == Before(c) + [t.node] + After(c)
  {
    h := UnplugColored(c, Leaf);
    PlugInOrder(c, t);
  }

  // Where the insertion repair ends, only the whole tree's root may still be red.
  lemma InsertedColors<V>(c: RbCtx<V>, t: RbTree<V>, h: int)
    requires IsRed(t) && CtxColored(c, h) && Colored(t, h) && BlackAbove(c)
    ensures var s := Plug(c, t); s.Bin? && ValidColors(s.(attr := Black))
    ensures var s := Plug(c, t); InOrder(s.(attr := Black)) == InOrder(s)
  {
    PlugIsBin(c, t);
    ColoredHeight(t, h);
    if c.Top? {
      ColoredHeight(t.(attr := Black), h + 1);
    } else {
      PlugColored(c, t, h);
    }
  }

  // How many more rounds the removal repair can take.
  ghost function RepairRounds<V>(c: RbCtx<V>, settled: bool): nat {
    if settled then 0
    else if OuterNephewRed(c) then 1
    else 2 + Depth(c)
  }

  // The next round takes the fourth case.
  ghost predicate OuterNephewRed<V>(c: RbCtx<V>) {
    !c.Top? &&
    var b := if c.InLeft? then c.right else c.left;
    b.Bin? && b.attr.Black? && IsRed(if c.InLeft? then b.right else b.left)
  }

  // The subtree that is one black node short has a sibling.
  lemma BrotherExists<V>(c: RbCtx<V>, t: RbTree<V>, h: int)
    requires CtxColored(c, h + 1) && Colored(t, h) && !c.Top?
    ensures h >= 0 && (if c.InLeft? then c.right else c.left).Bin?
  {
    ColoredHeight(t, h);
  }

  // The third case keeps the brother's colors right.
  lemma ThirdCaseColors<V>(b: RbTree<V>, b': RbTree<V>, h: int)
    requires Colored(b, h + 1) && b.Bin? && b.attr.Black?
    requires
      || (IsRed(b.left) && !IsRed(b.right) && b' ==
           Bin(b.left.left, b.left.node, Black, Bin(b.left.right, b.node, Red, b.right)))
      || (IsRed(b.right) && !IsRed(b.left) && b' ==
           Bin(Bin(b.left, b.node, Red, b.right.left), b.right.node, Black, b.right.right))
    ensures Colored(b', h + 1)
  {
    assert Colored(b.left, h) && Colored(b.right, h);
    if IsRed(b.left) {
      assert Colored(b'.left, h) && Colored(b'.right, h);
    } else {
      assert Colored(b'.right, h) && Colored(b'.left, h);
    }
  }

  // The fourth case repairs the whole tree.
  lemma FourthCaseColors<V>(c: RbCtx<V>, t: RbTree<V>, b: RbTree<V>, h: int, p: RbTree<V>)
    requires !c.Top? && CtxColored(c, h + 1) && Colored(t, h) && !IsRed(t) && OuterNephewRed(c)
    requires c.InLeft? ==>
      b == c.right && p == Bin(Bin(t, c.node, Black, b.left), b.node, c.attr, b.right.(attr := Black))
    requires c.InRight? ==>
      b == c.left && p == Bin(b.left.(attr := Black), b.node, c.attr, Bin(b.right, c.node, Black, t))
    ensures ValidColors(Plug(c.up, p)) && Plug(c.up, p).Bin? && BlackHeight(Plug(c.up, p)) > 0
  {
    ColoredHeight(t, h);
    var s := if c.InLeft? then c.right else c.left;
    assert Colored(s, h + 1) && Colored(s.left, h) && Colored(s.right, h);
    if c.InLeft? {
      assert Colored(b.right.(attr := Black), h + 1) && Colored(Bin(t, c.node, Black, b.left), h + 1);
    } else {
      assert Colored(b.left.(attr := Black), h + 1) && Colored(Bin(b.right, c.node, Black, t), h + 1);
    }
    PlugIsBin(c.up, p);
    PlugColored(c.up, p, if c.attr.Red? then h + 1 else h + 2);
  }

  // Removing `u`, which has at most the child `v`: harmless when `u` is red, else one black node is missing.
  lemma ExtractedColors<V>(c: RbCtx<V>, u: RbTree<V>, v: RbTree<V>) returns (h: int)
    requires ValidColors(Plug(c, u)) && u.Bin?
    requires (u.left.Leaf? && v == u.right) || (u.right.Leaf? && v == u.left)
    ensures CtxColored(c, h) && if u.attr.Red? then ValidColors(Plug(c, v)) else Colored(v, h - 1)
  {
    h := UnplugColored(c, u);
    if u.attr.Red? {
      PlugColored(c, v, h);
    }
  }

  // Seen from the place the successor `m` left, the colors are as before.
  lemma SuccessorColors<V>(c: RbCtx<V>, t: RbTree<V>, d: RbCtx<V>, u: RbTree<V>, m: RbNode<V>)
    requires ValidColors(Plug(c, t)) && t.Bin? && t.right == Plug(d, u)
    ensures ValidColors(Plug(Compose(d, InRight(t.left, m, t.attr, c)), u))
  {
    var t' := Bin(t.left, m, t.attr, t.right);
    var h := UnplugColored(c, t);
    assert Colored(t', h);
    PlugColored(c, t', h);
    PlugCompose(d, InRight(t.left, m, t.attr, c), u);
  }

  lemma Shift<T>(a: seq<T>, b: seq<T>, c: seq<T>)
    ensures a + (b + c) == (a + b) + c
  {
  }

  // Where the removal repair ends, blackening the current node makes the whole tree valid.
  lemma DeletedColors<V>(c: RbCtx<V>, t: RbTree<V>, h: int, settled: bool)
    requires CtxColored(c, h + 1)
    requires if settled then t.Bin? && t.attr.Black? && Colored(t, h + 1) else Colored(t, h) && (c.Top? || IsRed(t))
    ensures t.Bin? ==> ValidColors(Plug(c, t.(attr := Black))) && InOrder(t.(attr := Black)) == InOrder(t)
    ensures t.Bin? ==> Plug(c, t.(attr := Black)).Bin?
    ensures t.Leaf? ==> c.Top?
  {
    if t.Bin? {
      var u := t.(attr := Black);
      PlugIsBin(c, u);
      if !settled {
        ColoredHeight(t, h);
      }
      if settled || t.attr.Red? {
        PlugColored(c, u, h + 1);
      } else {
        PlugColored(c, u, h);
      }
    }
  }

  ghost function Pow2(n: nat): nat {
    if n == 0 then 1 else 2 * Pow2(n - 1)
  }

  lemma {:induction false} Pow2Monotone(m: nat, n: nat)
    requires m <= n
    ensures Pow2(m) <= Pow2(n)
    decreases n
  {
    if m < n {
      Pow2Monotone(m, n - 1);
    }
  }

  lemma {:induction false} ColoredSize<V>(t: RbTree<V>, h: nat)
    requires Colored(t, h)
    ensures Pow2(h) <= |InOrder(t)| + 1
    ensures Height(t) <= 2 * h + if IsRed(t) then 1 else 0
  {
    if t.Bin? {
      var k := if t.attr.Red? then h else h - 1;
      ColoredSize(t.left, k);
      ColoredSize(t.right, k);
    }
  }

  // A valid tree with n nodes is at most 2 * log2(n + 1) high.
  lemma HeightBound<V>(t: RbTree<V>)
    requires ValidColors(t)
    ensures Pow2(Height(t) / 2) <= |InOrder(t)| + 1
  {
    ColoredSize(t, BlackHeight(t));
    Pow2Monotone(Height(t) / 2, BlackHeight(t));
  }

  // Nodes on the way down to the right.
  ghost function SpineLength<V>(t: RbTree<V>): nat {
    if t.Leaf? then 0 else 1 + SpineLength(t.right)
  }

  lemma {:induction false} SpineBound<V>(t: RbTree<V>)
    ensures SpineLength(t) <= |InOrder(t)|
  {
    if t.Bin? {
      SpineBound(t.right);
    }
  }

  class RedBlackTree<K(!new), V> {
    const less: (K, K) -> bool
    const keyOf: V -> K
    const links: Links<V, Color>
    ghost var shape: RbTree<V>

    ghost predicate Valid()
      reads this, links, links.nodes
    {
      && StrictWeakOrder(less) && links.At(Top, shape)
      && Sorted(less, keyOf, InOrder(shape)) && ValidColors(shape)
    }

    constructor (less: (K, K) -> bool, keyOf: V -> K)
      requires StrictWeakOrder(less)
      ensures Valid() && fresh(links) && links.nodes == {} && shape == Leaf
      ensures this.less == less && this.keyOf == keyOf
    {
      this.less, this.keyOf := less, keyOf;
      links := new Links<V, Color>();
      shape := Leaf;
    }

    static predicate RedGet(n: RbNode?<V>)
      reads n
    {
      n != null && n.attr.Red?
    }

    // Where the insertion repair stands: a red node below a colored context, whose own parent may be red.
    ghost predicate InsertFocus(c: RbCtx<V>, t: RbTree<V>, h: int)
      reads links, links.nodes
    {
      links.At(c, t) && IsRed(t) && CtxColored(c, h) && Colored(t, h)
    }

    // Repairs the colors above a red node whose parent may be red as well.
    method InsertAdjust(inserted: RbNode<V>, ghost c0: RbCtx<V>, ghost t0: RbTree<V>, ghost h0: int)
      returns (ghost s: RbTree<V>)
      requires InsertFocus(c0, t0, h0) && t0.node == inserted
      modifies links, links.nodes
      ensures links.At(Top, s) && ValidColors(s) && InOrder(s) == InOrder(Plug(c0, t0))
      ensures links.nodes == old(links.nodes)
    {
      var node := inserted;
      ghost var c, t, h := c0, t0, h0;
      links.Here(c, t);
      while node != links.root && node.parent != null && RedGet(node.parent)
        invariant InsertFocus(c, t, h) && t.node == node && links.nodes == old(links.nodes)
        invariant InOrder(Plug(c, t)) == InOrder(Plug(c0, t0))
        invariant node.parent == ParentOf(c) && (node == links.root <==> c.Top?)
        invariant !c.Top? ==> c.node in links.nodes && c.node.attr == c.attr
        decreases if BlackAbove(c) then 0 else 1 + Depth(c)
      {
        node, c, t, h := InsertStep(node, c, t, h);
        links.Here(c, t);
      }
      links.Whole(c, t);
      s := Plug(c, t);
      InsertedColors(c, t, h);
      BlackenRoot(s);
      s := s.(attr := Black);
    }

    // One round of the repair loop.
    method InsertStep(node: RbNode<V>, ghost c: RbCtx<V>, ghost t: RbTree<V>, ghost h: int)
      returns (next: RbNode<V>, ghost c': RbCtx<V>, ghost t': RbTree<V>, ghost h': int)
      requires InsertFocus(c, t, h) && t.node == node && !BlackAbove(c)
      modifies links, links.nodes
      ensures InsertFocus(c', t', h') && t'.node == next && links.nodes == old(links.nodes)
      ensures InOrder(Plug(c', t')) == InOrder(Plug(c, t)) && (BlackAbove(c') || Depth(c') < Depth(c))
    {
      links.Here(c, t);
      RedParent(c, h);
      var parent := node.parent;
      ghost var c1 := c.up;
      ghost var p := if c.InLeft? then Bin(t, parent, Red, c.right) else Bin(c.left, parent, Red, t);
      links.Climb(c, t);
      links.Here(c1, p);
      var grandparent := parent.parent;
      if grandparent == null {
        assert false; // a red node has a parent
      }
      SiblingColor(c1, p);
      if parent == grandparent.left {
        var uncle := grandparent.right;
        if RedGet(uncle) {
          next, c', t', h' := InsertRecolor(grandparent, c, t, h);
        } else {
          next, c', t' := InsertTurnRight(node, parent, grandparent, c, t, h);
          h' := h;
        }
      } else {
        var uncle := grandparent.left;
        if RedGet(uncle) {
          next, c', t', h' := InsertRecolor(grandparent, c, t, h);
        } else {
          next, c', t' := InsertTurnLeft(node, parent, grandparent, c, t, h);
          h' := h;
        }
      }
    }

    // The uncle is red as well: the red moves up to the grandparent.
    method InsertRecolor(grandparent: RbNode<V>, ghost c: RbCtx<V>, ghost t: RbTree<V>, ghost h: int)
      returns (next: RbNode<V>, ghost c': RbCtx<V>, ghost t': RbTree<V>, ghost h': int)
      requires InsertFocus(c, t, h) && !BlackAbove(c) && !c.up.Top? && grandparent == c.up.node
      requires IsRed(if c.up.InLeft? then c.up.right else c.up.left)
      modifies links, links.nodes
      ensures InsertFocus(c', t', h') && t'.node == next && links.nodes == old(links.nodes)
      ensures InOrder(Plug(c', t')) == InOrder(Plug(c, t)) && Depth(c') < Depth(c)
    {
      hide Fits, FitsCtx;
      RedParent(c, h);
      ghost var c1 := c.up;
      ghost var p := if c.InLeft? then Bin(t, c.node, Red, c.right) else Bin(c.left, c.node, Red, t);
      ghost var g := if c1.InLeft? then Bin(p, grandparent, Black, c1.right) else Bin(c1.left, grandparent, Black, p);
      links.Climb(c, t);
      links.Climb(c1, p);
      PushBlackDown(grandparent, c1.up, g);
      next, c', h' := grandparent, c1.up, h + 1;
      t' := Bin(g.left.(attr := Black), grandparent, Red, g.right.(attr := Black));
      assert IsRed(t') && Colored(t', h');
      Refilled(c', g, t');
    }

    method BlackenRoot(ghost s: RbTree<V>)
      requires links.At(Top, s)
      modifies links.nodes
      ensures links.At(Top, if s.Bin? then s.(attr := Black) else Leaf)
    {
      links.Here(Top, s);
      if links.root != null {
        links.Paint(links.root, Black, Top, s);
      }
    }

    // The sibling object's color is the one the context records.
    lemma SiblingColor(c: RbCtx<V>, t: RbTree<V>)
      requires links.At(c, t) && !c.Top?
      ensures c.InLeft? ==> RedGet(c.node.right) == IsRed(c.right)
      ensures c.InRight? ==> RedGet(c.node.left) == IsRed(c.left)
    {
    }

    // Red children become black and their parent red.
    method PushBlackDown(grandparent: RbNode<V>, ghost c: RbCtx<V>, ghost g: RbTree<V>)
      requires links.At(c, g) && g.Bin? && g.node == grandparent && g.left.Bin? && g.right.Bin?
      modifies links.nodes
      ensures links.At(c, Bin(g.left.(attr := Black), g.node, Red, g.right.(attr := Black)))
    {
      ghost var l, r := g.left, g.right;
      links.Here(c, g);
      links.Climb(InLeft(c, g.node, g.attr, r), l);
      links.Paint(grandparent.left, Black, InLeft(c, g.node, g.attr, r), l);
      ghost var l' := l.(attr := Black);
      links.Climb(InLeft(c, g.node, g.attr, r), l');
      links.Here(c, Bin(l', g.node, g.attr, r));
      links.Climb(InRight(l', g.node, g.attr, c), r);
      links.Paint(grandparent.right, Black, InRight(l', g.node, g.attr, c), r);
      ghost var r' := r.(attr := Black);
      links.Climb(InRight(l', g.node, g.attr, c), r');
      links.Paint(grandparent, Red, c, Bin(l', g.node, g.attr, r'));
    }

    // The red parent is a left child and the uncle is black: at most two rotations end the repair.
    method InsertTurnRight(node: RbNode<V>, parent: RbNode<V>, grandparent: RbNode<V>,
                       ghost c: RbCtx<V>, ghost t: RbTree<V>, ghost h: int)
      returns (next: RbNode<V>, ghost c': RbCtx<V>, ghost t': RbTree<V>)
      requires InsertFocus(c, t, h) && t.node == node && !BlackAbove(c) && c.up.InLeft?
      requires parent == c.node && grandparent == c.up.node && !IsRed(c.up.right)
      modifies links, links.nodes
      ensures InsertFocus(c', t', h) && t'.node == next && BlackAbove(c') && links.nodes == old(links.nodes)
      ensures InOrder(Plug(c', t')) == InOrder(Plug(c, t))
    {
      RedParent(c, h);
      ghost var c1, u := c.up, c.up.right;
      ghost var c2, p := c1.up, if c.InLeft? then Bin(t, parent, Red, c.right) else Bin(c.left, parent, Red, t);
      links.Here(c, t);
      links.Climb(c, t);
      links.Here(c1, p);
      next, t' := node, t;
      var top := parent;
      if node == parent.right {
        next := parent;
        links.LeftRevolve(next, c1, p);
        RotatedLeftKeeps(p);
        Refilled(c1, p, RotatedLeft(p));
        p := RotatedLeft(p);
        t' := p.left;
        links.Here(c1, p);
        links.Climb(InLeft(c1, p.node, p.attr, p.right), t');
        links.Here(InLeft(c1, p.node, p.attr, p.right), t');
        top := next.parent;
      }
      links.Climb(c1, p);
      TurnOverRight(top, grandparent, c2, Bin(p, grandparent, Black, u));
      Refilled(c2, Bin(p, grandparent, Black, u), Bin(p.left, top, Black, Bin(p.right, grandparent, Red, u)));
      c' := InLeft(c2, top, Black, Bin(p.right, grandparent, Red, u));
      links.Climb(c', t');
    }

    method TurnOverRight(parent: RbNode<V>, grandparent: RbNode<V>, ghost c: RbCtx<V>, ghost g: RbTree<V>)
      requires links.At(c, g) && g.Bin? && g.node == grandparent && g.left.Bin? && g.left.node == parent
      modifies links, links.nodes
      ensures links.nodes == old(links.nodes)
      ensures var p := g.left;
        && links.At(c, Bin(p.left, parent, Black, Bin(p.right, grandparent, Red, g.right)))
        && InOrder(Bin(p.left, parent, Black, Bin(p.right, grandparent, Red, g.right))) == InOrder(g)
    {
      ghost var p, d := g.left, InLeft(c, g.node, g.attr, g.right);
      ghost var p' := p.(attr := Black);
      links.Climb(d, p);
      links.Paint(parent, Black, d, p);
      links.Climb(d, p');
      links.Paint(grandparent, Red, c, Bin(p', g.node, g.attr, g.right));
      links.RightRevolve(grandparent, c, Bin(p', g.node, Red, g.right));
      RotatedRightKeeps(Bin(p', g.node, Red, g.right));
    }

    // The red parent is a right child and the uncle is black: at most two rotations end the repair.
    method InsertTurnLeft(node: RbNode<V>, parent: RbNode<V>, grandparent: RbNode<V>,
                       ghost c: RbCtx<V>, ghost t: RbTree<V>, ghost h: int)
      returns (next: RbNode<V>, ghost c': RbCtx<V>, ghost t': RbTree<V>)
      requires InsertFocus(c, t, h) && t.node == node && !BlackAbove(c) && c.up.InRight?
      requires parent == c.node && grandparent == c.up.node && !IsRed(c.up.left)
      modifies links, links.nodes
      ensures InsertFocus(c', t', h) && t'.node == next && BlackAbove(c') && links.nodes == old(links.nodes)
      ensures InOrder(Plug(c', t')) == InOrder(Plug(c, t))
    {
      RedParent(c, h);
      ghost var c1, u := c.up, c.up.left;
      ghost var c2, p := c1.up, if c.InLeft? then Bin(t, parent, Red, c.right) else Bin(c.left, parent, Red, t);
      links.Here(c, t);
      links.Climb(c, t);
      links.Here(c1, p);
      next, t' := node, t;
      var top := parent;
      if node == parent.left {
        next := parent;
        links.RightRevolve(next, c1, p);
        RotatedRightKeeps(p);
        Refilled(c1, p, RotatedRight(p));
        p := RotatedRight(p);
        t' := p.right;
        links.Here(c1, p);
        links.Climb(InRight(p.left, p.node, p.attr, c1), t');
        links.Here(InRight(p.left, p.node, p.attr, c1), t');
        top := next.parent;
      }
      links.Climb(c1, p);
      TurnOverLeft(top, grandparent, c2, Bin(u, grandparent, Black, p));
      Refilled(c2, Bin(u, grandparent, Black, p), Bin(Bin(u, grandparent, Red, p.left), top, Black, p.right));
      c' := InRight(Bin(u, grandparent, Red, p.left), top, Black, c2);
      links.Climb(c', t');
    }

    method TurnOverLeft(parent: RbNode<V>, grandparent: RbNode<V>, ghost c: RbCtx<V>, ghost g: RbTree<V>)
      requires links.At(c, g) && g.Bin? && g.node == grandparent && g.right.Bin? && g.right.node == parent
      modifies links, links.nodes
      ensures links.nodes == old(links.nodes)
      ensures var p := g.right;
        && links.At(c, Bin(Bin(g.left, grandparent, Red, p.left), parent, Black, p.right))
        && InOrder(Bin(Bin(g.left, grandparent, Red, p.left), parent, Black, p.right)) == InOrder(g)
    {
      ghost var p, d := g.right, InRight(g.left, g.node, g.attr, c);
      ghost var p' := p.(attr := Black);
      links.Climb(d, p);
      links.Paint(parent, Black, d, p);
      links.Climb(d, p');
      links.Paint(grandparent, Red, c, Bin(g.left, g.node, g.attr, p'));
      links.LeftRevolve(grandparent, c, Bin(g.left, g.node, Red, p'));
      RotatedLeftKeeps(Bin(g.left, g.node, Red, p'));
    }

    // Where the removal repair stands: the hole's subtree is one black node short, or all is settled.
    ghost predicate Repairing(c: RbCtx<V>, t: RbTree<V>, h: int, settled: bool)
      reads links, links.nodes
    {
      && links.At(c, t) && CtxColored(c, h + 1)
      && if settled then t.Bin? && t.attr.Black? && Colored(t, h + 1) else Colored(t, h)
    }

    // The colors of an object's children are the ones the tree records.
    lemma ChildColors(c: RbCtx<V>, t: RbTree<V>)
      requires links.At(c, t) && t.Bin?
      ensures RedGet(t.node.left) == IsRed(t.left) && RedGet(t.node.right) == IsRed(t.right)
    {
      var h := Picture(links.nodes);
      assert Fits(h, t.left, t.node) && Fits(h, t.right, t.node);
    }

    // One round of the removal repair with the short side on the left.
    method FixLeft(parent: RbNode<V>, ghost c0: RbCtx<V>, ghost t0: RbTree<V>, ghost h0: int)
      returns (next: RbNode?<V>, nextParent: RbNode?<V>, nextIsLeft: bool, stop: bool,
               ghost c: RbCtx<V>, ghost t: RbTree<V>, ghost h: int, ghost settled: bool)
      requires Repairing(c0, t0, h0, false) && !IsRed(t0) && c0.InLeft? && parent == c0.node
      modifies links, links.nodes
      ensures links.nodes == old(links.nodes) && Repairing(c, t, h, settled)
      ensures InOrder(Plug(c, t)) == InOrder(Plug(c0, t0))
      ensures next == Root(t) && nextParent == ParentOf(c) && (!c.Top? ==> nextIsLeft == c.InLeft?)
      ensures stop ==> settled
      ensures settled ==> stop || next == links.root
      ensures !stop ==> RepairRounds(c, settled) < RepairRounds(c0, false)
    {
      ghost var c1 := c0;
      links.Here(c0, t0);
      BrotherExists(c0, t0, h0);
      SiblingColor(c0, t0);
      var brother := parent.right;
      if brother == null {
        assert false; // the short side always has a sibling
      }
      if RedGet(brother) {
        // case 1: the brother is red
        c1 := RedBrotherRight(parent, brother, c0, t0, h0);
        links.Here(c1, t0);
        BrotherExists(c1, t0, h0);
        brother := parent.right;
      }
      next, nextParent, nextIsLeft, stop, c, t, h, settled := BlackBrotherRight(parent, brother, c1, t0, h0);
    }

    method RedBrotherRight(parent: RbNode<V>, brother: RbNode<V>, ghost c: RbCtx<V>, ghost t: RbTree<V>, ghost h: int)
      returns (ghost c': RbCtx<V>)
      requires Repairing(c, t, h, false) && !IsRed(t) && c.InLeft? && parent == c.node
      requires IsRed(c.right) && brother == c.right.node
      modifies links, links.nodes
      ensures links.nodes == old(links.nodes) && Repairing(c', t, h, false)
      ensures InOrder(Plug(c', t)) == InOrder(Plug(c, t))
      ensures c'.InLeft? && c'.node == parent && c'.attr.Red? && Depth(c') == Depth(c) + 1
    {
      ghost var b, a := c.right, c.attr;
      assert c.attr.Black?;
      ghost var whole := Bin(t, parent, a, b);
      ghost var turned := Bin(Bin(t, parent, Red, b.left), brother, Black, b.right);
      links.Climb(c, t);
      TurnOverLeft(brother, parent, c.up, whole);
      Refilled(c.up, whole, turned);
      ghost var c1 := InLeft(c.up, brother, Black, b.right);
      c' := InLeft(c1, parent, Red, b.left);
      links.Climb(c1, Bin(t, parent, Red, b.left));
      links.Climb(c', t);
    }

    method BlackBrotherRight(parent: RbNode<V>, brother: RbNode<V>, ghost c0: RbCtx<V>, ghost t0: RbTree<V>,
                             ghost h0: int)
      returns (next: RbNode?<V>, nextParent: RbNode?<V>, nextIsLeft: bool, stop: bool,
               ghost c: RbCtx<V>, ghost t: RbTree<V>, ghost h: int, ghost settled: bool)
      requires Repairing(c0, t0, h0, false) && !IsRed(t0) && c0.InLeft? && parent == c0.node
      requires c0.right.Bin? && !IsRed(c0.right) && brother == c0.right.node
      modifies links, links.nodes
      ensures links.nodes == old(links.nodes) && Repairing(c, t, h, settled)
      ensures InOrder(Plug(c, t)) == InOrder(Plug(c0, t0))
      ensures next == Root(t) && nextParent == ParentOf(c) && (!c.Top? ==> nextIsLeft == c.InLeft?)
      ensures stop ==> settled
      ensures settled ==> stop || next == links.root
      ensures !stop ==> RepairRounds(c, settled) < RepairRounds(c0, false)
      ensures !stop && c0.attr.Red? ==> RepairRounds(c, settled) <= 1
    {
      ghost var b, cb := c0.right, InRight(t0, parent, c0.attr, c0.up);
      links.Here(c0, t0);
      links.Climb(c0, t0);
      links.Climb(cb, b);
      ChildColors(cb, b);
      if !RedGet(brother.left) && !RedGet(brother.right) {
        // case 2: the brother's children are black
        next, stop, c, t, h, settled := BlackNephewsRight(parent, brother, c0, t0, h0);
        links.Here(c, t);
        nextParent := next.parent;
        nextIsLeft := nextParent != null && nextParent.left == next;
      } else if !RedGet(brother.right) {
        // case 3: the brother's inner child is red, the outer one black
        c := InnerNephewRight(parent, brother, c0, t0, h0);
        t, h, settled, stop := t0, h0, false, false;
        links.Here(c, t);
        next, nextParent, nextIsLeft := parent.left, parent, true;
      } else {
        // case 4: the brother's outer child is red
        c, t, h := OuterNephewRight(parent, brother, c0, t0, h0);
        settled, stop := true, false;
        links.Here(c, t);
        next := links.root;
        nextParent, nextIsLeft := next.parent, true;
      }
    }

    method InnerNephewRight(parent: RbNode<V>, brother: RbNode<V>, ghost c0: RbCtx<V>, ghost t0: RbTree<V>,
                            ghost h0: int)
      returns (ghost c: RbCtx<V>)
      requires Repairing(c0, t0, h0, false) && !IsRed(t0) && c0.InLeft? && parent == c0.node
      requires c0.right.Bin? && !IsRed(c0.right) && brother == c0.right.node
      requires IsRed(c0.right.left) && !IsRed(c0.right.right)
      modifies links, links.nodes
      ensures links.nodes == old(links.nodes) && Repairing(c, t0, h0, false)
      ensures c.InLeft? && c.node == parent && OuterNephewRed(c)
      ensures InOrder(Plug(c, t0)) == InOrder(Plug(c0, t0))
    {
      ghost var b, cb := c0.right, InRight(t0, parent, c0.attr, c0.up);
      ghost var u := b.left;
      ghost var b' := Bin(u.left, u.node, Black, Bin(u.right, brother, Red, b.right));
      links.Here(c0, t0);
      links.Climb(c0, t0);
      links.Climb(cb, b);
      links.Here(cb, b);
      TurnOverRight(brother.left, brother, cb, b);
      ThirdCaseColors(b, b', h0);
      links.Climb(cb, b');
      assert InOrder(Bin(t0, parent, c0.attr, b')) == InOrder(Bin(t0, parent, c0.attr, b));
      Refilled(c0.up, Bin(t0, parent, c0.attr, b), Bin(t0, parent, c0.attr, b'));
      c := InLeft(c0.up, parent, c0.attr, b');
      links.Climb(c, t0);
    }

    method OuterNephewRight(parent: RbNode<V>, brother: RbNode<V>, ghost c0: RbCtx<V>, ghost t0: RbTree<V>,
                            ghost h0: int)
      returns (ghost c: RbCtx<V>, ghost t: RbTree<V>, ghost h: int)
      requires Repairing(c0, t0, h0, false) && !IsRed(t0) && c0.InLeft? && parent == c0.node
      requires OuterNephewRed(c0) && brother == c0.right.node
      modifies links, links.nodes
      ensures links.nodes == old(links.nodes) && Repairing(c, t, h, true) && c.Top?
      ensures InOrder(Plug(c, t)) == InOrder(Plug(c0, t0))
    {
      ghost var p := FixOuterRight(parent, brother, c0, t0, c0.right);
      FourthCaseColors(c0, t0, c0.right, h0, p);
      links.Whole(c0.up, p);
      c, t := Top, Plug(c0.up, p);
      h := BlackHeight(t) - 1;
    }

    method BlackNephewsRight(parent: RbNode<V>, brother: RbNode<V>, ghost c0: RbCtx<V>, ghost t0: RbTree<V>,
                             ghost h0: int)
      returns (next: RbNode<V>, stop: bool, ghost c: RbCtx<V>, ghost t: RbTree<V>, ghost h: int, ghost settled: bool)
      requires Repairing(c0, t0, h0, false) && !IsRed(t0) && c0.InLeft? && parent == c0.node
      requires c0.right.Bin? && !IsRed(c0.right) && brother == c0.right.node
      requires !IsRed(c0.right.left) && !IsRed(c0.right.right)
      modifies links, links.nodes
      ensures links.nodes == old(links.nodes) && Repairing(c, t, h, settled) && c == c0.up
      ensures InOrder(Plug(c, t)) == InOrder(Plug(c0, t0)) && next == Root(t)
      ensures stop == settled == c0.attr.Red?
    {
      ghost var b, cb := c0.right, InRight(t0, parent, c0.attr, c0.up);
      ghost var whole := Bin(t0, parent, c0.attr, b);
      ColoredHeight(t0, h0);
      links.Climb(c0, t0);
      links.Climb(cb, b);
      links.Paint(brother, Red, cb, b);
      links.Climb(cb, b.(attr := Red));
      c, t, h := c0.up, Bin(t0, parent, c0.attr, b.(attr := Red)), h0;
      assert InOrder(b.(attr := Red)) == InOrder(b) && InOrder(t) == InOrder(whole);
      Refilled(c, whole, t);
      links.Here(c, t);
      next := parent;
      if next.attr.Red? {
        links.Paint(next, Black, c, t);
        assert InOrder(t.(attr := Black)) == InOrder(t);
        Refilled(c, t, t.(attr := Black));
        t := t.(attr := Black);
        stop, settled := true, true;
      } else {
        h, stop, settled := h0 + 1, false, false;
      }
    }

    method FixOuterRight(parent: RbNode<V>, brother: RbNode<V>, ghost c: RbCtx<V>, ghost t: RbTree<V>,
                         ghost b: RbTree<V>)
      returns (ghost p: RbTree<V>)
      requires links.At(c, t) && c.InLeft? && c.node == parent && c.right == b
      requires b.Bin? && b.node == brother && IsRed(b.right)
      modifies links, links.nodes
      ensures p == Bin(Bin(t, parent, Black, b.left), brother, c.attr, b.right.(attr := Black))
      ensures links.At(c.up, p) && links.nodes == old(links.nodes)
      ensures InOrder(Plug(c.up, p)) == InOrder(Plug(c, t))
    {
      ghost var cb := InRight(t, parent, c.attr, c.up);
      links.Here(c, t);
      links.Climb(c, t);
      links.Climb(cb, b);
      links.Here(cb, b);
      links.Paint(brother, parent.attr, cb, b);
      ghost var b1 := b.(attr := c.attr);
      links.Climb(cb, b1);
      links.Paint(parent, Black, c.up, Bin(t, parent, c.attr, b1));
      ghost var cb' := InRight(t, parent, Black, c.up);
      links.Climb(cb', b1);
      links.Here(cb', b1);
      ghost var co := InRight(b.left, brother, c.attr, cb');
      links.Climb(co, b.right);
      links.Paint(brother.right, Black, co, b.right);
      links.Climb(co, b.right.(attr := Black));
      ghost var b2 := Bin(b.left, brother, c.attr, b.right.(attr := Black));
      links.Climb(cb', b2);
      p := Bin(t, parent, Black, b2);
      links.LeftRevolve(parent, c.up, p);
      RotatedLeftKeeps(p);
      assert InOrder(b2) == InOrder(b);
      Refilled(c.up, RotatedLeft(p), Bin(t, parent, c.attr, b));
      p := RotatedLeft(p);
    }

    // One round of the removal repair with the short side on the right.
    method FixRight(parent: RbNode<V>, ghost c0: RbCtx<V>, ghost t0: RbTree<V>, ghost h0: int)
      returns (next: RbNode?<V>, nextParent: RbNode?<V>, nextIsLeft: bool, stop: bool,
               ghost c: RbCtx<V>, ghost t: RbTree<V>, ghost h: int, ghost settled: bool)
      requires Repairing(c0, t0, h0, false) && !IsRed(t0) && c0.InRight? && parent == c0.node
      modifies links, links.nodes
      ensures links.nodes == old(links.nodes) && Repairing(c, t, h, settled)
      ensures InOrder(Plug(c, t)) == InOrder(Plug(c0, t0))
      ensures next == Root(t) && nextParent == ParentOf(c) && (!c.Top? ==> nextIsLeft == c.InLeft?)
      ensures stop ==> settled
      ensures settled ==> stop || next == links.root
      ensures !stop ==> RepairRounds(c, settled) < RepairRounds(c0, false)
    {
      ghost var c1 := c0;
      links.Here(c0, t0);
      BrotherExists(c0, t0, h0);
      SiblingColor(c0, t0);
      var brother := parent.left;
      if brother == null {
        assert false; // the short side always has a sibling
      }
      if RedGet(brother) {
        // case 1: the brother is red
        c1 := RedBrotherLeft(parent, brother, c0, t0, h0);
        links.Here(c1, t0);
        BrotherExists(c1, t0, h0);
        brother := parent.left;
      }
      next, nextParent, nextIsLeft, stop, c, t, h, settled := BlackBrotherLeft(parent, brother, c1, t0, h0);
    }

    method RedBrotherLeft(parent: RbNode<V>, brother: RbNode<V>, ghost c: RbCtx<V>, ghost t: RbTree<V>, ghost h: int)
      returns (ghost c': RbCtx<V>)
      requires Repairing(c, t, h, false) && !IsRed(t) && c.InRight? && parent == c.node
      requires IsRed(c.left) && brother == c.left.node
      modifies links, links.nodes
      ensures links.nodes == old(links.nodes) && Repairing(c', t, h, false)
      ensures InOrder(Plug(c', t)) == InOrder(Plug(c, t))
      ensures c'.InRight? && c'.node == parent && c'.attr.Red? && Depth(c') == Depth(c) + 1
    {
      ghost var b, a := c.left, c.attr;
      assert c.attr.Black?;
      ghost var whole := Bin(b, parent, a, t);
      ghost var turned := Bin(b.left, brother, Black, Bin(b.right, parent, Red, t));
      links.Climb(c, t);
      TurnOverRight(brother, parent, c.up, whole);
      Refilled(c.up, whole, turned);
      ghost var c1 := InRight(b.left, brother, Black, c.up);
      c' := InRight(b.right, parent, Red, c1);
      links.Climb(c1, Bin(b.right, parent, Red, t));
      links.Climb(c', t);
    }

    method BlackBrotherLeft(parent: RbNode<V>, brother: RbNode<V>, ghost c0: RbCtx<V>, ghost t0: RbTree<V>,
                            ghost h0: int)
      returns (next: RbNode?<V>, nextParent: RbNode?<V>, nextIsLeft: bool, stop: bool,
               ghost c: RbCtx<V>, ghost t: RbTree<V>, ghost h: int, ghost settled: bool)
      requires Repairing(c0, t0, h0, false) && !IsRed(t0) && c0.InRight? && parent == c0.node
      requires c0.left.Bin? && !IsRed(c0.left) && brother == c0.left.node
      modifies links, links.nodes
      ensures links.nodes == old(links.nodes) && Repairing(c, t, h, settled)
      ensures InOrder(Plug(c, t)) == InOrder(Plug(c0, t0))
      ensures next == Root(t) && nextParent == ParentOf(c) && (!c.Top? ==> nextIsLeft == c.InLeft?)
      ensures stop ==> settled
      ensures settled ==> stop || next == links.root
      ensures !stop ==> RepairRounds(c, settled) < RepairRounds(c0, false)
      ensures !stop && c0.attr.Red? ==> RepairRounds(c, settled) <= 1
    {
      ghost var b, cb := c0.left, InLeft(c0.up, parent, c0.attr, t0);
      links.Here(c0, t0);
      links.Climb(c0, t0);
      links.Climb(cb, b);
      ChildColors(cb, b);
      if !RedGet(brother.left) && !RedGet(brother.right) {
        // case 2: the brother's children are black
        next, stop, c, t, h, settled := BlackNephewsLeft(parent, brother, c0, t0, h0);
        links.Here(c, t);
        nextParent := next.parent;
        nextIsLeft := nextParent != null && nextParent.left == next;
      } else if !RedGet(brother.left) {
        // case 3: the brother's inner child is red, the outer one black
        c := InnerNephewLeft(parent, brother, c0, t0, h0);
        t, h, settled, stop := t0, h0, false, false;
        links.Here(c, t);
        next, nextParent, nextIsLeft := parent.right, parent, false;
      } else {
        // case 4: the brother's outer child is red
        c, t, h := OuterNephewLeft(parent, brother, c0, t0, h0);
        settled, stop := true, false;
        links.Here(c, t);
        next := links.root;
        nextParent, nextIsLeft := next.parent, false;
      }
    }

    method InnerNephewLeft(parent: RbNode<V>, brother: RbNode<V>, ghost c0: RbCtx<V>, ghost t0: RbTree<V>,
                           ghost h0: int)
      returns (ghost c: RbCtx<V>)
      requires Repairing(c0, t0, h0, false) && !IsRed(t0) && c0.InRight? && parent == c0.node
      requires c0.left.Bin? && !IsRed(c0.left) && brother == c0.left.node
      requires IsRed(c0.left.right) && !IsRed(c0.left.left)
      modifies links, links.nodes
      ensures links.nodes == old(links.nodes) && Repairing(c, t0, h0, false)
      ensures c.InRight? && c.node == parent && OuterNephewRed(c)
      ensures InOrder(Plug(c, t0)) == InOrder(Plug(c0, t0))
    {
      ghost var b, cb := c0.left, InLeft(c0.up, parent, c0.attr, t0);
      ghost var u := b.right;
      ghost var b' := Bin(Bin(b.left, brother, Red, u.left), u.node, Black, u.right);
      links.Here(c0, t0);
      links.Climb(c0, t0);
      links.Climb(cb, b);
      links.Here(cb, b);
      TurnOverLeft(brother.right, brother, cb, b);
      ThirdCaseColors(b, b', h0);
      links.Climb(cb, b');
      assert InOrder(Bin(b', parent, c0.attr, t0)) == InOrder(Bin(b, parent, c0.attr, t0));
      Refilled(c0.up, Bin(b, parent, c0.attr, t0), Bin(b', parent, c0.attr, t0));
      c := InRight(b', parent, c0.attr, c0.up);
      links.Climb(c, t0);
    }

    method OuterNephewLeft(parent: RbNode<V>, brother: RbNode<V>, ghost c0: RbCtx<V>, ghost t0: RbTree<V>,
                           ghost h0: int)
      returns (ghost c: RbCtx<V>, ghost t: RbTree<V>, ghost h: int)
      requires Repairing(c0, t0, h0, false) && !IsRed(t0) && c0.InRight? && parent == c0.node
      requires OuterNephewRed(c0) && brother == c0.left.node
      modifies links, links.nodes
      ensures links.nodes == old(links.nodes) && Repairing(c, t, h, true) && c.Top?
      ensures InOrder(Plug(c, t)) == InOrder(Plug(c0, t0))
    {
      ghost var p := FixOuterLeft(parent, brother, c0, t0, c0.left);
      FourthCaseColors(c0, t0, c0.left, h0, p);
      links.Whole(c0.up, p);
      c, t := Top, Plug(c0.up, p);
      h := BlackHeight(t) - 1;
    }

    method BlackNephewsLeft(parent: RbNode<V>, brother: RbNode<V>, ghost c0: RbCtx<V>, ghost t0: RbTree<V>,
                            ghost h0: int)
      returns (next: RbNode<V>, stop: bool, ghost c: RbCtx<V>, ghost t: RbTree<V>, ghost h: int, ghost settled: bool)
      requires Repairing(c0, t0, h0, false) && !IsRed(t0) && c0.InRight? && parent == c0.node
      requires c0.left.Bin? && !IsRed(c0.left) && brother == c0.left.node
      requires !IsRed(c0.left.left) && !IsRed(c0.left.right)
      modifies links, links.nodes
      ensures links.nodes == old(links.nodes) && Repairing(c, t, h, settled) && c == c0.up
      ensures InOrder(Plug(c, t)) == InOrder(Plug(c0, t0)) && next == Root(t)
      ensures stop == settled == c0.attr.Red?
    {
      ghost var b, cb := c0.left, InLeft(c0.up, parent, c0.attr, t0);
      ghost var whole := Bin(b, parent, c0.attr, t0);
      ColoredHeight(t0, h0);
      links.Climb(c0, t0);
      links.Climb(cb, b);
      links.Paint(brother, Red, cb, b);
      links.Climb(cb, b.(attr := Red));
      c, t, h := c0.up, Bin(b.(attr := Red), parent, c0.attr, t0), h0;
      assert InOrder(b.(attr := Red)) == InOrder(b) && InOrder(t) == InOrder(whole);
      Refilled(c, whole, t);
      links.Here(c, t);
      next := parent;
      if next.attr.Red? {
        links.Paint(next, Black, c, t);
        assert InOrder(t.(attr := Black)) == InOrder(t);
        Refilled(c, t, t.(attr := Black));
        t := t.(attr := Black);
        stop, settled := true, true;
      } else {
        h, stop, settled := h0 + 1, false, false;
      }
    }

    method FixOuterLeft(parent: RbNode<V>, brother: RbNode<V>, ghost c: RbCtx<V>, ghost t: RbTree<V>,
                        ghost b: RbTree<V>)
      returns (ghost p: RbTree<V>)
      requires links.At(c, t) && c.InRight? && c.node == parent && c.left == b
      requires b.Bin? && b.node == brother && IsRed(b.left)
      modifies links, links.nodes
      ensures p == Bin(b.left.(attr := Black), brother, c.attr, Bin(b.right, parent, Black, t))
      ensures links.At(c.up, p) && links.nodes == old(links.nodes)
      ensures InOrder(Plug(c.up, p)) == InOrder(Plug(c, t))
    {
      ghost var cb := InLeft(c.up, parent, c.attr, t);
      links.Here(c, t);
      links.Climb(c, t);
      links.Climb(cb, b);
      links.Here(cb, b);
      links.Paint(brother, parent.attr, cb, b);
      ghost var b1 := b.(attr := c.attr);
      links.Climb(cb, b1);
      links.Paint(parent, Black, c.up, Bin(b1, parent, c.attr, t));
      ghost var cb' := InLeft(c.up, parent, Black, t);
      links.Climb(cb', b1);
      links.Here(cb', b1);
      ghost var co := InLeft(cb', brother, c.attr, b.right);
      links.Climb(co, b.left);
      links.Paint(brother.left, Black, co, b.left);
      links.Climb(co, b.left.(attr := Black));
      ghost var b2 := Bin(b.left.(attr := Black), brother, c.attr, b.right);
      links.Climb(cb', b2);
      p := Bin(b2, parent, Black, t);
      links.RightRevolve(parent, c.up, p);
      RotatedRightKeeps(p);
      assert InOrder(b2) == InOrder(b);
      Refilled(c.up, RotatedRight(p), Bin(b, parent, c.attr, t));
      p := RotatedRight(p);
    }

    // One round of the removal repair, on the side where `cur` hangs.
    method FixRound(cur: RbNode?<V>, parent: RbNode<V>, isLeft: bool,
                    ghost c0: RbCtx<V>, ghost t0: RbTree<V>, ghost h0: int)
      returns (next: RbNode?<V>, nextParent: RbNode?<V>, nextIsLeft: bool, stop: bool,
               ghost c: RbCtx<V>, ghost t: RbTree<V>, ghost h: int, ghost settled: bool)
      requires Repairing(c0, t0, h0, false) && !IsRed(t0) && !c0.Top?
      requires cur == Root(t0) && parent == c0.node && isLeft == c0.InLeft?
      modifies links, links.nodes
      ensures links.nodes == old(links.nodes) && Repairing(c, t, h, settled)
      ensures InOrder(Plug(c, t)) == InOrder(Plug(c0, t0))
      ensures next == Root(t) && nextParent == ParentOf(c) && (!c.Top? ==> nextIsLeft == c.InLeft?)
      ensures stop ==> settled
      ensures settled ==> stop || next == links.root
      ensures !stop ==> RepairRounds(c, settled) < RepairRounds(c0, false)
    {
      links.Here(c0, t0);
      var goLeft := if cur != null then parent.left == cur else isLeft;
      if goLeft {
        next, nextParent, nextIsLeft, stop, c, t, h, settled := FixLeft(parent, c0, t0, h0);
      } else {
        next, nextParent, nextIsLeft, stop, c, t, h, settled := FixRight(parent, c0, t0, h0);
      }
    }

    // Repairs the colors after a black node has been taken out above the subtree `t0`.
    method DeleteAdjust(fixNode: RbNode?<V>, fixParent: RbNode?<V>, fixIsLeft: bool,
                        ghost c0: RbCtx<V>, ghost t0: RbTree<V>, ghost h0: int)
      returns (ghost s: RbTree<V>)
      requires Repairing(c0, t0, h0, false) && fixNode == Root(t0) && fixParent == ParentOf(c0)
      requires !c0.Top? ==> fixIsLeft == c0.InLeft?
      modifies links, links.nodes
      ensures links.At(Top, s) && (s.Bin? ==> ValidColors(s.(attr := Black)))
      ensures InOrder(s) == InOrder(Plug(c0, t0)) && links.nodes == old(links.nodes)
    {
      hide InOrder, Plug;
      var cur, parent, isLeft := fixNode, fixParent, fixIsLeft;
      ghost var c, t, h, settled := c0, t0, h0, false;
      links.Here(c, t);
      while cur != links.root && !RedGet(cur)
        invariant Repairing(c, t, h, settled) && links.nodes == old(links.nodes)
        invariant InOrder(Plug(c, t)) == InOrder(Plug(c0, t0))
        invariant cur == Root(t) && parent == ParentOf(c) && (!c.Top? ==> isLeft == c.InLeft?)
        invariant RedGet(cur) == IsRed(t) && (cur == links.root <==> c.Top?)
        invariant settled ==> cur == links.root
        decreases RepairRounds(c, settled)
      {
        if parent == null {
          assert false; // only the root has no parent
        }
        var stop;
        cur, parent, isLeft, stop, c, t, h, settled := FixRound(cur, parent, isLeft, c, t, h);
        links.Here(c, t);
        if stop {
          break;
        }
      }
      s := FinishRepair(cur, c, t, h, settled);
    }

    method FinishRepair(cur: RbNode?<V>, ghost c: RbCtx<V>, ghost t: RbTree<V>, ghost h: int, ghost settled: bool)
      returns (ghost s: RbTree<V>)
      requires Repairing(c, t, h, settled) && cur == Root(t) && (settled || c.Top? || IsRed(t))
      modifies links.nodes
      ensures links.At(Top, s) && (s.Bin? ==> ValidColors(s.(attr := Black)))
      ensures InOrder(s) == InOrder(Plug(c, t))
    {
      DeletedColors(c, t, h, settled);
      s := Plug(c, t);
      links.Whole(c, t);
      if cur != null {
        links.Here(c, t);
        links.Paint(cur, Black, c, t);
        Refilled(c, t, t.(attr := Black));
        links.Whole(c, t.(attr := Black));
        s := Plug(c, t.(attr := Black));
      }
    }

    // The two-child case: the successor `moved` takes the place and the color of `n`.
    method EraseInner(n: RbNode<V>, ghost c: RbCtx<V>, ghost t: RbTree<V>)
      returns (movedColor: Color, fixNode: RbNode?<V>, fixParent: RbNode<V>, fixIsLeft: bool,
               ghost c1: RbCtx<V>, ghost u: RbTree<V>)
      requires links.At(c, t) && t.Bin? && t.node == n && t.left.Bin? && t.right.Bin?
      requires ValidColors(Plug(c, t))
      modifies links, links.nodes
      ensures u.Bin? && u.left.Leaf? && links.At(c1, u.right) && links.nodes == old(links.nodes) - {n}
      ensures movedColor == u.attr && ValidColors(Plug(c1, u))
      ensures fixNode == Root(u.right) && fixParent == ParentOf(c1) && !c1.Top? && fixIsLeft == c1.InLeft?
      ensures Before(c1) + InOrder(u.right) + After(c1)
           == Before(c) + InOrder(t.left) + InOrder(t.right) + After(c)
    {
      links.Here(c, t);
      var nodeColor := n.attr;
      ghost var d, base := Top, InRight(t.left, n, t.attr, c);
      links.Climb(base, t.right);
      var moved;
      moved, d, u := links.Leftmost(n.right, base, t.right);
      links.SuccessorParent(c, t, d, u);
      NoneBefore(d, base);
      movedColor, fixNode := moved.attr, moved.right;
      if moved.parent == n {
        fixParent, fixIsLeft := moved, false;
      } else {
        fixParent := moved.parent;
        fixIsLeft := fixParent.left == moved;
      }
      links.ReplaceBySuccessor(n, moved, c, t, d, u);
      links.Paint(moved, nodeColor, c, Bin(t.left, moved, u.attr, Plug(d, u.right)));
      c1 := Compose(d, InRight(t.left, moved, t.attr, c));
      links.Below(c, t.left, moved, t.attr, d, u.right);
      SuccessorOrder(c, t, d, u, moved, t.attr);
      SuccessorColors(c, t, d, u, moved);
    }

    // Unlinks `n`; what was one of its places is left to `v`, the child of a former node `u`.
    method Unlink(n: RbNode<V>, ghost c: RbCtx<V>, ghost t: RbTree<V>)
      returns (movedColor: Color, fixNode: RbNode?<V>, fixParent: RbNode?<V>, fixIsLeft: bool,
               ghost c1: RbCtx<V>, ghost u: RbTree<V>, ghost v: RbTree<V>)
      requires links.At(c, t) && t.Bin? && t.node == n && ValidColors(Plug(c, t))
      modifies links, links.nodes
      ensures links.At(c1, v) && links.nodes == old(links.nodes) - {n}
      ensures u.Bin? && ((u.left.Leaf? && v == u.right) || (u.right.Leaf? && v == u.left))
      ensures movedColor == u.attr && ValidColors(Plug(c1, u))
      ensures fixNode == Root(v) && fixParent == ParentOf(c1) && (!c1.Top? ==> fixIsLeft == c1.InLeft?)
      ensures Before(c1) + InOrder(v) + After(c1) == Before(c) + InOrder(t.left) + InOrder(t.right) + After(c)
    {
      hide Fits, FitsCtx, Distinct, DistinctCtx, Colored;
      links.Here(c, t);
      movedColor, c1, u, v := n.attr, c, t, t.right;
      fixParent := n.parent;
      fixIsLeft := fixParent != null && fixParent.left == n;
      if n.left == null {
        fixNode := n.right;
        links.LiftRight(n, c, t);
      } else if n.right == null {
        fixNode, v := n.left, t.left;
        links.LiftLeft(n, c, t);
      } else {
        movedColor, fixNode, fixParent, fixIsLeft, c1, u := EraseInner(n, c, t);
        v := u.right;
      }
    }

    // Takes the node `n` out of the tree.
    method EraseNode(n: RbNode<V>, ghost c: RbCtx<V>, ghost t: RbTree<V>)
      returns (ghost s: RbTree<V>)
      requires links.At(c, t) && t.Bin? && t.node == n && ValidColors(Plug(c, t))
      modifies links, links.nodes
      ensures links.At(Top, s) && ValidColors(s) && links.nodes == old(links.nodes) - {n}
      ensures InOrder(s) == Before(c) + InOrder(t.left) + InOrder(t.right) + After(c)
    {
      var movedColor, fixNode, fixParent, fixIsLeft;
      ghost var c1, u, v;
      movedColor, fixNode, fixParent, fixIsLeft, c1, u, v := Unlink(n, c, t);
      ghost var h := ExtractedColors(c1, u, v);
      PlugInOrder(c1, v);
      if movedColor == Black {
        s := DeleteAdjust(fixNode, fixParent, fixIsLeft, c1, v, h - 1);
      } else {
        s := Plug(c1, v);
        links.Whole(c1, v);
      }
      BlackenRoot(s);
      s := if s.Bin? then s.(attr := Black) else Leaf;
    }

    // `FindKey`: the node with an equivalent key, found in at most as many steps as the tree is high.
    method FindKey(k: K) returns (r: RbNode?<V>, ghost steps: nat)
      requires Valid()
      ensures r != null ==> r in InOrder(shape) && Equivalent(less, keyOf(r.data), k)
      ensures r == null ==> forall n | n in InOrder(shape) :: !Equivalent(less, keyOf(n.data), k)
      ensures steps <= Height(shape)
    {
      ghost var c, u;
      var parent;
      r, parent, c, u, steps := links.FindNode(less, keyOf, k, shape);
      if r == null {
        NoneEquivalent(less, keyOf, k, Before(c), After(c));
      }
    }

    // `Push`: inserts a value unless an equivalent key is there already.
    method Push(v: V) returns (node: RbNode<V>, inserted: bool)
      requires Valid()
      modifies this, links, links.nodes
      ensures Valid() && node in InOrder(shape)
      ensures inserted <==> forall n | n in old(InOrder(shape)) :: !Equivalent(less, keyOf(n.data), keyOf(v))
      ensures !inserted ==> shape == old(shape) && Equivalent(less, keyOf(node.data), keyOf(v))
      ensures inserted ==> fresh(node) && node.data == v
      ensures links.nodes == if inserted then old(links.nodes) + {node} else old(links.nodes)
      ensures inserted ==>
        exists i | 0 <= i <= |old(InOrder(shape))| :: InOrder(shape) == InsertAt(old(InOrder(shape)), i, node)
    {
      hide Fits, FitsCtx, ValidColors;
      var found, parent;
      ghost var c, u, steps;
      found, parent, c, u, steps := links.FindNode(less, keyOf, keyOf(v), shape);
      if found != null {
        return found, false;
      }
      SideOfKey(less, keyOf, keyOf(v), c);
      node, shape := InsertNew(v, parent, c, u);
      SortedInsert(less, keyOf, Before(c), node, After(c));
      assert InOrder(shape)[|Before(c)|] == node;
      inserted := true;
    }

    // Hangs a new red node into the empty place `c` and repairs the colors.
    method InsertNew(v: V, parent: RbNode?<V>, ghost c: RbCtx<V>, ghost u: RbTree<V>)
      returns (node: RbNode<V>, ghost s: RbTree<V>)
      requires links.At(c, u) && u.Leaf? && parent == ParentOf(c) && ValidColors(Plug(c, u))
      requires !c.Top? ==> !less(keyOf(c.node.data), keyOf(v)) == c.InLeft?
      modifies links, links.nodes
      ensures fresh(node) && node.data == v && links.nodes == old(links.nodes) + {node}
      ensures links.At(Top, s) && ValidColors(s) && InOrder(s) == Before(c) + [node] + After(c)
    {
      node := new Node(v, Red);
      ghost var t := Bin(Leaf, node, Red, Leaf);
      ghost var h := NewLeaf(c, t);
      links.Attach(node, parent, parent != null && !less(keyOf(parent.data), keyOf(v)), c);
      s := InsertAdjust(node, c, t, h);
    }

    // `PopKey`: removes the value with an equivalent key, if there is one.
    method PopKey(k: K) returns (removed: bool)
      requires Valid()
      modifies this, links, links.nodes
      ensures Valid()
      ensures links.nodes <= old(links.nodes)
      ensures removed <==> exists n | n in old(InOrder(shape)) :: Equivalent(less, keyOf(n.data), k)
      ensures !removed ==> shape == old(shape)
      ensures removed ==>
        exists i | 0 <= i < |old(InOrder(shape))| ::
          && Equivalent(less, keyOf(old(InOrder(shape))[i].data), k)
          && InOrder(shape) == RemoveAt(old(InOrder(shape)), i)
    {
      var target, parent;
      ghost var c, u, steps;
      target, parent, c, u, steps := links.FindNode(less, keyOf, k, shape);
      if target == null {
        NoneEquivalent(less, keyOf, k, Before(c), After(c));
        return false;
      }
      RemovedOrder(less, keyOf, c, u);
      shape := EraseNode(target, c, u);
      removed := true;
    }

    // `Clear`: rotates left children up until the root has none, then frees the root.
    method Clear() returns (ghost freed: seq<RbNode<V>>)
      requires links.At(Top, shape)
      modifies this, links, links.nodes
      ensures freed == old(InOrder(shape)) && shape == Leaf && links.At(Top, shape)
      ensures EachOnce(freed, old(links.nodes))
    {
      hide EachOnce, Fits, FitsCtx, DistinctCtx, Distinct;
      ghost var s, order := shape, InOrder(shape);
      links.OrderIsNodes(s);
      freed := [];
      links.Here(Top, s);
      while links.root != null
        invariant links.At(Top, s) && (links.root != null <==> s.Bin?)
        invariant freed + InOrder(s) == order
        invariant links.nodes <= old(links.nodes)
        decreases |InOrder(s)|, |InOrder(s)| - SpineLength(s)
      {
        ghost var gone, rest := ClearStep(s);
        Shift(freed, gone, InOrder(rest));
        freed, s := freed + gone, rest;
        links.Here(Top, s);
      }
      assert freed + InOrder(s) == freed;
      shape := s;
    }

    method ClearStep(ghost s: RbTree<V>) returns (ghost gone: seq<RbNode<V>>, ghost s': RbTree<V>)
      requires links.At(Top, s) && s.Bin?
      modifies links, links.nodes
      ensures links.At(Top, s') && links.nodes <= old(links.nodes) && InOrder(s) == gone + InOrder(s')
      ensures |gone| == 1 || (gone == [] && SpineLength(s) < SpineLength(s') <= |InOrder(s')|)
    {
      links.Here(Top, s);
      var node := links.root;
      if node.left != null {
        links.RightRevolve(node, Top, s);
        RotatedRightKeeps(s);
        gone, s' := [], RotatedRight(s);
        SpineBound(s');
      } else {
        links.FreeRoot(node, s);
        gone, s' := [node], s.right;
      }
    }
  }
}
