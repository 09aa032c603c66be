/**
 How a shape is laid out on the heap, and the height of a subtree found by walking it through
 parent pointers (src/util/avltree.c).
 */
module AvlHeap {
  import opened AvlShape

  /** The heap below `parent` has shape t. */
  ghost predicate Rep<K, V>(t: Tree<K, V>, parent: Node?<K, V>)
    reads Nodes(t)`left, Nodes(t)`right, Nodes(t)`parent, Nodes(t)`key, Nodes(t)`val
  {
    match t
    case Leaf => true
    case Bin(l, n, k, v, r) =>
      && n.parent == parent && n.key == k && n.val == v
      && n.left == RootOf(l) && n.right == RootOf(r)
      && Rep(l, n) && Rep(r, n)
  }

  ghost function CtxParent<K, V>(c: Ctx<K, V>, top: Node?<K, V>): Node?<K, V> {
    if c.Top? then top else c.n
  }

  /** The heap around a hole filled by node `hole`, below a node `top` outside the tree, has shape c. */
  ghost predicate RepCtx<K, V>(c: Ctx<K, V>, hole: Node?<K, V>, top: Node?<K, V>)
    reads CtxNodes(c)`left, CtxNodes(c)`right, CtxNodes(c)`parent, CtxNodes(c)`key, CtxNodes(c)`val
  {
    match c
    case Top => true
    case LeftOf(up, n, k, v, r) =>
      && n.parent == CtxParent(up, top) && n.key == k && n.val == v
      && n.left == hole && n.right == RootOf(r)
      && Rep(r, n) && RepCtx(up, n, top)
    case RightOf(l, n, k, v, up) =>
      && n.parent == CtxParent(up, top) && n.key == k && n.val == v
      && n.left == RootOf(l) && n.right == hole
      && Rep(l, n) && RepCtx(up, n, top)
  }

  lemma {:induction false} RepPlug<K, V>(c: Ctx<K, V>, t: Tree<K, V>, top: Node?<K, V>)
    ensures Rep(Plug(c, t), top) <==> Rep(t, CtxParent(c, top)) && RepCtx(c, RootOf(t), top)
    decreases c
  {
    match c
    case Top =>
    case LeftOf(up, n, k, v, r) => RepPlug(up, Bin(t, n, k, v, r), top);
    case RightOf(l, n, k, v, up) => RepPlug(up, Bin(l, n, k, v, t), top);
  }

  ghost predicate CtxOk<K, V>(c: Ctx<K, V>, t: Tree<K, V>) {
    Apart(t) && CtxApart(c) && Nodes(t) !! CtxNodes(c)
  }

  /** A focused tree: the subtree t in the context c, both on the heap and sharing no node. */
  ghost predicate Focus<K, V>(root: Node?<K, V>, c: Ctx<K, V>, t: Tree<K, V>)
    reads Nodes(t)`left, Nodes(t)`right, Nodes(t)`parent, Nodes(t)`key, Nodes(t)`val
    reads CtxNodes(c)`left, CtxNodes(c)`right, CtxNodes(c)`parent, CtxNodes(c)`key, CtxNodes(c)`val
  {
    && root == RootOf(Plug(c, t))
    && Rep(t, CtxParent(c, null)) && RepCtx(c, RootOf(t), null)
    && CtxOk(c, t)
  }

  /** The root of a tree with a hole does not depend on what fills it, unless the hole is the root. */
  lemma {:induction false} PlugRoot<K, V>(c: Ctx<K, V>, t: Tree<K, V>, u: Tree<K, V>)
    ensures !c.Top? ==> RootOf(Plug(c, t)) in CtxNodes(c) && RootOf(Plug(c, t)) == RootOf(Plug(c, u))
    decreases c
  {
    match c
    case Top =>
    case LeftOf(up, n, k, v, r) => PlugRoot(up, Bin(t, n, k, v, r), Bin(u, n, k, v, r));
    case RightOf(l, n, k, v, up) => PlugRoot(up, Bin(l, n, k, v, t), Bin(l, n, k, v, u));
  }

  ghost function LeftCtx<K, V>(c: Ctx<K, V>, f: Tree<K, V>): Ctx<K, V>
    requires f.Bin?
  {
    LeftOf(c, f.n, f.k, f.v, f.r)
  }

  ghost function RightCtx<K, V>(c: Ctx<K, V>, f: Tree<K, V>): Ctx<K, V>
    requires f.Bin?
  {
    RightOf(f.l, f.n, f.k, f.v, c)
  }

  ghost function UpTree<K, V>(c: Ctx<K, V>, f: Tree<K, V>): Tree<K, V>
    requires !c.Top?
  {
    if c.LeftOf? then Bin(f, c.n, c.k, c.v, c.r) else Bin(c.l, c.n, c.k, c.v, f)
  }

  lemma FocusUp<K, V>(root: Node?<K, V>, c: Ctx<K, V>, t: Tree<K, V>)
    requires Focus(root, c, t) && !c.Top?
    ensures Focus(root, c.up, UpTree(c, t))
  {
  }

  lemma FocusLeft<K, V>(root: Node?<K, V>, c: Ctx<K, V>, t: Tree<K, V>)
    requires Focus(root, c, t) && t.Bin?
    ensures Focus(root, LeftCtx(c, t), t.l)
  {
  }

  lemma FocusRight<K, V>(root: Node?<K, V>, c: Ctx<K, V>, t: Tree<K, V>)
    requires Focus(root, c, t) && t.Bin?
    ensures Focus(root, RightCtx(c, t), t.r)
  {
  }

  // ---------- node_height ----------

  /** The next sibling to the right, or null. */
  function Sibling<K, V>(node: Node<K, V>): Node?<K, V>
    reads node, node.parent
  {
    if node.parent == null then null
    else if node.parent.left == node then node.parent.right
    else null
  }

  /** The leftmost child, or null. */
  function FirstChild<K, V>(node: Node<K, V>): Node?<K, V>
    reads node
  {
    if node.left != null then node.left else node.right
  }

  ghost function Size<K, V>(t: Tree<K, V>): nat {
    match t
    case Leaf => 0
    case Bin(l, _, _, _, r) => 1 + Size(l) + Size(r)
  }

  ghost function Depth<K, V>(c: Ctx<K, V>): nat {
    if c.Top? then 0 else 1 + Depth(c.up)
  }

  /** How deep the subtrees to the right of the path reach: those the walk has yet to visit. */
  ghost function PendingDepth<K, V>(c: Ctx<K, V>): nat {
    match c
    case Top => 0
    case LeftOf(up, _, _, _, r) => Max(PendingDepth(up), Depth(up) + 1 + Height(r))
    case RightOf(_, _, _, _, up) => PendingDepth(up)
  }

  ghost function PendingSize<K, V>(c: Ctx<K, V>): nat {
    match c
    case Top => 0
    case LeftOf(up, _, _, _, r) => PendingSize(up) + Size(r)
    case RightOf(_, _, _, _, up) => PendingSize(up)
  }

  lemma {:induction false} PathHeight<K, V>(c: Ctx<K, V>, f: Tree<K, V>)
    ensures Depth(c) + Height(f) <= Height(Plug(c, f))
    decreases c
  {
    match c
    case Top =>
    case LeftOf(up, n, k, v, r) => PathHeight(up, Bin(f, n, k, v, r));
    case RightOf(l, n, k, v, up) => PathHeight(up, Bin(l, n, k, v, f));
  }

  lemma {:induction false} PlugRootNode<K, V>(c: Ctx<K, V>, f: Tree<K, V>)
    requires CtxOk(c, f) && f.Bin?
    ensures RootOf(Plug(c, f)) == f.n <==> c.Top?
  {
    PlugRoot(c, f, f);
  }

  /** The walk stands at the root of f, inside the tree t whose root is x. */
  ghost predicate At<K, V>(x: Node<K, V>, t: Tree<K, V>, top: Node?<K, V>,
                           node: Node?<K, V>, c: Ctx<K, V>, f: Tree<K, V>)
    reads Nodes(f)`left, Nodes(f)`right, Nodes(f)`parent, Nodes(f)`key, Nodes(f)`val
    reads CtxNodes(c)`left, CtxNodes(c)`right, CtxNodes(c)`parent, CtxNodes(c)`key, CtxNodes(c)`val
  {
    && Plug(c, f) == t && x == RootOf(t)
    && f.Bin? && node == f.n
    && Rep(f, CtxParent(c, top)) && RepCtx(c, node, top)
    && CtxOk(c, f)
  }

  /** How deep the tree reaches from the walk's position onwards. */
  ghost function Reach<K, V>(c: Ctx<K, V>, f: Tree<K, V>): nat {
    Max(Depth(c) + Height(f), PendingDepth(c))
  }

  lemma WalkDown<K, V>(x: Node<K, V>, t: Tree<K, V>, top: Node?<K, V>, node: Node<K, V>, c: Ctx<K, V>, f: Tree<K, V>)
    requires At(x, t, top, node, c, f) && FirstChild(node) != null
    ensures
      var c', f' := if node.left != null then LeftCtx(c, f) else RightCtx(c, f), if node.left != null then f.l else f.r;
      && At(x, t, top, FirstChild(node), c', f')
      && Depth(c') == Depth(c) + 1
      && Reach(c', f') == Reach(c, f)
      && Size(f') + PendingSize(c') < Size(f) + PendingSize(c)
      && Size(f') < Size(f)
  {
    var d, p, hl, hr := Depth(c), PendingDepth(c), Height(f.l), Height(f.r);
    assert Reach(c, f) == Max(d + (1 + Max(hl, hr)), p);
    if node.left != null {
      assert Reach(LeftCtx(c, f), f.l) == Max(d + 1 + hl, Max(p, d + 1 + hr));
    } else {
      assert f.l.Leaf? && hl == 0 && f.r.Bin?;
      assert Reach(RightCtx(c, f), f.r) == Max(d + 1 + hr, p);
    }
  }

  lemma WalkUp<K, V>(x: Node<K, V>, t: Tree<K, V>, top: Node?<K, V>, node: Node<K, V>, c: Ctx<K, V>, f: Tree<K, V>)
    requires At(x, t, top, node, c, f) && !c.Top?
    ensures node.parent == c.n && At(x, t, top, node.parent, c.up, UpTree(c, f))
    ensures Sibling(node) == null ==> PendingDepth(c) == Max(PendingDepth(c.up), if c.LeftOf? then Depth(c) else 0)
    ensures PendingSize(c.up) <= PendingSize(c)
  {
  }

  lemma WalkRight<K, V>(x: Node<K, V>, t: Tree<K, V>, top: Node?<K, V>, node: Node<K, V>, c: Ctx<K, V>, f: Tree<K, V>)
    requires At(x, t, top, node, c, f) && !c.Top? && Sibling(node) != null
    ensures c.LeftOf?
    ensures
      var c' := RightOf(f, c.n, c.k, c.v, c.up);
      && At(x, t, top, Sibling(node), c', c.r)
      && Depth(c') == Depth(c)
      && Reach(c', c.r) == PendingDepth(c)
      && Size(c.r) + PendingSize(c') == PendingSize(c)
  {
  }

  /** node_height: the height of a subtree, by an iterative walk over parent pointers. */
  method NodeHeight<K, V>(x: Node?<K, V>, ghost t: Tree<K, V>, ghost top: Node?<K, V>) returns (h: int)
    requires Rep(t, top) && Apart(t) && x == RootOf(t)
    ensures h == Height(t)
  {
    if x == null { return 0; }
    var node := FirstChild(x);
    if node == null { return 1; }
    WalkDown(x, t, top, x, Top, t);
    ghost var c := if x.left != null then LeftCtx(Top, t) else RightCtx(Top, t);
    ghost var f := if x.left != null then t.l else t.r;
    PlugRootNode(c, f);
    var height, maxheight := 2, 2;
    while node != x
      invariant At(x, t, top, node, c, f)
      invariant node == x <==> c.Top?
      invariant height == Depth(c) + 1 <= maxheight
      invariant Max(maxheight, if c.Top? then 0 else Reach(c, f)) == Height(t)
      decreases !c.Top?, Size(f) + PendingSize(c)
    {
      ghost var todo := Size(f) + PendingSize(c);
      node, height, maxheight, c, f := Descend(x, t, top, node, height, maxheight, c, f);
      node, height, c, f := Ascend(x, t, top, node, height, maxheight, c, f);
      if node != x {
        WalkRight(x, t, top, node, c, f);
        c, f := RightOf(f, c.n, c.k, c.v, c.up), c.r;
        node := Sibling(node);
        PlugRootNode(c, f);
      }
    }
    return maxheight;
  }

  /** The first inner loop of node_height: go down to a leaf. */
  method Descend<K, V>(x: Node<K, V>, ghost t: Tree<K, V>, ghost top: Node?<K, V>, start: Node<K, V>, h0: int, m0: int,
                       ghost c0: Ctx<K, V>, ghost f0: Tree<K, V>)
    returns (node: Node<K, V>, height: int, maxheight: int, ghost c: Ctx<K, V>, ghost f: Tree<K, V>)
    requires At(x, t, top, start, c0, f0) && !c0.Top?
    requires h0 == Depth(c0) + 1 <= m0 && Max(m0, Reach(c0, f0)) == Height(t)
    ensures At(x, t, top, node, c, f) && !c.Top? && Height(f) == Size(f) == 1
    ensures height == Depth(c) + 1 <= maxheight && Max(maxheight, PendingDepth(c)) == Height(t)
    ensures 1 + PendingSize(c) <= Size(f0) + PendingSize(c0)
  {
    node, height, maxheight, c, f := start, h0, m0, c0, f0;
    while FirstChild(node) != null
      invariant At(x, t, top, node, c, f) && !c.Top?
      invariant height == Depth(c) + 1 <= maxheight
      invariant Max(maxheight, Reach(c, f)) == Height(t)
      invariant Size(f) + PendingSize(c) <= Size(f0) + PendingSize(c0)
      decreases Size(f)
    {
      WalkDown(x, t, top, node, c, f);
      c, f := if node.left != null then LeftCtx(c, f) else RightCtx(c, f), if node.left != null then f.l else f.r;
      node := FirstChild(node);
      height := height + 1;
      if height > maxheight { maxheight := height; }
    }
  }

  /** The second inner loop: go up until there is a sibling to visit, or the walk is over. */
  method Ascend<K, V>(x: Node<K, V>, ghost t: Tree<K, V>, ghost top: Node?<K, V>, start: Node<K, V>, h0: int, m: int,
                      ghost c0: Ctx<K, V>, ghost f0: Tree<K, V>)
    returns (node: Node<K, V>, height: int, ghost c: Ctx<K, V>, ghost f: Tree<K, V>)
    requires At(x, t, top, start, c0, f0) && !c0.Top?
    requires h0 == Depth(c0) + 1 <= m && Max(m, PendingDepth(c0)) == Height(t)
    ensures At(x, t, top, node, c, f) && (node == x <==> c.Top?)
    ensures node != x ==> Sibling(node) != null
    ensures height == Depth(c) + 1 <= m && Max(m, PendingDepth(c)) == Height(t)
    ensures PendingSize(c) <= PendingSize(c0)
  {
    node, height, c, f := start, h0, c0, f0;
    PlugRootNode(c, f);
    while Sibling(node) == null && node != x
      invariant At(x, t, top, node, c, f)
      invariant node == x <==> c.Top?
      invariant height == Depth(c) + 1 <= m
      invariant Max(m, PendingDepth(c)) == Height(t)
      invariant PendingSize(c) <= PendingSize(c0)
      decreases Depth(c)
    {
      WalkUp(x, t, top, node, c, f);
      c, f := c.up, UpTree(c, f);
      node := node.parent;
      height := height - 1;
      PlugRootNode(c, f);
    }
  }
}
