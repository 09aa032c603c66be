/**
 The AVL tree operations (src/util/avltree.c).
 */
module AvlTree {
  import opened AvlShape
  import opened AvlHeap
  import opened AvlBalance
  import opened Wrappers

  ghost predicate HasKey<K, V>(es: seq<(K, V)>, key: K) {
    exists i :: 0 <= i < |es| && es[i].0 == key
  }

  /** The chain consists of exactly the given nodes. */
  ghost predicate Covers<K, V>(chain: seq<Node<K, V>>, nodes: set<Node<K, V>>) {
    (forall n :: n in chain ==> n in nodes) && (forall n :: n in nodes ==> n in chain)
  }

  /** The chain of allocated nodes, doubly linked from `first` to `last`. */
  ghost predicate ChainOk<K, V>(chain: seq<Node<K, V>>, first: Node?<K, V>, last: Node?<K, V>)
    reads chain`next, chain`prev
  {
    && first == (if |chain| > 0 then chain[0] else null)
    && last == (if |chain| > 0 then chain[|chain| - 1] else null)
    && (forall i {:trigger chain[i].prev} :: 0 <= i < |chain| ==> chain[i].prev == if i > 0 then chain[i - 1] else null)
    && (forall i {:trigger chain[i].next} :: 0 <= i < |chain| ==>
          chain[i].next == if i < |chain| - 1 then chain[i + 1] else null)
    && (forall i, j :: 0 <= i < j < |chain| ==> chain[i] != chain[j])
  }

  class AVLTree<K(!new), V> {
    var root: Node?<K, V>
    const cmp: (K, K) -> int
    var first: Node?<K, V>
    var prev: Node?<K, V>  // last node of the chain
    ghost var shape: Tree<K, V>
    ghost var chain: seq<Node<K, V>>

    /** The tree proper: a search tree laid out on the heap. */
    ghost predicate TreeOk()
      reads this, Nodes(shape)`left, Nodes(shape)`right, Nodes(shape)`parent, Nodes(shape)`key, Nodes(shape)`val
    {
      && root == RootOf(shape) && Rep(shape, null) && Apart(shape)
      && TotalOrder(cmp) && Sorted(Entries(shape), cmp)
    }

    ghost predicate Valid()
      reads this, Nodes(shape), chain
    {
      && TreeOk()
      && ChainOk(chain, first, prev)
      && Covers(chain, Nodes(shape))
    }

    /** The entries in key order. */
    ghost function Contents(): seq<(K, V)>
      reads this
    {
      Entries(shape)
    }

    constructor (cmp: (K, K) -> int)
      requires TotalOrder(cmp)
      ensures Valid() && Contents() == [] && this.cmp == cmp && Nodes(shape) == {}
    {
      root, first, prev := null, null, null;
      this.cmp := cmp;
      shape, chain := Leaf, [];
    }

    /** Make `parent`, or the root if there is none, point at `y` where it pointed at `x`. */
    method ReattachLeft(parent: Node?<K, V>, x: Node<K, V>, y: Node<K, V>,
                       ghost c: Ctx<K, V>, ghost t: Tree<K, V>, ghost u: Tree<K, V>)
      requires root == RootOf(Plug(c, t)) && t.Bin? && t.n == x && u.Bin? && u.n == y
      requires RepCtx(c, x, null) && CtxApart(c) && Nodes(t) !! CtxNodes(c) && CtxParent(c, null) == parent
      modifies `root, CtxNodes(c)`left, CtxNodes(c)`right
      ensures root == RootOf(Plug(c, u)) && RepCtx(c, y, null)
    {
      PlugRoot(c, t, u);
      if x == root { root := y; }
      if parent != null {
        if parent.left == x {
          parent.left := y;
        } else {
          parent.right := y;
        }
      }
    }

    /** The part of the rotation at and below x. */
    method TurnLeft(x: Node<K, V>, ghost parent: Node?<K, V>, ghost t: Tree<K, V>)
      requires Rep(t, parent) && Apart(t) && t.Bin? && t.n == x && t.r.Bin?
      modifies Nodes(t)`left, Nodes(t)`right, Nodes(t)`parent
      ensures Rep(RotL(t), parent)
    {
      ghost var p, m := t.r, t.r.l;
      assert Rep(p, x) && Apart(p) && Rep(m, p.n);
      assert m.Bin? ==> m.n in Nodes(m) && Apart(m) && Rep(m.l, m.n) && Rep(m.r, m.n);
      var pivot := x.right;
      var up := x.parent;
      x.right := pivot.left;
      if pivot.left != null { pivot.left.parent := x; }
      pivot.left := x;
      x.parent := pivot;
      pivot.parent := up;
      assert Rep(t.l, x) && Rep(p.r, p.n);
      assert Rep(m, x);
    }

    method RotateLeft(x: Node<K, V>, ghost c: Ctx<K, V>, ghost t: Tree<K, V>)
      requires Focus(root, c, t) && t.Bin? && t.n == x && t.r.Bin?
      modifies `root, Nodes(t)`left, Nodes(t)`right, Nodes(t)`parent, CtxNodes(c)`left, CtxNodes(c)`right
      ensures Focus(root, c, RotL(t))
    {
      RotLKeeps(t);
      ghost var u := RotL(t);
      var pivot := x.right;
      var parent := x.parent;
      assert allocated(CtxNodes(c));
      TurnLeft(x, parent, t);
      assert allocated(Nodes(u));
      ReattachLeft(parent, x, pivot, c, t, u);
      assert Rep(u, parent);
    }

    /** Make `parent`, or the root if there is none, point at `y` where it pointed at `x`. */
    method ReattachRight(parent: Node?<K, V>, x: Node<K, V>, y: Node<K, V>,
                       ghost c: Ctx<K, V>, ghost t: Tree<K, V>, ghost u: Tree<K, V>)
      requires root == RootOf(Plug(c, t)) && t.Bin? && t.n == x && u.Bin? && u.n == y
      requires RepCtx(c, x, null) && CtxApart(c) && Nodes(t) !! CtxNodes(c) && CtxParent(c, null) == parent
      modifies `root, CtxNodes(c)`left, CtxNodes(c)`right
      ensures root == RootOf(Plug(c, u)) && RepCtx(c, y, null)
    {
      PlugRoot(c, t, u);
      if x == root { root := y; }
      if parent != null {
        if parent.right == x {
          parent.right := y;
        } else {
          parent.left := y;
        }
      }
    }

    /** The part of the rotation at and below x. */
    method TurnRight(x: Node<K, V>, ghost parent: Node?<K, V>, ghost t: Tree<K, V>)
      requires Rep(t, parent) && Apart(t) && t.Bin? && t.n == x && t.l.Bin?
      modifies Nodes(t)`left, Nodes(t)`right, Nodes(t)`parent
      ensures Rep(RotR(t), parent)
    {
      ghost var p, m := t.l, t.l.r;
      assert Rep(p, x) && Apart(p) && Rep(m, p.n);
      assert m.Bin? ==> m.n in Nodes(m) && Apart(m) && Rep(m.l, m.n) && Rep(m.r, m.n);
      var pivot := x.left;
      var up := x.parent;
      x.left := pivot.right;
      if pivot.right != null { pivot.right.parent := x; }
      pivot.right := x;
      x.parent := pivot;
      pivot.parent := up;
      assert Rep(t.r, x) && Rep(p.l, p.n);
      assert Rep(m, x);
    }

    method RotateRight(x: Node<K, V>, ghost c: Ctx<K, V>, ghost t: Tree<K, V>)
      requires Focus(root, c, t) && t.Bin? && t.n == x && t.l.Bin?
      modifies `root, Nodes(t)`left, Nodes(t)`right, Nodes(t)`parent, CtxNodes(c)`left, CtxNodes(c)`right
      ensures Focus(root, c, RotR(t))
    {
      RotRKeeps(t);
      ghost var u := RotR(t);
      var pivot := x.left;
      var parent := x.parent;
      assert allocated(CtxNodes(c));
      TurnRight(x, parent, t);
      assert allocated(Nodes(u));
      ReattachRight(parent, x, pivot, c, t, u);
      assert Rep(u, parent);
    }

    // ---------- the chain ----------

    /** new_node: allocate a node and append it to the chain. */
    method NewNode(key: K, val: V) returns (node: Node<K, V>)
      requires ChainOk(chain, first, prev)
      modifies `first, `prev, `chain, chain`next
      ensures fresh(node) && node.key == key && node.val == val
      ensures node.left == null && node.right == null && node.parent == null
      ensures chain == old(chain) + [node] && ChainOk(chain, first, prev)
    {
      node := new Node(key, val);
      if prev != null {
        prev.next := node;
        node.prev := prev;
      }
      prev := node;
      if first == null { first := node; }
      chain := chain + [node];
    }

    /** dealloc_node: take a node out of the chain. */
    method DeallocNode(node: Node<K, V>, ghost i: nat)
      requires ChainOk(chain, first, prev) && i < |chain| && chain[i] == node
      modifies `first, `prev, `chain, chain`next, chain`prev
      ensures chain == old(chain)[..i] + old(chain)[i + 1..] && ChainOk(chain, first, prev)
      ensures node !in chain && forall n :: n in old(chain) ==> n == node || n in chain
    {
      if node == first { first := node.next; }
      if node == prev { prev := node.prev; }
      if node.prev != null { node.prev.next := node.next; }
      if node.next != null { node.next.prev := node.prev; }
      chain := chain[..i] + chain[i + 1..];
    }

    /** avltree_free: following the chain frees every node of the tree, and each only once. */
    method Free() returns (ghost freed: seq<Node<K, V>>)
      requires Valid()
      ensures freed == chain && Covers(freed, Nodes(shape))
      ensures forall i, j :: 0 <= i < j < |freed| ==> freed[i] != freed[j]
    {
      var node := first;
      freed := [];
      while node != null
        invariant |freed| <= |chain| && freed == chain[..|freed|]
        invariant node == if |freed| < |chain| then chain[|freed|] else null
        decreases |chain| - |freed|
      {
        var next := node.next;
        freed := freed + [node];
        node := next;
      }
    }

    // ---------- rebalancing ----------

    /** The difference in height of a node's two subtrees. */
    method BalanceOf(x: Node<K, V>, ghost t: Tree<K, V>, ghost top: Node?<K, V>) returns (balance: int)
      requires Rep(t, top) && Apart(t) && t.Bin? && t.n == x
      ensures balance == Balance(t)
    {
      assert allocated(Nodes(t));
      var hr := NodeHeight(x.right, t.r, x);
      var hl := NodeHeight(x.left, t.l, x);
      balance := hr - hl;
    }

    /** rebalance where the right subtree is two levels higher. */
    method FixRightHeavy(x: Node<K, V>, ghost c: Ctx<K, V>, ghost t: Tree<K, V>)
      requires Focus(root, c, t) && t.Bin? && t.n == x && Balance(t) == 2
      modifies `root, Nodes(t)`left, Nodes(t)`right, Nodes(t)`parent, CtxNodes(c)`left, CtxNodes(c)`right
      ensures Focus(root, c, Fix(t))
    {
      assert allocated(Nodes(t)) && allocated(CtxNodes(c));
      var rb := BalanceOf(x.right, t.r, x);
      if rb == 1 {
        RotateLeft(x, c, t);
      } else if rb == -1 {
        FocusRight(root, c, t);
        RotateRight(x.right, RightCtx(c, t), t.r);
        FocusUp(root, RightCtx(c, t), RotR(t.r));
        RotateLeft(x, c, t.(r := RotR(t.r)));
      }
    }

    /** rebalance where the left subtree is two levels higher. */
    method FixLeftHeavy(x: Node<K, V>, ghost c: Ctx<K, V>, ghost t: Tree<K, V>)
      requires Focus(root, c, t) && t.Bin? && t.n == x && Balance(t) == -2
      modifies `root, Nodes(t)`left, Nodes(t)`right, Nodes(t)`parent, CtxNodes(c)`left, CtxNodes(c)`right
      ensures Focus(root, c, Fix(t))
    {
      assert allocated(Nodes(t)) && allocated(CtxNodes(c));
      var lb := BalanceOf(x.left, t.l, x);
      if lb == -1 {
        RotateRight(x, c, t);
      } else if lb == 1 {
        FocusLeft(root, c, t);
        RotateLeft(x.left, LeftCtx(c, t), t.l);
        FocusUp(root, LeftCtx(c, t), RotL(t.l));
        RotateRight(x, c, t.(l := RotL(t.l)));
      }
    }

    /** One iteration of rebalance, at node x. */
    method FixAt(x: Node<K, V>, ghost c: Ctx<K, V>, ghost t: Tree<K, V>)
      requires Focus(root, c, t) && t.Bin? && t.n == x
      modifies `root, Nodes(t)`left, Nodes(t)`right, Nodes(t)`parent, CtxNodes(c)`left, CtxNodes(c)`right
      ensures Focus(root, c, Fix(t))
    {
      assert allocated(Nodes(t)) && allocated(CtxNodes(c));
      var balance := BalanceOf(x, t, x.parent);
      if balance == 2 {
        FixRightHeavy(x, c, t);
      } else if balance == -2 {
        FixLeftHeavy(x, c, t);
      }
    }

    /** rebalance: from the parent of the given node back to the root. */
    method Rebalance(node: Node<K, V>, ghost c0: Ctx<K, V>, ghost t0: Tree<K, V>)
      requires Focus(root, c0, t0) && t0.Bin? && t0.n == node
      modifies `root, Nodes(Plug(c0, t0))`left, Nodes(Plug(c0, t0))`right, Nodes(Plug(c0, t0))`parent
      ensures Focus(root, Top, FixUp(c0, t0))
    {
      ghost var c, t := c0, t0;
      var x := node.parent;
      while x != null
        invariant Focus(root, c, t) && t.Bin? && x == CtxParent(c, null)
        invariant FixUp(c, t) == FixUp(c0, t0) && Nodes(Plug(c, t)) == Nodes(Plug(c0, t0))
        decreases c
      {
        var next := x.parent;
        ghost var u := UpTree(c, t);
        FocusUp(root, c, t);
        PlugNodes(c.up, u);
        PlugNodes(c.up, Fix(u));
        FixKeeps(u);
        FixAt(x, c.up, u);
        c, t := c.up, Fix(u);
        x := next;
      }
    }

    // ---------- lookup ----------

    /** avltree_lookup. */
    method Lookup(key: K) returns (r: Option<V>)
      requires Valid()
      ensures r.None? ==> !HasKey(Contents(), key)
      ensures r.Some? ==> (key, r.value) in Contents()
    {
      ghost var c, t := Top, shape;
      var node := root;
      while node != null
        invariant Plug(c, t) == shape && OnPath(c, key, cmp)
        invariant node == RootOf(t) && exists top :: Rep(t, top)
        decreases t
      {
        var iswitch := cmp(key, node.key);
        if iswitch < 0 {
          c, t := LeftCtx(c, t), t.l;
          node := node.left;
        } else if iswitch > 0 {
          c, t := RightCtx(c, t), t.r;
          node := node.right;
        } else {
          PlugEntries(c, t);
          assert Ordered(cmp, key, node.key, key);
          assert Contents()[|Before(c)| + |Entries(t.l)|] == (key, node.val);
          return Some(node.val);
        }
      }
      PathSplits(c, t, key, cmp);
      PlugEntries(c, t);
      KeyAbsent(Before(c), After(c), key, cmp);
      assert Contents() == Before(c) + After(c);
      return None;
    }

    // ---------- insertion ----------

    /** Hang a new node below `node`, on the left. */
    method AttachLeft(node: Node<K, V>, leaf: Node<K, V>, ghost c: Ctx<K, V>, ghost t: Tree<K, V>)
      requires Focus(root, c, t) && t.Bin? && t.n == node && t.l.Leaf?
      requires leaf !in Nodes(t) && leaf !in CtxNodes(c) && leaf.left == null && leaf.right == null
      modifies node`left, leaf`parent
      ensures Focus(root, LeftCtx(c, t), Bin(Leaf, leaf, leaf.key, leaf.val, Leaf))
    {
      ghost var u := Bin(Leaf, leaf, leaf.key, leaf.val, Leaf);
      node.left := leaf;
      leaf.parent := node;
      assert Rep(t.r, node) && RepCtx(c, node, null);
      PlugRoot(LeftCtx(c, t), Leaf, u);
    }

    /** Hang a new node below `node`, on the right. */
    method AttachRight(node: Node<K, V>, leaf: Node<K, V>, ghost c: Ctx<K, V>, ghost t: Tree<K, V>)
      requires Focus(root, c, t) && t.Bin? && t.n == node && t.r.Leaf?
      requires leaf !in Nodes(t) && leaf !in CtxNodes(c) && leaf.left == null && leaf.right == null
      modifies node`right, leaf`parent
      ensures Focus(root, RightCtx(c, t), Bin(Leaf, leaf, leaf.key, leaf.val, Leaf))
    {
      ghost var u := Bin(Leaf, leaf, leaf.key, leaf.val, Leaf);
      node.right := leaf;
      leaf.parent := node;
      assert Rep(t.l, node) && RepCtx(c, node, null);
      PlugRoot(RightCtx(c, t), Leaf, u);
    }

    ghost function Hole(c: Ctx<K, V>, t: Tree<K, V>, left: bool): Ctx<K, V>
      requires t.Bin?
    {
      if left then LeftCtx(c, t) else RightCtx(c, t)
    }

    /** Link a new node below `node`, and rebalance. */
    method Link(node: Node<K, V>, left: bool, newNode: Node<K, V>, ghost c: Ctx<K, V>, ghost t: Tree<K, V>,
                ghost leaf: Tree<K, V>)
      requires Focus(root, c, t) && t.Bin? && t.n == node && (if left then t.l.Leaf? else t.r.Leaf?)
      requires newNode !in Nodes(t) && newNode !in CtxNodes(c) && newNode.left == null && newNode.right == null
      requires leaf == Bin(Leaf, newNode, newNode.key, newNode.val, Leaf)
      modifies `root, newNode`left, newNode`right, newNode`parent
      modifies Nodes(Plug(c, t))`left, Nodes(Plug(c, t))`right, Nodes(Plug(c, t))`parent
      ensures Focus(root, Top, FixUp(Hole(c, t, left), leaf))
    {
      PlugNodes(c, t);
      InsertedNodes(Hole(c, t, left), leaf);
      if left { AttachLeft(node, newNode, c, t); } else { AttachRight(node, newNode, c, t); }
      Rebalance(newNode, Hole(c, t, left), leaf);
    }

    /** The last part of avltree_add_node, for the tree: fill a hole on the search path. */
    method InsertAt(node: Node<K, V>, left: bool, newNode: Node<K, V>, ghost c: Ctx<K, V>, ghost t: Tree<K, V>)
      returns (ghost at: nat)
      requires TotalOrder(cmp) && Sorted(Entries(shape), cmp)
      requires Focus(root, c, t) && Plug(c, t) == shape && t.Bin? && t.n == node
      requires (if left then t.l.Leaf? else t.r.Leaf?) && OnPath(Hole(c, t, left), newNode.key, cmp)
      requires newNode !in Nodes(shape) && newNode.left == null && newNode.right == null
      modifies `root, `shape, newNode`left, newNode`right, newNode`parent
      modifies Nodes(shape)`left, Nodes(shape)`right, Nodes(shape)`parent
      ensures TreeOk() && Nodes(shape) == old(Nodes(shape)) + {newNode}
      ensures at <= |old(Contents())|
      ensures Contents() == old(Contents())[..at] + [(newNode.key, newNode.val)] + old(Contents())[at..]
      ensures forall i :: 0 <= i < |old(Contents())| ==> old(Contents())[i].0 != newNode.key
      ensures old(Balanced(shape)) ==> Balanced(shape)
      ensures Added(old(shape), shape, newNode.key, newNode.val, cmp)
    {
      PlugNodes(c, t);
      ghost var leaf := Bin(Leaf, newNode, newNode.key, newNode.val, Leaf);
      InsertedNodes(Hole(c, t, left), leaf);
      InsertedEntries(Hole(c, t, left), leaf, cmp);
      InsertedBalanced(Hole(c, t, left), leaf);
      Link(node, left, newNode, c, t, leaf);
      shape := FixUp(Hole(c, t, left), leaf);
      at := |Before(Hole(c, t, left))|;
      AddedHere(Hole(c, t, left), old(shape), newNode, newNode.key, newNode.val, cmp);
    }

    /** The first node of a tree is its root. */
    method AddFirst(key: K, val: V)
      requires Valid() && root == null
      modifies this
      ensures Valid() && fresh(Nodes(shape)) && Contents() == [(key, val)] && Balanced(shape)
      ensures Added(Leaf, shape, key, val, cmp)
    {
      assert forall i :: 0 <= i < |chain| ==> chain[i] in Nodes(shape);
      var node := NewNode(key, val);
      root := node;
      shape := Bin(Leaf, node, key, val, Leaf);
      assert Contents() == [(key, val)];
      AddedHere(Top, Leaf, node, key, val, cmp);
    }

    /** avltree_add_node: nothing happens if the key is there already. */
    method AddNode(key: K, val: V) returns (err: int, ghost at: nat)
      requires Valid()
      modifies this, Nodes(shape)
      ensures Valid() && fresh(Nodes(shape) - old(Nodes(shape)))
      ensures err == if HasKey(old(Contents()), key) then 1 else 0
      ensures err == 1 ==> Contents() == old(Contents())
      ensures err == 0 ==>
        at <= |old(Contents())| && Contents() == old(Contents())[..at] + [(key, val)] + old(Contents())[at..]
      ensures old(Balanced(shape)) ==> Balanced(shape)
      ensures err == 0 ==> Added(old(shape), shape, key, val, cmp)
    {
      if root == null {
        AddFirst(key, val);
        return 0, 0;
      }
      var node, left, found;
      ghost var c, t;
      node, left, found, c, t := FindHole(key);
      if found { return 1, 0; }
      err := 0;
      at := AddBelow(node, left, key, val, c, t);
    }

    /** The end of avltree_add_node: a new node, in the chain and in the tree. */
    method AddBelow(node: Node<K, V>, left: bool, key: K, val: V, ghost c: Ctx<K, V>, ghost t: Tree<K, V>)
      returns (ghost at: nat)
      requires Valid() && Focus(root, c, t) && Plug(c, t) == shape && t.Bin? && t.n == node
      requires (if left then t.l.Leaf? else t.r.Leaf?) && OnPath(Hole(c, t, left), key, cmp)
      modifies this, Nodes(shape)
      ensures Valid() && fresh(Nodes(shape) - old(Nodes(shape)))
      ensures at <= |old(Contents())|
      ensures Contents() == old(Contents())[..at] + [(key, val)] + old(Contents())[at..]
      ensures !HasKey(old(Contents()), key)
      ensures old(Balanced(shape)) ==> Balanced(shape)
      ensures Added(old(shape), shape, key, val, cmp)
    {
      assert allocated(Nodes(t)) && allocated(CtxNodes(c));
      PlugNodes(c, t);
      var newNode := NewNode(key, val);
      at := InsertChained(node, left, newNode, c, t);
    }

    /** Filling the hole does not touch the chain. */
    method InsertChained(node: Node<K, V>, left: bool, newNode: Node<K, V>, ghost c: Ctx<K, V>, ghost t: Tree<K, V>)
      returns (ghost at: nat)
      requires TotalOrder(cmp) && Sorted(Entries(shape), cmp)
      requires Focus(root, c, t) && Plug(c, t) == shape && t.Bin? && t.n == node
      requires (if left then t.l.Leaf? else t.r.Leaf?) && OnPath(Hole(c, t, left), newNode.key, cmp)
      requires newNode !in Nodes(shape) && newNode.left == null && newNode.right == null
      requires ChainOk(chain, first, prev) && Covers(chain, Nodes(shape) + {newNode})
      modifies `root, `shape, newNode`left, newNode`right, newNode`parent
      modifies Nodes(shape)`left, Nodes(shape)`right, Nodes(shape)`parent
      ensures Valid() && Nodes(shape) == old(Nodes(shape)) + {newNode}
      ensures at <= |old(Contents())|
      ensures Contents() == old(Contents())[..at] + [(newNode.key, newNode.val)] + old(Contents())[at..]
      ensures !HasKey(old(Contents()), newNode.key)
      ensures old(Balanced(shape)) ==> Balanced(shape)
      ensures Added(old(shape), shape, newNode.key, newNode.val, cmp)
    {
      at := InsertAt(node, left, newNode, c, t);
    }

    /** The search of avltree_add_node, in a tree with at least one node. */
    method FindHole(key: K) returns (node: Node<K, V>, left: bool, found: bool, ghost c: Ctx<K, V>, ghost t: Tree<K, V>)
      requires TreeOk() && root != null
      ensures Focus(root, c, t) && Plug(c, t) == shape && t.Bin? && t.n == node
      ensures found ==> HasKey(Contents(), key)
      ensures !found ==> (if left then t.l.Leaf? else t.r.Leaf?) && OnPath(Hole(c, t, left), key, cmp)
    {
      c, t, left := Top, shape, false;
      node := root;
      while true
        invariant Focus(root, c, t) && Plug(c, t) == shape && OnPath(c, key, cmp)
        invariant t.Bin? && node == t.n
        decreases t
      {
        var iswitch := cmp(key, node.key);
        if iswitch < 0 {
          if node.left == null { return node, true, false, c, t; }
          FocusLeft(root, c, t);
          node := node.left;
          c, t := LeftCtx(c, t), t.l;
        } else if iswitch > 0 {
          if node.right == null { return node, false, false, c, t; }
          FocusRight(root, c, t);
          node := node.right;
          c, t := RightCtx(c, t), t.r;
        } else {
          PlugEntries(c, t);
          assert Ordered(cmp, key, node.key, key);
          assert Contents()[|Before(c)| + |Entries(t.l)|].0 == key;
          return node, false, true, c, t;
        }
      }
    }

    // ---------- deletion ----------

    /** Hang a subtree below another node. */
    method Reparent(node: Node<K, V>, parent: Node?<K, V>, ghost m: Tree<K, V>)
      requires m.Bin? && m.n == node && Apart(m) && Rep(m, node.parent)
      modifies node`parent
      ensures Rep(m, parent)
    {
      assert Rep(m.l, node) && Rep(m.r, node);
      node.parent := parent;
      assert Rep(m.l, node) && Rep(m.r, node);
    }

    /** Find the largest key to the left of the target. */
    method FindLast(target: Node<K, V>, ghost t: Tree<K, V>)
      returns (replace: Node<K, V>, ghost q: Ctx<K, V>, ghost s: Tree<K, V>)
      requires t.Bin? && t.n == target && Rep(t, target.parent) && Apart(t) && t.l.Bin?
      ensures Plug(q, s) == t.l && s.Bin? && s.n == replace && s.r.Leaf? && RightEdge(q)
      ensures Rep(s, CtxParent(q, target)) && RepCtx(q, replace, target) && CtxOk(q, s)
    {
      replace := target.left;
      q, s := Top, t.l;
      while replace.right != null
        invariant Plug(q, s) == t.l && s.Bin? && s.n == replace && RightEdge(q)
        invariant Rep(s, CtxParent(q, target)) && RepCtx(q, replace, target) && CtxOk(q, s)
        decreases s
      {
        replace := replace.right;
        q, s := RightCtx(q, s), s.r;
      }
    }

    /** Take the replacement node out of the left subtree of the target. */
    method SpliceLast(target: Node<K, V>, replace: Node<K, V>, ghost t: Tree<K, V>, ghost q: Ctx<K, V>,
                      ghost s: Tree<K, V>)
      requires t.Bin? && t.n == target && target !in Nodes(t.l) && target.left == RootOf(t.l)
      requires Plug(q, s) == t.l && s.Bin? && s.n == replace && s.r.Leaf? && RightEdge(q)
      requires Rep(s, CtxParent(q, target)) && RepCtx(q, replace, target) && CtxOk(q, s)
      modifies target`left, Nodes(t.l)`right, Nodes(t.l)`parent
      ensures Rep(Plug(q, s.l), target) && target.left == RootOf(Plug(q, s.l))
    {
      PlugNodes(q, s);
      PlugRoot(q, s, s.l);
      ghost var m := s.l;
      assert allocated(CtxNodes(q));
      assert !q.Top? ==> q.n in CtxNodes(q) && Rep(q.l, q.n) && RepCtx(q.up, q.n, target);
      if replace.parent == target {
        replace.parent.left := replace.left;
      } else {
        replace.parent.right := replace.left;
      }
      assert !q.Top? ==> Rep(q.l, q.n) && RepCtx(q.up, q.n, target);
      assert RepCtx(q, RootOf(m), target) && Rep(m, replace);
      if replace.left != null { Reparent(replace.left, replace.parent, m); }
      assert RepCtx(q, RootOf(m), target);
      RepPlug(q, m, target);
    }

    /** Overwrite the target with the largest key to the left, and take that node out: below the target. */
    method PullLeftBelow(target: Node<K, V>, replace: Node<K, V>, ghost t: Tree<K, V>, ghost q: Ctx<K, V>,
                         ghost s: Tree<K, V>)
      requires Rep(t, target.parent) && Apart(t) && t.Bin? && t.n == target
      requires Plug(q, s) == t.l && s.Bin? && s.n == replace && s.r.Leaf? && RightEdge(q)
      requires Rep(s, CtxParent(q, target)) && RepCtx(q, replace, target) && CtxOk(q, s)
      modifies Nodes(t)`left, Nodes(t)`right, Nodes(t)`parent, Nodes(t)`key, Nodes(t)`val
      ensures Rep(PulledLeft(t, q, s), old(target.parent))
    {
      assert allocated(Nodes(t.r));
      PlugNodes(q, s);
      target.key := replace.key;
      target.val := replace.val;
      assert Rep(s, CtxParent(q, target)) && RepCtx(q, replace, target) && Rep(t.r, target);
      SpliceLast(target, replace, t, q, s);
      assert Rep(t.r, target);
    }

    method PullLeft(target: Node<K, V>, ghost c: Ctx<K, V>, ghost t: Tree<K, V>)
      returns (dropped: Node<K, V>, ghost u: Tree<K, V>)
      requires Focus(root, c, t) && t.Bin? && t.n == target && t.l.Bin?
      modifies Nodes(t)`left, Nodes(t)`right, Nodes(t)`parent, Nodes(t)`key, Nodes(t)`val
      ensures Dropped(t, u, dropped) && Focus(root, c, u) && Pulled(t, u)
    {
      assert allocated(Nodes(t)) && allocated(CtxNodes(c));
      ghost var q, s;
      dropped, q, s := FindLast(target, t);
      PulledLeftDrops(t, q, s);
      PlugDropLast(q, s, s.l);
      u := PulledLeft(t, q, s);
      PullLeftBelow(target, dropped, t, q, s);
      PlugRoot(c, t, u);
      assert RepCtx(c, target, null);
    }

    /** Find the smallest key to the right of the target. */
    method FindFirst(target: Node<K, V>, ghost t: Tree<K, V>)
      returns (replace: Node<K, V>, ghost q: Ctx<K, V>, ghost s: Tree<K, V>)
      requires t.Bin? && t.n == target && Rep(t, target.parent) && Apart(t) && t.r.Bin?
      ensures Plug(q, s) == t.r && s.Bin? && s.n == replace && s.l.Leaf? && LeftEdge(q)
      ensures Rep(s, CtxParent(q, target)) && RepCtx(q, replace, target) && CtxOk(q, s)
    {
      replace := target.right;
      q, s := Top, t.r;
      while replace.left != null
        invariant Plug(q, s) == t.r && s.Bin? && s.n == replace && LeftEdge(q)
        invariant Rep(s, CtxParent(q, target)) && RepCtx(q, replace, target) && CtxOk(q, s)
        decreases s
      {
        replace := replace.left;
        q, s := LeftCtx(q, s), s.l;
      }
    }

    /** Take the replacement node out of the right subtree of the target. */
    method SpliceFirst(target: Node<K, V>, replace: Node<K, V>, ghost t: Tree<K, V>, ghost q: Ctx<K, V>,
                       ghost s: Tree<K, V>)
      requires t.Bin? && t.n == target && target !in Nodes(t.r) && target.right == RootOf(t.r)
      requires Plug(q, s) == t.r && s.Bin? && s.n == replace && s.l.Leaf? && LeftEdge(q)
      requires Rep(s, CtxParent(q, target)) && RepCtx(q, replace, target) && CtxOk(q, s)
      modifies target`right, Nodes(t.r)`left, Nodes(t.r)`parent
      ensures Rep(Plug(q, s.r), target) && target.right == RootOf(Plug(q, s.r))
    {
      PlugNodes(q, s);
      PlugRoot(q, s, s.r);
      ghost var m := s.r;
      assert allocated(CtxNodes(q));
      assert !q.Top? ==> q.n in CtxNodes(q) && Rep(q.r, q.n) && RepCtx(q.up, q.n, target);
      if replace.parent == target {
        replace.parent.right := replace.right;
      } else {
        replace.parent.left := replace.right;
      }
      assert !q.Top? ==> Rep(q.r, q.n) && RepCtx(q.up, q.n, target);
      assert RepCtx(q, RootOf(m), target) && Rep(m, replace);
      if replace.right != null { Reparent(replace.right, replace.parent, m); }
      assert RepCtx(q, RootOf(m), target);
      RepPlug(q, m, target);
    }

    /** Overwrite the target with the smallest key to the right, and take that node out: below the target. */
    method PullRightBelow(target: Node<K, V>, replace: Node<K, V>, ghost t: Tree<K, V>, ghost q: Ctx<K, V>,
                          ghost s: Tree<K, V>)
      requires Rep(t, target.parent) && Apart(t) && t.Bin? && t.n == target
      requires Plug(q, s) == t.r && s.Bin? && s.n == replace && s.l.Leaf? && LeftEdge(q)
      requires Rep(s, CtxParent(q, target)) && RepCtx(q, replace, target) && CtxOk(q, s)
      modifies Nodes(t)`left, Nodes(t)`right, Nodes(t)`parent, Nodes(t)`key, Nodes(t)`val
      ensures Rep(PulledRight(t, q, s), old(target.parent))
    {
      assert allocated(Nodes(t.l));
      PlugNodes(q, s);
      target.key := replace.key;
      target.val := replace.val;
      assert Rep(s, CtxParent(q, target)) && RepCtx(q, replace, target) && Rep(t.l, target);
      SpliceFirst(target, replace, t, q, s);
      assert Rep(t.l, target);
    }

    method PullRight(target: Node<K, V>, ghost c: Ctx<K, V>, ghost t: Tree<K, V>)
      returns (dropped: Node<K, V>, ghost u: Tree<K, V>)
      requires Focus(root, c, t) && t.Bin? && t.n == target && t.l.Leaf? && t.r.Bin?
      modifies Nodes(t)`left, Nodes(t)`right, Nodes(t)`parent, Nodes(t)`key, Nodes(t)`val
      ensures Dropped(t, u, dropped) && Focus(root, c, u) && Pulled(t, u)
    {
      assert allocated(Nodes(t)) && allocated(CtxNodes(c));
      ghost var q, s;
      dropped, q, s := FindFirst(target, t);
      PulledRightDrops(t, q, s);
      PlugDropFirst(q, s, s.r);
      u := PulledRight(t, q, s);
      PullRightBelow(target, dropped, t, q, s);
      PlugRoot(c, t, u);
      assert RepCtx(c, target, null);
    }

    /** A target without subtrees is simply cut off. */
    method CutLeaf(target: Node<K, V>, ghost c: Ctx<K, V>, ghost t: Tree<K, V>)
      requires Focus(root, c, t) && t.Bin? && t.n == target && t.l.Leaf? && t.r.Leaf?
      modifies `root, CtxNodes(c)`left, CtxNodes(c)`right
      ensures Focus(root, c, Leaf)
    {
      PlugRoot(c, t, Leaf);
      if target != root {
        if target.parent.left == target {
          target.parent.left := null;
        } else {
          target.parent.right := null;
        }
      } else {
        root := null;
      }
    }

    /** The search of avltree_delete_node. */
    method FindTarget(key: K) returns (target: Node?<K, V>, ghost c: Ctx<K, V>, ghost t: Tree<K, V>)
      requires TreeOk()
      ensures target == null ==> !HasKey(Contents(), key)
      ensures target != null ==> Focus(root, c, t) && Plug(c, t) == shape && t.Bin? && t.n == target && t.k == key
    {
      target := root;
      c, t := Top, shape;
      while target != null
        invariant Focus(root, c, t) && Plug(c, t) == shape && OnPath(c, key, cmp) && target == RootOf(t)
        decreases t
      {
        var iswitch := cmp(key, target.key);
        if iswitch < 0 {
          FocusLeft(root, c, t);
          target := target.left;
          c, t := LeftCtx(c, t), t.l;
        } else if iswitch > 0 {
          FocusRight(root, c, t);
          target := target.right;
          c, t := RightCtx(c, t), t.r;
        } else {
          assert Ordered(cmp, key, target.key, key);
          return;
        }
      }
      PathSplits(c, t, key, cmp);
      PlugEntries(c, t);
      KeyAbsent(Before(c), After(c), key, cmp);
      assert Contents() == Before(c) + After(c);
    }

    /** Take the target's entry out of the tree, and one node with it. */
    method Remove(target: Node<K, V>, ghost c: Ctx<K, V>, ghost t: Tree<K, V>)
      returns (dropped: Node<K, V>, ghost u: Tree<K, V>)
      requires Focus(root, c, t) && t.Bin? && t.n == target
      modifies `root, Nodes(t)`left, Nodes(t)`right, Nodes(t)`parent, Nodes(t)`key, Nodes(t)`val
      modifies CtxNodes(c)`left, CtxNodes(c)`right
      ensures Dropped(t, u, dropped) && Focus(root, c, u) && Pulled(t, u)
    {
      if target.left != null {
        dropped, u := PullLeft(target, c, t);
      } else if target.right != null {
        dropped, u := PullRight(target, c, t);
      } else {
        CutLeaf(target, c, t);
        dropped, u := target, Leaf;
      }
    }

    /** The end of avltree_delete_node: rebalance above the target's parent, but not at it. */
    method RebalanceAbove(parent: Node?<K, V>, ghost c: Ctx<K, V>, ghost u: Tree<K, V>)
      requires Focus(root, c, u) && parent == CtxParent(c, null)
      modifies `root, `shape
      modifies Nodes(Plug(c, u))`left, Nodes(Plug(c, u))`right, Nodes(Plug(c, u))`parent
      ensures Focus(root, Top, shape) && shape == AfterDeletion(c, u)
      ensures Entries(shape) == Entries(Plug(c, u)) && Nodes(shape) == Nodes(Plug(c, u))
    {
      shape := u;
      if parent != null {
        FocusUp(root, c, u);
        FixUpKeeps(c.up, UpTree(c, u));
        Rebalance(parent, c.up, UpTree(c, u));
        shape := FixUp(c.up, UpTree(c, u));
      }
    }

    /** avltree_delete_node. */
    method DeleteNode(key: K)
      returns (r: Option<V>, ghost at: nat, ghost c: Ctx<K, V>, ghost t: Tree<K, V>, ghost u: Tree<K, V>)
      requires Valid()
      modifies this, Nodes(shape)
      ensures Valid() && Nodes(shape) <= old(Nodes(shape))
      ensures r.None? ==> !HasKey(old(Contents()), key) && Contents() == old(Contents())
      ensures r.Some? ==>
        && at < |old(Contents())| && old(Contents())[at] == (key, r.value)
        && Contents() == old(Contents())[..at] + old(Contents())[at + 1..]
      ensures r.Some? ==>
        && old(shape) == Plug(c, t) && t.Bin? && t.k == key && Pulled(t, u) && shape == AfterDeletion(c, u)
        && (old(Balanced(shape)) ==> (Balanced(shape) <==> DeletionEffect(c, t) != Breaks))
    {
      at, u := 0, Leaf;
      var target;
      target, c, t := FindTarget(key);
      if target == null { return None, 0, c, t, u; }
      r := Some(target.val);
      at, u := DeleteAt(target, c, t);
      if old(Balanced(shape)) { DeletionDoes(c, t, u); }
    }

    /** The part of avltree_delete_node after the search. */
    method DeleteAt(target: Node<K, V>, ghost c: Ctx<K, V>, ghost t: Tree<K, V>)
      returns (ghost at: nat, ghost u: Tree<K, V>)
      requires Valid() && Focus(root, c, t) && Plug(c, t) == shape && t.Bin? && t.n == target
      modifies this, Nodes(shape)
      ensures Valid() && Nodes(shape) <= old(Nodes(shape))
      ensures at < |old(Contents())| && old(Contents())[at] == old((target.key, target.val))
      ensures Contents() == old(Contents())[..at] + old(Contents())[at + 1..]
      ensures Pulled(t, u) && shape == AfterDeletion(c, u)
    {
      assert allocated(Nodes(t)) && allocated(CtxNodes(c));
      PlugNodes(c, t);
      var parent := target.parent;
      var dropped;
      ghost var es;
      dropped, u := Remove(target, c, t);
      PlugNodes(c, u);
      assert Nodes(Plug(c, u)) == Nodes(shape) - {dropped};
      at, es := Removal(c, t, u, dropped, cmp);
      Finish(dropped, parent, c, u, Nodes(shape));
    }

    /** Deallocate the dropped node, then rebalance. */
    method Finish(dropped: Node<K, V>, parent: Node?<K, V>, ghost c: Ctx<K, V>, ghost u: Tree<K, V>,
                  ghost nodes: set<Node<K, V>>)
      requires Focus(root, c, u) && parent == CtxParent(c, null)
      requires ChainOk(chain, first, prev) && Covers(chain, nodes)
      requires dropped in nodes && Nodes(Plug(c, u)) == nodes - {dropped}
      requires TotalOrder(cmp) && Sorted(Entries(Plug(c, u)), cmp)
      modifies this, nodes
      ensures Valid() && Contents() == Entries(Plug(c, u)) && Nodes(shape) == Nodes(Plug(c, u))
      ensures shape == AfterDeletion(c, u)
    {
      assert allocated(Nodes(u)) && allocated(CtxNodes(c));
      Unchain(dropped, nodes);
      Settle(parent, c, u);
    }

    /** Rebalancing does not touch the chain. */
    method Settle(parent: Node?<K, V>, ghost c: Ctx<K, V>, ghost u: Tree<K, V>)
      requires Focus(root, c, u) && parent == CtxParent(c, null)
      requires ChainOk(chain, first, prev) && Covers(chain, Nodes(Plug(c, u)))
      requires TotalOrder(cmp) && Sorted(Entries(Plug(c, u)), cmp)
      modifies `root, `shape
      modifies Nodes(Plug(c, u))`left, Nodes(Plug(c, u))`right, Nodes(Plug(c, u))`parent
      ensures Valid() && Contents() == Entries(Plug(c, u)) && Nodes(shape) == Nodes(Plug(c, u))
      ensures shape == AfterDeletion(c, u)
    {
      RebalanceAbove(parent, c, u);
    }

    /** dealloc_node for a node whose place in the chain is not at hand. */
    method Unchain(node: Node<K, V>, ghost nodes: set<Node<K, V>>)
      requires ChainOk(chain, first, prev) && Covers(chain, nodes) && node in nodes
      modifies `first, `prev, `chain, chain`next, chain`prev
      ensures ChainOk(chain, first, prev) && Covers(chain, nodes - {node})
    {
      ghost var i :| 0 <= i < |chain| && chain[i] == node;
      DeallocNode(node, i);
    }
  }

  /** The hole that has been filled is where the search arrives. */
  lemma AddedHere<K(!new), V>(c: Ctx<K, V>, t: Tree<K, V>, n: Node<K, V>, key: K, val: V, cmp: (K, K) -> int)
    requires Plug(c, Leaf) == t && OnPath(c, key, cmp)
    ensures Added(t, FixUp(c, Bin(Leaf, n, key, val, Leaf)), key, val, cmp)
  {
    HoleOnPath(c, Leaf, key, cmp);
    InsertedNodes(c, Bin(Leaf, n, key, val, Leaf));
    assert One(n, key, val) == Bin(Leaf, n, key, val, Leaf);
  }

  lemma Removal<K(!new), V>(c: Ctx<K, V>, t: Tree<K, V>, u: Tree<K, V>, x: Node<K, V>, cmp: (K, K) -> int)
    returns (at: nat, es: seq<(K, V)>)
    requires Dropped(t, u, x) && Sorted(Entries(Plug(c, t)), cmp)
    ensures es == Entries(Plug(c, t)) && at < |es| && es[at] == (t.k, t.v)
    ensures Entries(Plug(c, u)) == es[..at] + es[at + 1..] && Sorted(Entries(Plug(c, u)), cmp)
  {
    RemovedEntries(c, t, u, x, cmp);
    at, es := |Before(c)| + |Entries(t.l)|, Entries(Plug(c, t));
  }
}
