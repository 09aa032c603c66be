/**
 What a deletion does to the balance of the tree (src/util/avltree.c). The nodes between the target and
 the node that is taken out, the target and its parent are not rebalanced; those above are, unless the
 other side is even. So the tree may lose its balance, and it can be told beforehand when it does.
 */
module AvlBalance {
  import opened AvlShape
  import opened AvlHeap

  /** What happens to a tree when something is taken out below. */
  datatype Effect = Breaks | Absorbs | Shrinks

  ghost predicate Does<K, V>(before: Tree<K, V>, after: Tree<K, V>, e: Effect) {
    match e
    case Breaks => !Balanced(after) && Height(after) == Height(before)
    case Absorbs => Balanced(after) && Height(after) == Height(before)
    case Shrinks => Balanced(after) && Height(after) + 1 == Height(before)
  }

  /** The effect at a node with this balance of an effect on its left (right) subtree, without rebalancing. */
  function FromLeft(balance: int, e: Effect): Effect {
    if e != Shrinks then e else if balance == 1 then Breaks else if balance == 0 then Absorbs else Shrinks
  }

  function FromRight(balance: int, e: Effect): Effect {
    FromLeft(-balance, e)
  }

  // ---------- the node that is taken out ----------

  ghost function DropLast<K, V>(t: Tree<K, V>): Tree<K, V>
    requires t.Bin?
  {
    if t.r.Leaf? then t.l else Bin(t.l, t.n, t.k, t.v, DropLast(t.r))
  }

  ghost function DropFirst<K, V>(t: Tree<K, V>): Tree<K, V>
    requires t.Bin?
  {
    if t.l.Leaf? then t.r else Bin(DropFirst(t.l), t.n, t.k, t.v, t.r)
  }

  /** u has the shape of t after the entry at its root has been overwritten by that of a node taken out below. */
  ghost predicate Pulled<K, V>(t: Tree<K, V>, u: Tree<K, V>)
    requires t.Bin?
  {
    if t.l.Bin? then u.Bin? && u.l == DropLast(t.l) && u.r == t.r
    else if t.r.Bin? then u.Bin? && u.l == t.l && u.r == DropFirst(t.r)
    else u.Leaf?
  }

  lemma {:induction false} PlugDropLast<K, V>(q: Ctx<K, V>, s: Tree<K, V>, m: Tree<K, V>)
    requires RightEdge(q) && s.Bin? && DropLast(s) == m
    ensures Plug(q, s).Bin? && DropLast(Plug(q, s)) == Plug(q, m)
    decreases q
  {
    if q.RightOf? {
      PlugDropLast(q.up, Bin(q.l, q.n, q.k, q.v, s), Bin(q.l, q.n, q.k, q.v, m));
    }
  }

  lemma {:induction false} PlugDropFirst<K, V>(q: Ctx<K, V>, s: Tree<K, V>, m: Tree<K, V>)
    requires LeftEdge(q) && s.Bin? && DropFirst(s) == m
    ensures Plug(q, s).Bin? && DropFirst(Plug(q, s)) == Plug(q, m)
    decreases q
  {
    if q.LeftOf? {
      PlugDropFirst(q.up, Bin(s, q.n, q.k, q.v, q.r), Bin(m, q.n, q.k, q.v, q.r));
    }
  }

  /** The tree after avltree_delete_node, where the target's subtree has become u. */
  ghost function AfterDeletion<K, V>(c: Ctx<K, V>, u: Tree<K, V>): Tree<K, V> {
    if c.Top? then u else FixUp(c.up, UpTree(c, u))
  }

  // ---------- the effect, from the heights before the deletion ----------

  ghost function LastEffect<K, V>(t: Tree<K, V>): Effect
    requires t.Bin?
  {
    if t.r.Leaf? then Shrinks else FromRight(Balance(t), LastEffect(t.r))
  }

  ghost function FirstEffect<K, V>(t: Tree<K, V>): Effect
    requires t.Bin?
  {
    if t.l.Leaf? then Shrinks else FromLeft(Balance(t), FirstEffect(t.l))
  }

  ghost function TargetEffect<K, V>(t: Tree<K, V>): Effect
    requires t.Bin?
  {
    if t.l.Bin? then FromLeft(Balance(t), LastEffect(t.l))
    else if t.r.Bin? then FromRight(Balance(t), FirstEffect(t.r))
    else Shrinks
  }

  /** How much higher the other side is at the lowest node of the context than a subtree of height h in the hole. */
  ghost function Lean<K, V>(c: Ctx<K, V>, h: int): int
    requires !c.Top?
  {
    if c.LeftOf? then Height(c.r) - h else Height(c.l) - h
  }

  /** The other side at the lowest node of the context. */
  ghost function Other<K, V>(c: Ctx<K, V>): Tree<K, V>
    requires !c.Top?
  {
    if c.LeftOf? then c.r else c.l
  }

  /** A subtree of height h in the hole shrinks, and every node above is rebalanced as the code does it. */
  ghost function FixedEffect<K, V>(c: Ctx<K, V>, h: int): Effect
    decreases c
  {
    if c.Top? then Shrinks
    else if Lean(c, h) == 0 then Absorbs
    else if Lean(c, h) < 0 then FixedEffect(c.up, h + 1)
    else if Balance(Other(c)) == 0 then Breaks
    else FixedEffect(c.up, h + 2)
  }

  /** The effect of deleting the entry at the root of t, in the context c. */
  ghost function DeletionEffect<K, V>(c: Ctx<K, V>, t: Tree<K, V>): Effect
    requires t.Bin?
  {
    if c.Top? || TargetEffect(t) != Shrinks then TargetEffect(t)
    else if Lean(c, Height(t)) > 0 then Breaks
    else if Lean(c, Height(t)) == 0 then Absorbs
    else FixedEffect(c.up, Height(t) + 1)
  }

  // ---------- the effect is what happens ----------

  lemma {:induction false} NodeFromLeft<K, V>(t: Tree<K, V>, x: Tree<K, V>, e: Effect)
    requires t.Bin? && Balanced(t) && Does(t.l, x, e)
    ensures forall n, k, v :: Does(t, Bin(x, n, k, v, t.r), FromLeft(Balance(t), e))
  {}

  lemma {:induction false} NodeFromRight<K, V>(t: Tree<K, V>, x: Tree<K, V>, e: Effect)
    requires t.Bin? && Balanced(t) && Does(t.r, x, e)
    ensures forall n, k, v :: Does(t, Bin(t.l, n, k, v, x), FromRight(Balance(t), e))
  {}

  lemma {:induction false} LastDoes<K, V>(t: Tree<K, V>)
    requires t.Bin? && Balanced(t)
    ensures Does(t, DropLast(t), LastEffect(t))
  {
    if t.r.Bin? {
      LastDoes(t.r);
      NodeFromRight(t, DropLast(t.r), LastEffect(t.r));
    }
  }

  lemma {:induction false} FirstDoes<K, V>(t: Tree<K, V>)
    requires t.Bin? && Balanced(t)
    ensures Does(t, DropFirst(t), FirstEffect(t))
  {
    if t.l.Bin? {
      FirstDoes(t.l);
      NodeFromLeft(t, DropFirst(t.l), FirstEffect(t.l));
    }
  }

  lemma {:induction false} TargetDoes<K, V>(t: Tree<K, V>, u: Tree<K, V>)
    requires t.Bin? && Balanced(t) && Pulled(t, u)
    ensures Does(t, u, TargetEffect(t))
  {
    if t.l.Bin? {
      LastDoes(t.l);
      NodeFromLeft(t, u.l, LastEffect(t.l));
    } else if t.r.Bin? {
      FirstDoes(t.r);
      NodeFromRight(t, u.r, FirstEffect(t.r));
    }
  }

  /** A subtree of the same height changes nothing above it. */
  lemma {:induction false} NothingAbove<K, V>(c: Ctx<K, V>, t: Tree<K, V>, u: Tree<K, V>)
    requires Balanced(Plug(c, t)) && Height(u) == Height(t)
    ensures FixUp(c, u) == Plug(c, u) && Height(Plug(c, u)) == Height(Plug(c, t))
    ensures Balanced(Plug(c, u)) <==> Balanced(u)
    decreases c
  {
    PlugBalanced(c, t);
    PlugBalanced(c, u);
    if !c.Top? {
      var p, q := UpTree(c, t), UpTree(c, u);
      assert Plug(c, t) == Plug(c.up, p) && Plug(c, u) == Plug(c.up, q);
      PlugBalanced(c.up, p);
      assert Balance(p) == Balance(q) && Fix(q) == q;
      NothingAbove(c.up, p, q);
    }
  }

  lemma {:induction false} NoMoreAbove<K, V>(c: Ctx<K, V>, t: Tree<K, V>, u: Tree<K, V>, e: Effect)
    requires Balanced(Plug(c, t)) && Does(t, u, e) && e != Shrinks
    ensures Does(Plug(c, t), FixUp(c, u), e)
  {
    NothingAbove(c, t, u);
  }

  /** A node whose right side is two levels higher. */
  lemma {:induction false} FixHeavyRight<K, V>(u: Tree<K, V>, n: Node<K, V>, k: K, v: V, r: Tree<K, V>)
    requires Balanced(u) && Balanced(r) && Height(r) == Height(u) + 2
    ensures
      var f := Fix(Bin(u, n, k, v, r));
      if Balance(r) == 0 then !Balanced(f) && Height(f) == Height(r) + 1 else Balanced(f) && Height(f) == Height(r)
  {
    assert Balanced(r.l) && Balanced(r.r);
    if Balance(r) == -1 { assert r.l.Bin? && Balanced(r.l); }
  }

  lemma {:induction false} FixHeavyLeft<K, V>(l: Tree<K, V>, n: Node<K, V>, k: K, v: V, u: Tree<K, V>)
    requires Balanced(u) && Balanced(l) && Height(l) == Height(u) + 2
    ensures
      var f := Fix(Bin(l, n, k, v, u));
      if Balance(l) == 0 then !Balanced(f) && Height(f) == Height(l) + 1 else Balanced(f) && Height(f) == Height(l)
  {
    assert Balanced(l.l) && Balanced(l.r);
    if Balance(l) == 1 { assert l.r.Bin? && Balanced(l.r); }
  }

  /** The effect at the lowest node of the context, with rebalancing. */
  ghost function FixedOnce<K, V>(c: Ctx<K, V>, h: int): Effect
    requires !c.Top?
  {
    if Lean(c, h) == 0 then Absorbs else if Lean(c, h) > 0 && Balance(Other(c)) == 0 then Breaks else Shrinks
  }

  /** One node above a subtree that shrinks: evened out, rotated or left unbalanced. */
  lemma {:induction false} FixOneDoes<K, V>(c: Ctx<K, V>, t: Tree<K, V>, u: Tree<K, V>)
    requires !c.Top? && Balanced(UpTree(c, t)) && Does(t, u, Shrinks)
    ensures Does(UpTree(c, t), Fix(UpTree(c, u)), FixedOnce(c, Height(t)))
  {
    if Lean(c, Height(t)) > 0 {
      if c.LeftOf? { FixHeavyRight(u, c.n, c.k, c.v, c.r); } else { FixHeavyLeft(c.l, c.n, c.k, c.v, u); }
    } else {
      assert Fix(UpTree(c, u)) == UpTree(c, u);
    }
  }

  /** The lowest node of the context, without rebalancing. */
  lemma {:induction false} ParentDoes<K, V>(c: Ctx<K, V>, t: Tree<K, V>, u: Tree<K, V>, e: Effect)
    requires !c.Top? && Balanced(UpTree(c, t)) && Does(t, u, e)
    ensures Does(UpTree(c, t), UpTree(c, u), FromLeft(Lean(c, Height(t)), e))
  {
    if c.LeftOf? {
      NodeFromLeft(UpTree(c, t), u, e);
    } else {
      NodeFromRight(UpTree(c, t), u, e);
    }
  }

  lemma {:induction false} UpBalanced<K, V>(c: Ctx<K, V>, t: Tree<K, V>)
    requires !c.Top? && Balanced(Plug(c, t))
    ensures Plug(c, t) == Plug(c.up, UpTree(c, t)) && Balanced(UpTree(c, t)) && Balanced(t)
    ensures Height(UpTree(c, t)) == if Lean(c, Height(t)) > 0 then Height(t) + 2 else Height(t) + 1
  {
    PlugBalanced(c, t);
    PlugBalanced(c.up, UpTree(c, t));
  }

  lemma {:induction false} FixedDoes<K, V>(c: Ctx<K, V>, t: Tree<K, V>, u: Tree<K, V>)
    requires Balanced(Plug(c, t)) && Does(t, u, Shrinks)
    ensures Does(Plug(c, t), FixUp(c, u), FixedEffect(c, Height(t)))
    decreases c
  {
    if !c.Top? {
      var p, q := UpTree(c, t), Fix(UpTree(c, u));
      UpBalanced(c, t);
      FixOneDoes(c, t, u);
      assert FixUp(c, u) == FixUp(c.up, q);
      var e := FixedOnce(c, Height(t));
      if e == Shrinks { FixedDoes(c.up, p, q); } else { NoMoreAbove(c.up, p, q, e); }
    }
  }

  /**
   A deletion in a balanced tree has the effect that could be told from the heights before: along the
   edge down to the node that is taken out, at the target and its parent, and on the way up from there.
   */
  lemma {:induction false} DeletionDoes<K, V>(c: Ctx<K, V>, t: Tree<K, V>, u: Tree<K, V>)
    requires t.Bin? && Balanced(Plug(c, t)) && Pulled(t, u)
    ensures Does(Plug(c, t), AfterDeletion(c, u), DeletionEffect(c, t))
    ensures Balanced(AfterDeletion(c, u)) <==> DeletionEffect(c, t) != Breaks
  {
    PlugBalanced(c, t);
    TargetDoes(t, u);
    if !c.Top? {
      var p, q := UpTree(c, t), UpTree(c, u);
      UpBalanced(c, t);
      ParentDoes(c, t, u, TargetEffect(t));
      var e := FromLeft(Lean(c, Height(t)), TargetEffect(t));
      if e == Shrinks { FixedDoes(c.up, p, q); } else { NoMoreAbove(c.up, p, q, e); }
    }
  }

  // ---------- insertion, as a function of the tree ----------

  /** Where the search for the key arrives. */
  ghost function HoleFor<K(!new), V>(c: Ctx<K, V>, t: Tree<K, V>, key: K, cmp: (K, K) -> int): Ctx<K, V>
    decreases t
  {
    if t.Leaf? then c
    else if cmp(key, t.k) < 0 then HoleFor(LeftCtx(c, t), t.l, key, cmp)
    else HoleFor(RightCtx(c, t), t.r, key, cmp)
  }

  lemma {:induction false} HoleOnPath<K(!new), V>(c: Ctx<K, V>, t: Tree<K, V>, key: K, cmp: (K, K) -> int)
    requires OnPath(c, key, cmp)
    ensures HoleFor(Top, Plug(c, t), key, cmp) == HoleFor(c, t, key, cmp)
    decreases c
  {
    if !c.Top? { HoleOnPath(c.up, UpTree(c, t), key, cmp); }
  }

  /** u is t with a new leaf where the search for the key arrives, rebalanced from there up. */
  ghost predicate Added<K(!new), V>(t: Tree<K, V>, u: Tree<K, V>, key: K, val: V, cmp: (K, K) -> int) {
    exists n :: n in Nodes(u) && u == FixUp(HoleFor(Top, t, key, cmp), One(n, key, val))
  }

  // ---------- balance can be lost ----------

  ghost function One<K, V>(n: Node<K, V>, k: K, v: V): Tree<K, V> {
    Bin(Leaf, n, k, v, Leaf)
  }

  function Compare(a: int, b: int): int {
    a - b
  }

  /** Adding 2, 1, 3 and 4 in this order gives a balanced tree; deleting 1 from it leaves the root two levels apart. */
  lemma DeletionUnbalances(n1: Node<int, int>, n2: Node<int, int>, n3: Node<int, int>, n4: Node<int, int>)
    ensures
      var t1 := One(n2, 2, 0);
      var t2 := Bin(One(n1, 1, 0), n2, 2, 0, Leaf);
      var t3 := Bin(One(n1, 1, 0), n2, 2, 0, One(n3, 3, 0));
      var t4 := Bin(One(n1, 1, 0), n2, 2, 0, Bin(Leaf, n3, 3, 0, One(n4, 4, 0)));
      var c := LeftOf(Top, n2, 2, 0, t4.r);
      && Added(Leaf, t1, 2, 0, Compare) && Added(t1, t2, 1, 0, Compare)
      && Added(t2, t3, 3, 0, Compare) && Added(t3, t4, 4, 0, Compare)
      && Balanced(t4) && t4 == Plug(c, One(n1, 1, 0)) && Pulled(One(n1, 1, 0), Leaf)
      && DeletionEffect(c, One(n1, 1, 0)) == Breaks && !Balanced(AfterDeletion(c, Leaf))
  {
    var t1 := One(n2, 2, 0);
    var t2 := Bin(One(n1, 1, 0), n2, 2, 0, Leaf);
    var t3 := Bin(One(n1, 1, 0), n2, 2, 0, One(n3, 3, 0));
    var t4 := Bin(One(n1, 1, 0), n2, 2, 0, Bin(Leaf, n3, 3, 0, One(n4, 4, 0)));
    AddedAt(Top, Leaf, t1, n2, 2);
    AddedAt(LeftOf(Top, n2, 2, 0, Leaf), t1, t2, n1, 1);
    AddedAt(RightOf(One(n1, 1, 0), n2, 2, 0, Top), t2, t3, n3, 3);
    var c3 := RightOf(One(n1, 1, 0), n2, 2, 0, Top);
    assert HoleFor(Top, t3, 4, Compare) == HoleFor(c3, One(n3, 3, 0), 4, Compare);
    var up := Bin(Leaf, n3, 3, 0, One(n4, 4, 0));
    assert Height(up) == 2 && Fix(up) == up && Fix(t4) == t4;
    assert FixUp(RightOf(Leaf, n3, 3, 0, c3), One(n4, 4, 0)) == FixUp(c3, up) == t4;
    assert n4 in Nodes(up);
    AddedAt(RightOf(Leaf, n3, 3, 0, c3), t3, t4, n4, 4);
    DeletionDoes(LeftOf(Top, n2, 2, 0, t4.r), One(n1, 1, 0), Leaf);
  }

  lemma AddedAt(c: Ctx<int, int>, t: Tree<int, int>, u: Tree<int, int>, n: Node<int, int>, key: int)
    requires HoleFor(Top, t, key, Compare) == c && u == FixUp(c, One(n, key, 0)) && n in Nodes(u)
    ensures Added(t, u, key, 0, Compare)
  {}
}
