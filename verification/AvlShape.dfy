/**
 The shape of a binary search tree as a value: which node sits where, with which key and value.
 The heap operations of AvlTree are specified by functions on shapes, and what the tree promises
 (order, balance, contents) is proved about those functions here.
 */
module AvlShape {

  class Node<K, V> {
    var key: K
    var val: V
    var left: Node?<K, V>
    var right: Node?<K, V>
    var parent: Node?<K, V>
    // Chain of all allocated nodes
    var next: Node?<K, V>
    var prev: Node?<K, V>

    constructor (key: K, val: V)
      ensures this.key == key && this.val == val
      ensures left == null && right == null && parent == null && next == null && prev == null
    {
      this.key, this.val := key, val;
      left, right, parent, next, prev := null, null, null, null, null;
    }
  }

  datatype Tree<K, V> = Leaf | Bin(l: Tree<K, V>, n: Node<K, V>, k: K, v: V, r: Tree<K, V>)

  /** A tree with a hole: where a subtree sits, seen from the hole up to the root. */
  datatype Ctx<K, V> =
    | Top
    | LeftOf(up: Ctx<K, V>, n: Node<K, V>, k: K, v: V, r: Tree<K, V>)
    | RightOf(l: Tree<K, V>, n: Node<K, V>, k: K, v: V, up: Ctx<K, V>)

  ghost function Plug<K, V>(c: Ctx<K, V>, t: Tree<K, V>): Tree<K, V>
    decreases c
  {
    match c
    case Top => t
    case LeftOf(up, n, k, v, r) => Plug(up, Bin(t, n, k, v, r))
    case RightOf(l, n, k, v, up) => Plug(up, Bin(l, n, k, v, t))
  }

  ghost function RootOf<K, V>(t: Tree<K, V>): Node?<K, V> {
    if t.Leaf? then null else t.n
  }

  // ---------- nodes ----------

  ghost function Nodes<K, V>(t: Tree<K, V>): set<Node<K, V>> {
    match t
    case Leaf => {}
    case Bin(l, n, _, _, r) => {n} + Nodes(l) + Nodes(r)
  }

  ghost function CtxNodes<K, V>(c: Ctx<K, V>): set<Node<K, V>> {
    match c
    case Top => {}
    case LeftOf(up, n, _, _, r) => {n} + Nodes(r) + CtxNodes(up)
    case RightOf(l, n, _, _, up) => {n} + Nodes(l) + CtxNodes(up)
  }

  /** No node occurs twice. */
  ghost predicate Apart<K, V>(t: Tree<K, V>) {
    match t
    case Leaf => true
    case Bin(l, n, _, _, r) =>
      n !in Nodes(l) && n !in Nodes(r) && Nodes(l) !! Nodes(r) && Apart(l) && Apart(r)
  }

  ghost predicate CtxApart<K, V>(c: Ctx<K, V>) {
    match c
    case Top => true
    case LeftOf(up, n, _, _, r) =>
      n !in Nodes(r) && n !in CtxNodes(up) && Nodes(r) !! CtxNodes(up) && Apart(r) && CtxApart(up)
    case RightOf(l, n, _, _, up) =>
      n !in Nodes(l) && n !in CtxNodes(up) && Nodes(l) !! CtxNodes(up) && Apart(l) && CtxApart(up)
  }

  lemma {:induction false} PlugNodes<K, V>(c: Ctx<K, V>, t: Tree<K, V>)
    ensures Nodes(Plug(c, t)) == CtxNodes(c) + Nodes(t)
    decreases c
  {
    match c
    case Top =>
    case LeftOf(up, n, k, v, r) => PlugNodes(up, Bin(t, n, k, v, r));
    case RightOf(l, n, k, v, up) => PlugNodes(up, Bin(l, n, k, v, t));
  }

  lemma {:induction false} PlugApart<K, V>(c: Ctx<K, V>, t: Tree<K, V>)
    ensures Apart(Plug(c, t)) <==> CtxApart(c) && Apart(t) && CtxNodes(c) !! Nodes(t)
    decreases c
  {
    match c
    case Top =>
    case LeftOf(up, n, k, v, r) => PlugApart(up, Bin(t, n, k, v, r));
    case RightOf(l, n, k, v, up) => PlugApart(up, Bin(l, n, k, v, t));
  }

  // ---------- entries ----------

  ghost function Entries<K, V>(t: Tree<K, V>): seq<(K, V)> {
    match t
    case Leaf => []
    case Bin(l, _, k, v, r) => Entries(l) + [(k, v)] + Entries(r)
  }

  /** The entries to the left of the hole. */
  ghost function Before<K, V>(c: Ctx<K, V>): seq<(K, V)> {
    match c
    case Top => []
    case LeftOf(up, _, _, _, _) => Before(up)
    case RightOf(l, _, k, v, up) => Before(up) + Entries(l) + [(k, v)]
  }

  ghost function After<K, V>(c: Ctx<K, V>): seq<(K, V)> {
    match c
    case Top => []
    case LeftOf(up, _, k, v, r) => [(k, v)] + Entries(r) + After(up)
    case RightOf(_, _, _, _, up) => After(up)
  }

  lemma Regroup<T>(a: seq<T>, m: seq<T>, b: seq<T>, p: seq<T>, c: seq<T>)
    ensures a + m + (b + p + c) == a + m + b + p + c
    ensures a + (m + b + p) + c == a + m + b + p + c
    ensures a + m + b + (p + c) == a + m + b + p + c
    ensures a + m + (b + p + c) == a + (m + b + p) + c
    ensures a + m + (b + p) + c == a + m + b + p + c
    ensures a + (m + (b + p) + c) == a + m + b + p + c
  {
  }

  lemma {:induction false} PlugEntries<K, V>(c: Ctx<K, V>, t: Tree<K, V>)
    ensures Entries(Plug(c, t)) == Before(c) + Entries(t) + After(c)
    decreases c
  {
    match c
    case Top =>
    case LeftOf(up, n, k, v, r) =>
      PlugEntries(up, Bin(t, n, k, v, r));
      Regroup(Before(up), Entries(t), [(k, v)], Entries(r), After(up));
      Regroup([(k, v)], Entries(r), After(up), [], []);
      var b, e, m, s, a := Before(up), Entries(t), [(k, v)], Entries(r), After(up);
      assert b + (e + m + s) + a == b + e + (m + s + a);
    case RightOf(l, n, k, v, up) =>
      PlugEntries(up, Bin(l, n, k, v, t));
      Regroup(Before(up), Entries(l), [(k, v)], Entries(t), After(up));
  }

  // ---------- order ----------

  /** The laws of a total order for three keys. */
  ghost predicate Ordered<K>(cmp: (K, K) -> int, a: K, b: K, c: K) {
    && (cmp(a, b) == 0 <==> a == b)
    && (cmp(a, b) < 0 <==> cmp(b, a) > 0)
    && (cmp(a, b) < 0 && cmp(b, c) < 0 ==> cmp(a, c) < 0)
  }

  ghost predicate TotalOrder<K(!new)>(cmp: (K, K) -> int) {
    forall a, b, c :: Ordered(cmp, a, b, c)
  }

  ghost predicate InOrder<K, V>(es: seq<(K, V)>, i: int, j: int, cmp: (K, K) -> int)
    requires 0 <= i < |es| && 0 <= j < |es|
  {
    cmp(es[i].0, es[j].0) < 0
  }

  ghost predicate Sorted<K, V>(es: seq<(K, V)>, cmp: (K, K) -> int) {
    forall i, j :: 0 <= i < j < |es| ==> InOrder(es, i, j, cmp)
  }

  ghost predicate AllBelow<K, V>(es: seq<(K, V)>, key: K, cmp: (K, K) -> int) {
    forall i :: 0 <= i < |es| ==> cmp(es[i].0, key) < 0
  }

  ghost predicate AllAbove<K, V>(es: seq<(K, V)>, key: K, cmp: (K, K) -> int) {
    forall i :: 0 <= i < |es| ==> cmp(key, es[i].0) < 0
  }

  /** The hole is where a search for the key arrives. */
  ghost predicate OnPath<K, V>(c: Ctx<K, V>, key: K, cmp: (K, K) -> int) {
    match c
    case Top => true
    case LeftOf(up, _, k, _, _) => cmp(key, k) < 0 && OnPath(up, key, cmp)
    case RightOf(_, _, k, _, up) => cmp(key, k) > 0 && OnPath(up, key, cmp)
  }

  /** Everything to the left of the hole is below the key, everything to the right above it. */
  lemma {:induction false} PathSplits<K(!new), V>(c: Ctx<K, V>, t: Tree<K, V>, key: K, cmp: (K, K) -> int)
    requires TotalOrder(cmp) && Sorted(Entries(Plug(c, t)), cmp) && OnPath(c, key, cmp)
    ensures AllBelow(Before(c), key, cmp) && AllAbove(After(c), key, cmp)
    decreases c
  {
    match c
    case Top =>
    case LeftOf(up, n, k, v, r) =>
      PathSplits(up, Bin(t, n, k, v, r), key, cmp);
      PlugEntries(up, Bin(t, n, k, v, r));
      Regroup(Before(up), Entries(t), [(k, v)], Entries(r), After(up));
      SortedParts(Before(up) + Entries(t), (k, v), Entries(r), After(up), cmp);
      AboveBelow(key, (k, v), Entries(r), cmp);
      AboveJoin(key, [(k, v)] + Entries(r), After(up), cmp);
    case RightOf(l, n, k, v, up) =>
      PathSplits(up, Bin(l, n, k, v, t), key, cmp);
      PlugEntries(up, Bin(l, n, k, v, t));
      Regroup(Before(up), Entries(l), [(k, v)], Entries(t), After(up));
      SortedParts(Before(up) + Entries(l), (k, v), Entries(t), After(up), cmp);
      BelowAbove(key, (k, v), Before(up) + Entries(l), cmp);
  }

  lemma AboveBelow<K(!new), V>(key: K, m: (K, V), b: seq<(K, V)>, cmp: (K, K) -> int)
    requires TotalOrder(cmp) && cmp(key, m.0) < 0 && AllAbove(b, m.0, cmp)
    ensures AllAbove([m] + b, key, cmp)
  {
    forall i | 0 <= i < |[m] + b| ensures cmp(key, ([m] + b)[i].0) < 0 {
      assert Ordered(cmp, key, m.0, ([m] + b)[i].0);
      assert i > 0 ==> ([m] + b)[i] == b[i - 1];
    }
  }

  lemma BelowAbove<K(!new), V>(key: K, m: (K, V), a: seq<(K, V)>, cmp: (K, K) -> int)
    requires TotalOrder(cmp) && cmp(key, m.0) > 0 && AllBelow(a, m.0, cmp)
    ensures AllBelow(a + [m], key, cmp)
  {
    assert Ordered(cmp, m.0, key, key);
    forall i | 0 <= i < |a + [m]| ensures cmp((a + [m])[i].0, key) < 0 {
      assert Ordered(cmp, (a + [m])[i].0, m.0, key);
      assert i < |a| ==> (a + [m])[i] == a[i];
    }
  }

  lemma AboveJoin<K, V>(key: K, a: seq<(K, V)>, b: seq<(K, V)>, cmp: (K, K) -> int)
    requires AllAbove(a, key, cmp) && AllAbove(b, key, cmp)
    ensures AllAbove(a + b, key, cmp)
  {
  }

  /** In a sorted sequence, what lies before an entry is below it and what lies after is above. */
  lemma SortedParts<K, V>(a: seq<(K, V)>, m: (K, V), b: seq<(K, V)>, c: seq<(K, V)>, cmp: (K, K) -> int)
    requires Sorted(a + [m] + b + c, cmp)
    ensures AllBelow(a, m.0, cmp) && AllAbove(b, m.0, cmp)
  {
    var es := a + [m] + b + c;
    assert es[|a|] == m;
    forall i | 0 <= i < |a| ensures cmp(a[i].0, m.0) < 0 {
      assert es[i] == a[i] && InOrder(es, i, |a|, cmp);
    }
    forall i | 0 <= i < |b| ensures cmp(m.0, b[i].0) < 0 {
      assert es[|a| + 1 + i] == b[i] && InOrder(es, |a|, |a| + 1 + i, cmp);
    }
  }

  // ---------- rotations ----------

  ghost function RotL<K, V>(t: Tree<K, V>): Tree<K, V>
    requires t.Bin? && t.r.Bin?
  {
    var p := t.r;
    Bin(Bin(t.l, t.n, t.k, t.v, p.l), p.n, p.k, p.v, p.r)
  }

  ghost function RotR<K, V>(t: Tree<K, V>): Tree<K, V>
    requires t.Bin? && t.l.Bin?
  {
    var p := t.l;
    Bin(p.l, p.n, p.k, p.v, Bin(p.r, t.n, t.k, t.v, t.r))
  }

  function Max(a: int, b: int): int {
    if a > b then a else b
  }

  ghost function Height<K, V>(t: Tree<K, V>): nat {
    match t
    case Leaf => 0
    case Bin(l, _, _, _, r) => 1 + Max(Height(l), Height(r))
  }

  ghost function Balance<K, V>(t: Tree<K, V>): int {
    if t.Leaf? then 0 else Height(t.r) - Height(t.l)
  }

  /** One iteration of rebalance at the root of t. */
  ghost function Fix<K, V>(t: Tree<K, V>): Tree<K, V>
    requires t.Bin?
  {
    if Balance(t) == 2 then
      if Balance(t.r) == 1 then RotL(t)
      else if Balance(t.r) == -1 then RotL(t.(r := RotR(t.r)))
      else t
    else if Balance(t) == -2 then
      if Balance(t.l) == -1 then RotR(t)
      else if Balance(t.l) == 1 then RotR(t.(l := RotL(t.l)))
      else t
    else t
  }

  /** Rebalance at every node on the way from the hole to the root. */
  ghost function FixUp<K, V>(c: Ctx<K, V>, t: Tree<K, V>): Tree<K, V>
    decreases c
  {
    match c
    case Top => t
    case LeftOf(up, n, k, v, r) => FixUp(up, Fix(Bin(t, n, k, v, r)))
    case RightOf(l, n, k, v, up) => FixUp(up, Fix(Bin(l, n, k, v, t)))
  }

  lemma RotLKeeps<K, V>(t: Tree<K, V>)
    requires t.Bin? && t.r.Bin?
    ensures Entries(RotL(t)) == Entries(t) && Nodes(RotL(t)) == Nodes(t)
    ensures Apart(t) ==> Apart(RotL(t))
  {
    assert Nodes(t.r) == {t.r.n} + Nodes(t.r.l) + Nodes(t.r.r);
    if Apart(t) {
      assert Apart(t.r);
    }
    Regroup(Entries(t.l), [(t.k, t.v)], Entries(t.r.l), [(t.r.k, t.r.v)], Entries(t.r.r));
  }

  lemma RotRKeeps<K, V>(t: Tree<K, V>)
    requires t.Bin? && t.l.Bin?
    ensures Entries(RotR(t)) == Entries(t) && Nodes(RotR(t)) == Nodes(t)
    ensures Apart(t) ==> Apart(RotR(t))
  {
    assert Nodes(t.l) == {t.l.n} + Nodes(t.l.l) + Nodes(t.l.r);
    if Apart(t) {
      assert Apart(t.l);
    }
    Regroup(Entries(t.l.l), [(t.l.k, t.l.v)], Entries(t.l.r), [(t.k, t.v)], Entries(t.r));
  }

  lemma FixKeeps<K, V>(t: Tree<K, V>)
    requires t.Bin?
    ensures Entries(Fix(t)) == Entries(t) && Nodes(Fix(t)) == Nodes(t)
    ensures Apart(t) ==> Apart(Fix(t))
  {
    if Balance(t) == 2 {
      if Balance(t.r) == -1 {
        RotRKeeps(t.r);
        RotLKeeps(t.(r := RotR(t.r)));
      } else {
        RotLKeeps(t);
      }
    } else if Balance(t) == -2 {
      if Balance(t.l) == 1 {
        RotLKeeps(t.l);
        RotRKeeps(t.(l := RotL(t.l)));
      } else {
        RotRKeeps(t);
      }
    }
  }

  /** Rebalancing changes neither the entries nor their order, nor the nodes used. */
  lemma {:induction false} FixUpKeeps<K, V>(c: Ctx<K, V>, t: Tree<K, V>)
    ensures Entries(FixUp(c, t)) == Entries(Plug(c, t))
    ensures Nodes(FixUp(c, t)) == Nodes(Plug(c, t))
    ensures Apart(Plug(c, t)) ==> Apart(FixUp(c, t))
    decreases c
  {
    if !c.Top? {
      var u := if c.LeftOf? then Bin(t, c.n, c.k, c.v, c.r) else Bin(c.l, c.n, c.k, c.v, t);
      FixKeeps(u);
      FixUpKeeps(c.up, Fix(u));
      PlugEntries(c.up, u);
      PlugEntries(c.up, Fix(u));
      PlugNodes(c.up, u);
      PlugNodes(c.up, Fix(u));
      PlugApart(c.up, u);
      PlugApart(c.up, Fix(u));
    }
  }

  // ---------- balance ----------

  ghost predicate Balanced<K, V>(t: Tree<K, V>) {
    t.Bin? ==> -1 <= Balance(t) <= 1 && Balanced(t.l) && Balanced(t.r)
  }

  /** The tree is balanced whenever the hole is filled with a balanced tree of height h. */
  ghost predicate CtxBalanced<K, V>(c: Ctx<K, V>, h: nat) {
    match c
    case Top => true
    case LeftOf(up, _, _, _, r) =>
      && Balanced(r) && -1 <= Height(r) - h <= 1
      && CtxBalanced(up, 1 + Max(h, Height(r)))
    case RightOf(l, _, _, _, up) =>
      && Balanced(l) && -1 <= h - Height(l) <= 1
      && CtxBalanced(up, 1 + Max(Height(l), h))
  }

  lemma {:induction false} PlugBalanced<K, V>(c: Ctx<K, V>, t: Tree<K, V>)
    ensures Balanced(Plug(c, t)) <==> Balanced(t) && CtxBalanced(c, Height(t))
    decreases c
  {
    match c
    case Top =>
    case LeftOf(up, n, k, v, r) => PlugBalanced(up, Bin(t, n, k, v, r));
    case RightOf(l, n, k, v, up) => PlugBalanced(up, Bin(l, n, k, v, t));
  }

  /** A subtree that has grown by one level, and leans to one side unless it is a single node. */
  ghost predicate Grown<K, V>(t: Tree<K, V>, h: nat) {
    Height(t) == h + 1 && (h > 0 ==> Balance(t) != 0)
  }

  lemma FixLeft<K, V>(t: Tree<K, V>, n: Node<K, V>, k: K, v: V, r: Tree<K, V>, h: nat)
    requires Balanced(t) && (Height(t) == h || Grown(t, h)) && Balanced(r) && -1 <= Height(r) - h <= 1
    ensures
      var u, was := Fix(Bin(t, n, k, v, r)), 1 + Max(h, Height(r));
      Balanced(u) && (Height(u) == was || Grown(u, was))
  {
    if Height(r) - Height(t) == -2 {
      assert t.l.Leaf? || Balanced(t.l);
      if Balance(t) == 1 {
        assert t.r.Bin? && Balanced(t.r);
      }
    }
  }

  lemma FixRight<K, V>(l: Tree<K, V>, n: Node<K, V>, k: K, v: V, t: Tree<K, V>, h: nat)
    requires Balanced(t) && (Height(t) == h || Grown(t, h)) && Balanced(l) && -1 <= h - Height(l) <= 1
    ensures
      var u, was := Fix(Bin(l, n, k, v, t)), 1 + Max(Height(l), h);
      Balanced(u) && (Height(u) == was || Grown(u, was))
  {
    if Height(t) - Height(l) == 2 {
      assert t.r.Leaf? || Balanced(t.r);
      if Balance(t) == -1 {
        assert t.l.Bin? && Balanced(t.l);
      }
    }
  }

  /** The subtree below the next node up, after that node has been rebalanced. */
  ghost function FixedAbove<K, V>(c: Ctx<K, V>, t: Tree<K, V>): Tree<K, V>
    requires c != Top
  {
    match c
    case LeftOf(up, n, k, v, r) => Fix(Bin(t, n, k, v, r))
    case RightOf(l, n, k, v, up) => Fix(Bin(l, n, k, v, t))
  }

  /** A balanced subtree in place of one of height h, which may have grown by one level. */
  ghost predicate Replaces<K, V>(t: Tree<K, V>, h: nat) {
    Balanced(t) && (Height(t) == h || Grown(t, h))
  }

  lemma FixLeftOf<K, V>(c: Ctx<K, V>, t: Tree<K, V>, h: nat)
    requires c.LeftOf? && Replaces(t, h) && CtxBalanced(c, h)
    ensures Replaces(FixedAbove(c, t), 1 + Max(h, Height(c.r))) && CtxBalanced(c.up, 1 + Max(h, Height(c.r)))
  {
    FixLeft(t, c.n, c.k, c.v, c.r, h);
  }

  lemma FixRightOf<K, V>(c: Ctx<K, V>, t: Tree<K, V>, h: nat)
    requires c.RightOf? && Replaces(t, h) && CtxBalanced(c, h)
    ensures Replaces(FixedAbove(c, t), 1 + Max(Height(c.l), h)) && CtxBalanced(c.up, 1 + Max(Height(c.l), h))
  {
    FixRight(c.l, c.n, c.k, c.v, t, h);
  }

  /** After one insertion, rebalancing at each node above it restores balance. */
  lemma {:induction false} FixUpBalances<K, V>(c: Ctx<K, V>, t: Tree<K, V>, h: nat)
    requires Replaces(t, h) && CtxBalanced(c, h)
    ensures Balanced(FixUp(c, t))
    decreases c
  {
    match c
    case Top =>
    case LeftOf(_, _, _, _, _) =>
      FixLeftOf(c, t, h);
      FixUpBalances(c.up, FixedAbove(c, t), 1 + Max(h, Height(c.r)));
    case RightOf(_, _, _, _, _) =>
      FixRightOf(c, t, h);
      FixUpBalances(c.up, FixedAbove(c, t), 1 + Max(Height(c.l), h));
  }

  // ---------- inserting and removing entries ----------

  lemma SortedInsert<K, V>(a: seq<(K, V)>, m: (K, V), b: seq<(K, V)>, cmp: (K, K) -> int)
    requires Sorted(a + b, cmp) && AllBelow(a, m.0, cmp) && AllAbove(b, m.0, cmp)
    ensures Sorted(a + [m] + b, cmp)
  {
    var es := a + [m] + b;
    forall i, j | 0 <= i < j < |es| ensures InOrder(es, i, j, cmp) {
      var i', j' := if i < |a| then i else i - 1, if j < |a| then j else j - 1;
      if i != |a| && j != |a| {
        assert InOrder(a + b, i', j', cmp);
        assert es[i] == (a + b)[i'] && es[j] == (a + b)[j'];
      }
    }
  }

  lemma SortedRemove<K, V>(a: seq<(K, V)>, m: (K, V), b: seq<(K, V)>, cmp: (K, K) -> int)
    requires Sorted(a + [m] + b, cmp)
    ensures Sorted(a + b, cmp)
  {
    var es := a + [m] + b;
    forall i, j | 0 <= i < j < |a + b| ensures InOrder(a + b, i, j, cmp) {
      var i', j' := if i < |a| then i else i + 1, if j < |a| then j else j + 1;
      assert InOrder(es, i', j', cmp);
      assert es[i'] == (a + b)[i] && es[j'] == (a + b)[j];
    }
  }

  /** What a search tree holds after a new node has been put into hole c and the tree rebalanced. */
  lemma InsertedEntries<K(!new), V>(c: Ctx<K, V>, leaf: Tree<K, V>, cmp: (K, K) -> int)
    requires leaf.Bin? && leaf.l.Leaf? && leaf.r.Leaf?
    requires TotalOrder(cmp) && Sorted(Entries(Plug(c, Leaf)), cmp) && OnPath(c, leaf.k, cmp)
    ensures
      var es, at := Entries(Plug(c, Leaf)), |Before(c)|;
      && at <= |es| && Entries(FixUp(c, leaf)) == es[..at] + [(leaf.k, leaf.v)] + es[at..]
      && Sorted(Entries(FixUp(c, leaf)), cmp)
      && forall i :: 0 <= i < |es| ==> es[i].0 != leaf.k
  {
    PathSplits(c, Leaf, leaf.k, cmp);
    PlugEntries(c, Leaf);
    PlugEntries(c, leaf);
    FixUpKeeps(c, leaf);
    assert Entries(Plug(c, Leaf)) == Before(c) + After(c);
    assert Entries(leaf) == [(leaf.k, leaf.v)];
    EntryInserted(Before(c), (leaf.k, leaf.v), After(c), cmp);
  }

  lemma InsertedNodes<K, V>(c: Ctx<K, V>, leaf: Tree<K, V>)
    requires leaf.Bin? && leaf.l.Leaf? && leaf.r.Leaf?
    ensures Nodes(Plug(c, Leaf)) == CtxNodes(c)
    ensures Nodes(Plug(c, leaf)) == Nodes(FixUp(c, leaf)) == CtxNodes(c) + {leaf.n}
  {
    PlugNodes(c, Leaf);
    PlugNodes(c, leaf);
    FixUpKeeps(c, leaf);
  }

  lemma InsertedBalanced<K, V>(c: Ctx<K, V>, leaf: Tree<K, V>)
    requires leaf.Bin? && leaf.l.Leaf? && leaf.r.Leaf?
    ensures Balanced(Plug(c, Leaf)) ==> Balanced(FixUp(c, leaf))
  {
    if Balanced(Plug(c, Leaf)) {
      PlugBalanced(c, Leaf);
      FixUpBalances(c, leaf, 0);
    }
  }

  lemma KeyAbsent<K(!new), V>(a: seq<(K, V)>, b: seq<(K, V)>, key: K, cmp: (K, K) -> int)
    requires TotalOrder(cmp) && AllBelow(a, key, cmp) && AllAbove(b, key, cmp)
    ensures forall i :: 0 <= i < |a + b| ==> (a + b)[i].0 != key
  {
    forall i | 0 <= i < |a + b| ensures (a + b)[i].0 != key {
      var k := (a + b)[i].0;
      assert if i < |a| then cmp(a[i].0, key) < 0 else cmp(key, b[i - |a|].0) < 0;
      assert Ordered(cmp, key, k, key) && Ordered(cmp, k, key, key);
    }
  }

  lemma EntryInserted<K(!new), V>(a: seq<(K, V)>, m: (K, V), b: seq<(K, V)>, cmp: (K, K) -> int)
    requires TotalOrder(cmp) && Sorted(a + b, cmp) && AllBelow(a, m.0, cmp) && AllAbove(b, m.0, cmp)
    ensures
      var es := a + b;
      && a + [m] + b == es[..|a|] + [m] + es[|a|..]
      && Sorted(a + [m] + b, cmp)
      && forall i :: 0 <= i < |es| ==> es[i].0 != m.0
  {
    SortedInsert(a, m, b, cmp);
    KeyAbsent(a, b, m.0, cmp);
    assert (a + b)[..|a|] == a && (a + b)[|a|..] == b;
  }

  /** The path from the hole up to the root keeps to the right (to the left) edge. */
  ghost predicate RightEdge<K, V>(q: Ctx<K, V>) {
    q.Top? || (q.RightOf? && RightEdge(q.up))
  }

  ghost predicate LeftEdge<K, V>(q: Ctx<K, V>) {
    q.Top? || (q.LeftOf? && LeftEdge(q.up))
  }

  lemma {:induction false} EdgeEntries<K, V>(q: Ctx<K, V>)
    ensures RightEdge(q) ==> After(q) == []
    ensures LeftEdge(q) ==> Before(q) == []
    decreases q
  {
    if !q.Top? { EdgeEntries(q.up); }
  }

  /** t with its root's entry replaced by the last entry to the left of it, from node s.n. */
  ghost function PulledLeft<K, V>(t: Tree<K, V>, q: Ctx<K, V>, s: Tree<K, V>): Tree<K, V>
    requires t.Bin? && s.Bin?
  {
    Bin(Plug(q, s.l), t.n, s.k, s.v, t.r)
  }

  ghost function PulledRight<K, V>(t: Tree<K, V>, q: Ctx<K, V>, s: Tree<K, V>): Tree<K, V>
    requires t.Bin? && s.Bin?
  {
    Bin(t.l, t.n, s.k, s.v, Plug(q, s.r))
  }

  /** u is t without its root's entry and without node x. */
  ghost predicate Dropped<K, V>(t: Tree<K, V>, u: Tree<K, V>, x: Node<K, V>) {
    && t.Bin? && x in Nodes(t)
    && Entries(u) == Entries(t.l) + Entries(t.r)
    && Nodes(u) == Nodes(t) - {x}
    && Apart(u)
  }

  lemma RegroupLast<T>(b: seq<T>, e: seq<T>, m: seq<T>)
    ensures b + (e + m + []) + [] == b + e + [] + m
  {
  }

  lemma RegroupFirst<T>(l: seq<T>, m: seq<T>, e: seq<T>, a: seq<T>)
    ensures [] + ([] + m + e) + a == m + (e + a)
    ensures l + m + ([] + e + a) == l + (m + (e + a))
  {
  }

  lemma RegroupDrop<T>(b: seq<T>, l: seq<T>, m: seq<T>, r: seq<T>, a: seq<T>)
    ensures b + (l + m + r) + a == (b + l) + m + (r + a)
    ensures b + (l + r) + a == (b + l) + (r + a)
  {
  }

  lemma PulledLeftDrops<K, V>(t: Tree<K, V>, q: Ctx<K, V>, s: Tree<K, V>)
    requires t.Bin? && s.Bin? && s.r.Leaf? && Plug(q, s) == t.l && RightEdge(q) && Apart(t)
    ensures Dropped(t, PulledLeft(t, q, s), s.n)
  {
    PlugEntries(q, s);
    PlugEntries(q, s.l);
    EdgeEntries(q);
    PlugNodes(q, s);
    PlugNodes(q, s.l);
    PlugApart(q, s);
    PlugApart(q, s.l);
    RegroupLast(Before(q), Entries(s.l), [(s.k, s.v)]);
  }

  lemma PulledRightDrops<K, V>(t: Tree<K, V>, q: Ctx<K, V>, s: Tree<K, V>)
    requires t.Bin? && s.Bin? && s.l.Leaf? && Plug(q, s) == t.r && LeftEdge(q) && Apart(t)
    ensures Dropped(t, PulledRight(t, q, s), s.n)
  {
    PlugEntries(q, s);
    PlugEntries(q, s.r);
    EdgeEntries(q);
    PlugNodes(q, s);
    PlugNodes(q, s.r);
    PlugApart(q, s);
    PlugApart(q, s.r);
    RegroupFirst(Entries(t.l), [(s.k, s.v)], Entries(s.r), After(q));
  }

  /** fs is es without the entry at position `at`, and still sorted. */
  ghost predicate TakenOut<K(!new), V>(es: seq<(K, V)>, at: nat, fs: seq<(K, V)>, cmp: (K, K) -> int) {
    at < |es| && fs == es[..at] + es[at + 1..] && Sorted(fs, cmp)
  }

  /** What a search tree holds after a subtree has lost its root's entry and the tree is rebalanced. */
  lemma {:induction false} RemovedEntries<K(!new), V>(c: Ctx<K, V>, t: Tree<K, V>, u: Tree<K, V>, x: Node<K, V>,
                                                      cmp: (K, K) -> int)
    requires Dropped(t, u, x) && Sorted(Entries(Plug(c, t)), cmp)
    ensures
      var es, at := Entries(Plug(c, t)), |Before(c)| + |Entries(t.l)|;
      TakenOut(es, at, Entries(Plug(c, u)), cmp) && es[at] == (t.k, t.v)
  {
    PlugEntries(c, t);
    PlugEntries(c, u);
    DropMiddle(Entries(Plug(c, t)), Entries(Plug(c, u)), Before(c), Entries(t.l), (t.k, t.v), Entries(t.r), After(c),
               cmp);
  }

  lemma DropMiddle<K(!new), V>(es: seq<(K, V)>, fs: seq<(K, V)>, b: seq<(K, V)>, l: seq<(K, V)>, m: (K, V),
                               r: seq<(K, V)>, a: seq<(K, V)>, cmp: (K, K) -> int)
    requires es == b + (l + [m] + r) + a && fs == b + (l + r) + a && Sorted(es, cmp)
    ensures TakenOut(es, |b| + |l|, fs, cmp) && es[|b| + |l|] == m
  {
    RegroupDrop(b, l, [m], r, a);
    EntryRemoved(b + l, m, r + a, cmp);
  }

  lemma EntryRemoved<K, V>(a: seq<(K, V)>, m: (K, V), b: seq<(K, V)>, cmp: (K, K) -> int)
    requires Sorted(a + [m] + b, cmp)
    ensures
      var es := a + [m] + b;
      && es[|a|] == m && es[..|a|] + es[|a| + 1..] == a + b
      && Sorted(a + b, cmp)
  {
    SortedRemove(a, m, b, cmp);
    var es := a + [m] + b;
    assert es[..|a|] == a && es[|a| + 1..] == b;
  }
}
