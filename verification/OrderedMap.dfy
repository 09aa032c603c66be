/**
 The ordered map of src/util/ordered_map.c: an AVL tree and a doubly linked list over the same
 items, which together are one sequence of distinct keys with their values.
 */
module OrderedMap {
  import opened Basics
  import opened AvlShape
  import opened AvlTree
  import opened LinkedList
  import opened Wrappers

  lemma UniqueKey<K(!new), V>(es: seq<(K, V)>, cmp: (K, K) -> int, i: nat, j: nat)
    requires TotalOrder(cmp) && Sorted(es, cmp) && i < |es| && j < |es| && es[i].0 == es[j].0
    ensures i == j
  {
    assert Ordered(cmp, es[i].0, es[j].0, es[i].0);
    assert i < j ==> InOrder(es, i, j, cmp);
    assert j < i ==> InOrder(es, j, i, cmp);
  }

  class MapItem<K, V> {
    const key: K
    const value: V
    var listItem: ListItem?<MapItem<K, V>>

    constructor (key: K, value: V)
      ensures this.key == key && this.value == value
    {
      this.key, this.value := key, value;
      listItem := null;
    }
  }

  ghost predicate Listed<K, V>(items: seq<ListItem<MapItem<K, V>>>, item: MapItem<K, V>) {
    exists i :: 0 <= i < |items| && items[i].data == item
  }

  ghost predicate InTree<K, V>(es: seq<(K, MapItem<K, V>)>, item: MapItem<K, V>) {
    (item.key, item) in es
  }

  /** The list and the tree hold the same items, under their own keys. */
  ghost predicate SameItems<K, V>(items: seq<ListItem<MapItem<K, V>>>, es: seq<(K, MapItem<K, V>)>) {
    && (forall i :: 0 <= i < |items| ==> InTree(es, items[i].data))
    && (forall e :: e in es ==> e.1.key == e.0 && Listed(items, e.1))
  }

  /** Every item points back at its place in the list. */
  ghost predicate BackPointers<K, V>(items: seq<ListItem<MapItem<K, V>>>)
    reads set li | li in items :: li.data
  {
    forall i :: 0 <= i < |items| ==> items[i].data.listItem == items[i]
  }

  /** The entries a list stands for. */
  ghost function EntriesOf<K, V>(items: seq<ListItem<MapItem<K, V>>>): seq<(K, V)> {
    seq(|items|, i requires 0 <= i < |items| => (items[i].data.key, items[i].data.value))
  }

  lemma SameItemsAdd<K, V>(items: seq<ListItem<MapItem<K, V>>>, items': seq<ListItem<MapItem<K, V>>>,
                           es: seq<(K, MapItem<K, V>)>, li: ListItem<MapItem<K, V>>, at: nat)
    requires SameItems(items, es) && at <= |es|
    requires items' == [li] + items || items' == items + [li]
    ensures SameItems(items', es[..at] + [(li.data.key, li.data)] + es[at..])
  {
    var es' := es[..at] + [(li.data.key, li.data)] + es[at..];
    assert es == es[..at] + es[at..];
    var p, d := if items' == [li] + items then 0 else |items|, if items' == [li] + items then 1 else 0;
    assert items'[p] == li && forall i :: 0 <= i < |items| ==> items'[i + d] == items[i];
    forall i | 0 <= i < |items'| ensures InTree(es', items'[i].data) {
      if i != p { assert InTree(es, items[i - d].data); }
    }
    forall e | e in es' ensures e.1.key == e.0 && Listed(items', e.1) {
      if e in es {
        var i :| 0 <= i < |items| && items[i].data == e.1;
        assert items'[i + d].data == e.1;
      } else {
        assert items'[p].data == e.1;
      }
    }
  }

  lemma SameItemsMove<K, V>(items: seq<ListItem<MapItem<K, V>>>, es: seq<(K, MapItem<K, V>)>, k: nat)
    requires SameItems(items, es) && k < |items|
    ensures SameItems(ToFront(items, k), es)
    ensures EntriesOf(ToFront(items, k)) == ToFront(EntriesOf(items), k)
  {
    var t := ToFront(items, k);
    forall i | 0 <= i < |t| ensures InTree(es, t[i].data) {
      assert InTree(es, items[if i == 0 then k else if i <= k then i - 1 else i].data);
    }
    forall e | e in es ensures Listed(t, e.1) {
      var i :| 0 <= i < |items| && items[i].data == e.1;
      assert t[if i == k then 0 else if i < k then i + 1 else i].data == e.1;
    }
  }

  lemma ListAdd<K, V>(items: seq<ListItem<MapItem<K, V>>>, li: ListItem<MapItem<K, V>>)
    ensures EntriesOf([li] + items) == [(li.data.key, li.data.value)] + EntriesOf(items)
    ensures EntriesOf(items + [li]) == EntriesOf(items) + [(li.data.key, li.data.value)]
  {
  }

  lemma SameKeys<K, V>(items: seq<ListItem<MapItem<K, V>>>, es: seq<(K, MapItem<K, V>)>, key: K)
    requires SameItems(items, es)
    ensures HasKey(es, key) <==> HasKey(EntriesOf(items), key)
  {
    if HasKey(es, key) {
      var j :| 0 <= j < |es| && es[j].0 == key;
      assert es[j] in es;
      var i :| 0 <= i < |items| && items[i].data == es[j].1;
      assert EntriesOf(items)[i].0 == key;
    }
    if HasKey(EntriesOf(items), key) {
      var i :| 0 <= i < |items| && EntriesOf(items)[i].0 == key;
      assert InTree(es, items[i].data);
    }
  }

  lemma BackPointersMove<K, V>(items: seq<ListItem<MapItem<K, V>>>, k: nat)
    requires BackPointers(items) && k < |items|
    ensures BackPointers(ToFront(items, k))
    ensures forall li :: li in ToFront(items, k) ==> li in items
  {
  }

  /** Two places of the list with the same key are one. */
  lemma ListKeysUnique<K(!new), V>(items: seq<ListItem<MapItem<K, V>>>, es: seq<(K, MapItem<K, V>)>, cmp: (K, K) -> int,
                                   i: nat, j: nat)
    requires SameItems(items, es) && BackPointers(items) && Distinct(items)
    requires TotalOrder(cmp) && Sorted(es, cmp)
    requires i < |items| && j < |items| && items[i].data.key == items[j].data.key
    ensures i == j
  {
    assert InTree(es, items[i].data) && InTree(es, items[j].data);
    var i' :| 0 <= i' < |es| && es[i'] == (items[i].data.key, items[i].data);
    var j' :| 0 <= j' < |es| && es[j'] == (items[j].data.key, items[j].data);
    UniqueKey(es, cmp, i', j');
    DistinctAt(items, i);
  }

  lemma SameItemsRemove<K(!new), V>(items: seq<ListItem<MapItem<K, V>>>, es: seq<(K, MapItem<K, V>)>,
                                    cmp: (K, K) -> int, k: nat, at: nat)
    requires SameItems(items, es) && BackPointers(items) && Distinct(items)
    requires TotalOrder(cmp) && Sorted(es, cmp)
    requires k < |items| && at < |es| && es[at].0 == items[k].data.key
    ensures SameItems(items[..k] + items[k + 1..], es[..at] + es[at + 1..])
    ensures EntriesOf(items[..k] + items[k + 1..]) == EntriesOf(items)[..k] + EntriesOf(items)[k + 1..]
  {
    var t, fs := items[..k] + items[k + 1..], es[..at] + es[at + 1..];
    forall i | 0 <= i < |t| ensures InTree(fs, t[i].data) {
      var j := if i < k then i else i + 1;
      assert t[i] == items[j] && InTree(es, items[j].data);
      var p :| 0 <= p < |es| && es[p] == (items[j].data.key, items[j].data);
      if p == at { ListKeysUnique(items, es, cmp, j, k); }
      assert fs[if p < at then p else p - 1] == es[p];
    }
    forall e | e in fs ensures e.1.key == e.0 && Listed(t, e.1) {
      var q :| 0 <= q < |fs| && fs[q] == e;
      var p := if q < at then q else q + 1;
      assert e == es[p] && e in es;
      var j :| 0 <= j < |items| && items[j].data == e.1;
      if j == k { UniqueKey(es, cmp, p, at); }
      assert t[if j < k then j else j - 1] == items[j];
    }
  }

  lemma WithoutEnd<T>(s: seq<T>)
    ensures s != [] ==> s[..0] + s[1..] == s[1..] && s[..|s| - 1] + s[|s|..] == s[..|s| - 1]
  {}

  class OrderedMap<K(!new), V> {
    const tree: AVLTree<K, MapItem<K, V>>
    const list: LinkedList<MapItem<K, V>>

    /** The entries, in list order. */
    ghost function Contents(): seq<(K, V)>
      reads list
    {
      EntriesOf(list.items)
    }

    ghost function ListNodes(): set<ListItem<MapItem<K, V>>>
      reads list
    {
      set li | li in list.items
    }

    /** The objects that the operations may change. */
    ghost function Footprint(): set<object>
      reads tree, list
    {
      {tree, list} + Nodes(tree.shape) + ListNodes()
    }

    ghost function Items(): set<MapItem<K, V>>
      reads list
    {
      set li | li in list.items :: li.data
    }

    /** All objects that its state is made of. */
    ghost function Repr(): set<object>
      reads tree, list
    {
      Footprint() + Items() + set n | n in tree.chain
    }

    ghost predicate Valid()
      reads tree, Nodes(tree.shape), tree.chain, list, list.items, set li | li in list.items :: li.data
    {
      tree.Valid() && list.Valid() && BackPointers(list.items) && SameItems(list.items, tree.Contents())
    }

    constructor (cmp: (K, K) -> int)
      requires TotalOrder(cmp)
      ensures Valid() && Contents() == [] && fresh(tree) && fresh(list) && Repr() == {tree, list}
    {
      tree := new AVLTree(cmp);
      list := new LinkedList();
    }

    /** No key occurs twice. */
    lemma KeysDistinct(i: nat, j: nat)
      requires Valid() && i < j < |Contents()|
      ensures Contents()[i].0 != Contents()[j].0
    {
      if Contents()[i].0 == Contents()[j].0 {
        ListKeysUnique(list.items, tree.Contents(), tree.cmp, i, j);
      }
    }

    /** The tree's chain holds no node but those of the tree. */
    lemma ReprParts()
      requires Valid()
      ensures Repr() == Footprint() + Items()
    {
    }

    /** ordered_map_lookup, as far as the item. */
    method FindItem(key: K) returns (r: Option<MapItem<K, V>>, ghost k: nat)
      requires Valid()
      ensures r.None? ==> !HasKey(Contents(), key)
      ensures r.Some? ==> k < |list.items| && list.items[k].data == r.value
      ensures r.Some? ==> r.value.key == key && r.value.listItem == list.items[k]
    {
      r := tree.Lookup(key);
      k := 0;
      if r.Some? {
        assert Listed(list.items, (key, r.value).1);
        k :| 0 <= k < |list.items| && list.items[k].data == r.value;
      } else {
        forall i | 0 <= i < |Contents()| ensures Contents()[i].0 != key {
          assert InTree(tree.Contents(), list.items[i].data);
        }
      }
    }

    method Lookup(key: K) returns (r: Option<V>)
      requires Valid()
      ensures r.None? ==> !HasKey(Contents(), key)
      ensures r.Some? ==> (key, r.value) in Contents()
    {
      var item;
      ghost var k;
      item, k := FindItem(key);
      if item.None? { return None; }
      assert Contents()[k] == (key, item.value.value);
      return Some(item.value.value);
    }

    method Size() returns (n: nat)
      requires Valid()
      ensures n == |Contents()|
    {
      n := list.count;
    }

    /** The list's side of the invariant. */
    ghost predicate ListOk()
      reads list, list.items, set li | li in list.items :: li.data
    {
      list.Valid() && BackPointers(list.items)
    }

    /** Move a list item to the head. */
    method MoveToHead(li: ListItem<MapItem<K, V>>, ghost k: nat)
      requires tree.Valid() && ListOk() && k < |list.items| && list.items[k] == li
      modifies list, list.items
      ensures tree.Valid() && ListOk() && list.items == ToFront(old(list.items), k)
      ensures forall x :: x in list.items ==> x in old(list.items)
    {
      ghost var items := list.items;
      list.MakeItemHead(li, k);
      assert BackPointers(items);
      BackPointersMove(items, k);
    }

    /** ordered_map_make_item_head. */
    method MakeItemHead(key: K) returns (err: int, ghost k: nat)
      requires Valid()
      modifies Footprint()
      ensures Valid() && Footprint() <= old(Footprint()) && Items() <= old(Items())
      ensures err == if HasKey(old(Contents()), key) then 0 else -1
      ensures err == -1 ==> Contents() == old(Contents())
      ensures err == 0 ==>
                k < |old(Contents())| && old(Contents())[k].0 == key && Contents() == ToFront(old(Contents()), k)
    {
      var item;
      item, k := FindItem(key);
      if item.None? { return -1, 0; }
      assert Contents()[k].0 == key;
      SameItemsMove(list.items, tree.Contents(), k);
      MoveToHead(item.value.listItem, k);
      err := 0;
    }

    /** As LinkItem; the tree takes no part in it. */
    method NewItem(key: K, value: V, head: bool) returns (item: MapItem<K, V>, ghost li: ListItem<MapItem<K, V>>)
      requires tree.Valid() && ListOk()
      modifies list, list.items
      ensures fresh(item) && fresh(li) && item.key == key && item.value == value && li.data == item
      ensures ListOk() && list.items == if head then [li] + old(list.items) else old(list.items) + [li]
      ensures tree.Valid()
    {
      item, li := LinkItem(key, value, head);
    }

    /** Allocate an item and link it into the list, at the head or at the tail. */
    method LinkItem(key: K, value: V, head: bool) returns (item: MapItem<K, V>, ghost li: ListItem<MapItem<K, V>>)
      requires ListOk()
      modifies list, list.items
      ensures fresh(item) && fresh(li) && item.key == key && item.value == value && li.data == item
      ensures ListOk() && list.items == if head then [li] + old(list.items) else old(list.items) + [li]
    {
      item := new MapItem(key, value);
      ghost var items := list.items;
      var newItem;
      if head {
        newItem := list.AddItemHead(item);
      } else {
        newItem := list.AddItemTail(item);
      }
      assert BackPointers(items);
      item.listItem := newItem;
      assert forall i :: 0 <= i < |items| ==> items[i].data.listItem == items[i];
      li := newItem;
    }

    /** ordered_map_add_item_head and ordered_map_add_item_tail: refuse a key that is there already. */
    method AddItem(key: K, value: V, head: bool) returns (err: int)
      requires Valid()
      modifies Footprint()
      ensures Valid() && fresh(Footprint() - old(Footprint())) && fresh(Items() - old(Items()))
      ensures err == if HasKey(old(Contents()), key) then -1 else 0
      ensures err == -1 ==> Contents() == old(Contents())
      ensures err == 0 ==>
        Contents() == if head then [(key, value)] + old(Contents()) else old(Contents()) + [(key, value)]
    {
      var found := Lookup(key);
      if found.Some? { return -1; }
      ghost var li;
      ghost var items := list.items;
      li := AddNew(key, value, head);
      ListAdd(items, li);
      err := 0;
    }

    method AddNew(key: K, value: V, head: bool) returns (ghost li: ListItem<MapItem<K, V>>)
      requires Valid() && !HasKey(Contents(), key)
      modifies Footprint()
      ensures Valid()
      ensures fresh(li) && fresh(li.data)
      ensures forall n :: n in Nodes(tree.shape) ==> n in old(Nodes(tree.shape)) || fresh(n)
      ensures li.data.key == key && li.data.value == value
      ensures list.items == if head then [li] + old(list.items) else old(list.items) + [li]
    {
      ghost var items, es, at := list.items, tree.Contents(), 0;
      var item;
      item, li := NewItem(key, value, head);
      SameKeys(items, es, key);
      assert Nodes(tree.shape) == old(Nodes(tree.shape));
      at := AddToTree(item);
      SameItemsAdd(items, list.items, es, li, at);
    }

    method AddToTree(item: MapItem<K, V>) returns (ghost at: nat)
      requires tree.Valid() && ListOk() && !HasKey(tree.Contents(), item.key)
      modifies tree, Nodes(tree.shape)
      ensures tree.Valid() && ListOk()
      ensures at <= |old(tree.Contents())|
      ensures tree.Contents() == old(tree.Contents())[..at] + [(item.key, item)] + old(tree.Contents())[at..]
      ensures forall n :: n in Nodes(tree.shape) ==> n in old(Nodes(tree.shape)) || fresh(n)
    {
      var err;
      err, at := tree.AddNode(item.key, item);
      assert err == 0;
    }

    /** Take a list item, and the tree's entry for it, out of the map. */
    method RemoveListed(li: ListItem<MapItem<K, V>>, ghost k: nat) returns (value: V)
      requires Valid() && k < |list.items| && list.items[k] == li
      modifies Footprint()
      ensures Valid() && Footprint() <= old(Footprint()) && Items() <= old(Items())
      ensures value == old(Contents())[k].1
      ensures Contents() == old(Contents())[..k] + old(Contents())[k + 1..]
    {
      ghost var items := list.items;
      value := li.data.value;
      RemoveEntry(li, k);
      RemoveFromList(li, k);
      assert list.items == items[..k] + items[k + 1..];
    }

    /** The tree's part of it: what is left in the tree is what will be left in the list. */
    method RemoveEntry(li: ListItem<MapItem<K, V>>, ghost k: nat)
      requires Valid() && k < |list.items| && list.items[k] == li
      modifies tree, Nodes(tree.shape)
      ensures tree.Valid() && ListOk() && Nodes(tree.shape) <= old(Nodes(tree.shape))
      ensures SameItems(list.items[..k] + list.items[k + 1..], tree.Contents())
      ensures EntriesOf(list.items[..k] + list.items[k + 1..]) == old(Contents())[..k] + old(Contents())[k + 1..]
    {
      ghost var es := tree.Contents();
      var item := li.data;
      assert InTree(es, item);
      ghost var at := RemoveFromTree(item);
      SameItemsRemove(list.items, es, tree.cmp, k, at);
    }

    method RemoveFromTree(item: MapItem<K, V>) returns (ghost at: nat)
      requires tree.Valid() && ListOk() && InTree(tree.Contents(), item)
      modifies tree, Nodes(tree.shape)
      ensures tree.Valid() && ListOk() && Nodes(tree.shape) <= old(Nodes(tree.shape))
      ensures at < |old(tree.Contents())| && old(tree.Contents())[at].0 == item.key
      ensures tree.Contents() == old(tree.Contents())[..at] + old(tree.Contents())[at + 1..]
    {
      ghost var i :| 0 <= i < |tree.Contents()| && tree.Contents()[i] == (item.key, item);
      var r;
      ghost var c, t, u;
      r, at, c, t, u := tree.DeleteNode(item.key);
    }

    method RemoveFromList(li: ListItem<MapItem<K, V>>, ghost k: nat)
      requires tree.Valid() && ListOk() && k < |list.items| && list.items[k] == li
      modifies list, list.items
      ensures tree.Valid() && ListOk() && list.items == old(list.items)[..k] + old(list.items)[k + 1..]
      ensures ListNodes() <= old(ListNodes()) && Items() <= old(Items())
    {
      ghost var items := list.items;
      var data := list.RemoveItem(li, k);
      assert BackPointers(items);
    }

    method RemoveItem(key: K) returns (r: Option<V>, ghost k: nat)
      requires Valid()
      modifies Footprint()
      ensures Valid() && Footprint() <= old(Footprint()) && Items() <= old(Items())
      ensures r.None? <==> !HasKey(old(Contents()), key)
      ensures r.None? ==> Contents() == old(Contents())
      ensures r.Some? ==> k < |old(Contents())| && old(Contents())[k] == (key, r.value)
      ensures r.Some? ==> Contents() == old(Contents())[..k] + old(Contents())[k + 1..]
    {
      var item;
      item, k := FindItem(key);
      if item.None? { return None, 0; }
      assert Contents()[k].0 == key;
      var value := RemoveListed(item.value.listItem, k);
      r := Some(value);
    }

    method RemoveHead() returns (r: Option<V>)
      requires Valid()
      modifies Footprint()
      ensures Valid() && Footprint() <= old(Footprint()) && Items() <= old(Items())
      ensures r.None? <==> old(Contents()) == []
      ensures r.None? ==> Contents() == []
      ensures r.Some? ==> r.value == old(Contents())[0].1 && Contents() == old(Contents())[1..]
    {
      if list.count == 0 { return None; }
      assert list.head.data.listItem == list.head;
      WithoutEnd(Contents());
      var value := RemoveListed(list.head, 0);
      r := Some(value);
    }

    method RemoveTail() returns (r: Option<V>)
      requires Valid()
      modifies Footprint()
      ensures Valid() && Footprint() <= old(Footprint()) && Items() <= old(Items())
      ensures r.None? <==> old(Contents()) == []
      ensures r.None? ==> Contents() == []
      ensures r.Some? ==> r.value == old(Contents())[|old(Contents())| - 1].1
      ensures r.Some? ==> Contents() == old(Contents())[..|old(Contents())| - 1]
    {
      if list.count == 0 { return None; }
      assert list.tail.data.listItem == list.tail;
      WithoutEnd(Contents());
      var value := RemoveListed(list.tail, list.count - 1);
      r := Some(value);
    }

    /** ordered_map_iterate: null starts the iteration; a null result ends it. */
    method Iterate(omi: MapItem?<K, V>, ghost k: nat) returns (next: MapItem?<K, V>)
      requires Valid()
      requires omi != null ==> k < |list.items| && list.items[k].data == omi
      ensures var at := if omi == null then 0 else k + 1;
              if at < |Contents()| then next == list.items[at].data && (next.key, next.value) == Contents()[at]
              else next == null
    {
      if omi == null {
        next := if list.head != null then list.head.data else null;
      } else {
        var li := omi.listItem.next;
        next := if li != null then li.data else null;
      }
    }
  }
}
