/** The doubly linked list of src/util/linked_list.c. */
module LinkedList {
  import opened Basics

  /** s with its element k moved to the front. */
  ghost function ToFront<T>(s: seq<T>, k: nat): (t: seq<T>)
    requires k < |s|
    ensures t == [s[k]] + s[..k] + s[k + 1..]
  {
    seq(|s|, i requires 0 <= i < |s| => if i == 0 then s[k] else if i <= k then s[i - 1] else s[i])
  }

  lemma ToFrontDistinct<T>(s: seq<T>, k: nat)
    requires k < |s| && Distinct(s)
    ensures Distinct(ToFront(s, k))
  {
    var t := ToFront(s, k);
    forall i, j | 0 <= i < j < |t| ensures t[i] != t[j] {
      var i' := if i == 0 then k else if i <= k then i - 1 else i;
      var j' := if j <= k then j - 1 else j;
      assert t[i] == s[i'] && t[j] == s[j'];
    }
  }

  class ListItem<T> {
    const data: T
    var prev: ListItem?<T>
    var next: ListItem?<T>

    constructor (data: T)
      ensures this.data == data && prev == null && next == null
    {
      this.data := data;
      prev, next := null, null;
    }
  }

  /** Neighbours in the sequence point at each other. */
  ghost predicate Linked<T>(s: seq<ListItem<T>>)
    reads s
  {
    && (forall i {:trigger s[i].prev} :: 0 <= i < |s| ==> s[i].prev == if i > 0 then s[i - 1] else null)
    && (forall i {:trigger s[i].next} :: 0 <= i < |s| ==> s[i].next == if i < |s| - 1 then s[i + 1] else null)
  }

  /** The links of a list whose element k has just been put in front of it. */
  lemma ToFrontLinked<T>(s: seq<ListItem<T>>, k: nat)
    requires 0 < k < |s|
    requires s[k].prev == null && s[k].next == s[0]
    requires forall j {:trigger s[j].prev} :: 0 <= j < |s| && j != k ==>
               s[j].prev == if j == 0 then s[k] else if j == k + 1 then s[k - 1] else s[j - 1]
    requires forall j {:trigger s[j].next} :: 0 <= j < |s| && j != k ==>
               s[j].next == if j == k - 1 then (if k + 1 < |s| then s[k + 1] else null)
                            else if j + 1 < |s| then s[j + 1] else null
    ensures Linked(ToFront(s, k))
  {
  }

  class LinkedList<T> {
    var head: ListItem?<T>
    var tail: ListItem?<T>
    var count: nat
    ghost var items: seq<ListItem<T>>

    ghost predicate Valid()
      reads this, items
    {
      && count == |items|
      && head == (if |items| > 0 then items[0] else null)
      && tail == (if |items| > 0 then items[|items| - 1] else null)
      && Linked(items) && Distinct(items)
    }

    constructor ()
      ensures Valid() && items == []
    {
      head, tail, count := null, null, 0;
      items := [];
    }

    /** linked_list_check: the debug walk over the list, whose checks never fail. */
    method Check()
      requires Valid()
    {
      var thisItem, prevItem, nrItems := head, null, 0;
      while thisItem != null
        invariant nrItems <= |items|
        invariant thisItem == if nrItems < |items| then items[nrItems] else null
        invariant prevItem == if nrItems > 0 then items[nrItems - 1] else null
        decreases |items| - nrItems
      {
        if thisItem == head {
          assert thisItem.prev == null;
        } else {
          assert prevItem.next == thisItem;
          assert thisItem.prev == prevItem;
        }
        prevItem := thisItem;
        thisItem := thisItem.next;
        nrItems := nrItems + 1;
      }
      assert nrItems == count;
    }

    method AddItemHead(data: T) returns (newItem: ListItem<T>)
      requires Valid()
      modifies this, items
      ensures Valid() && fresh(newItem) && newItem.data == data
      ensures items == [newItem] + old(items)
    {
      newItem := new ListItem(data);
      DistinctJoin([newItem], items);
      if count > 0 { DistinctAt(items, 0); }
      newItem.next := head;
      if head != null {
        head.prev := newItem;
      } else {
        tail := newItem;
      }
      head := newItem;
      count := count + 1;
      items := [newItem] + items;
    }

    method AddItemTail(data: T) returns (newItem: ListItem<T>)
      requires Valid()
      modifies this, items
      ensures Valid() && fresh(newItem) && newItem.data == data
      ensures items == old(items) + [newItem]
    {
      newItem := new ListItem(data);
      DistinctJoin(items, [newItem]);
      if count > 0 { DistinctAt(items, |items| - 1); }
      if count == 0 {
        head, tail := newItem, newItem;
      } else {
        newItem.prev := tail;
        tail.next := newItem;
        tail := newItem;
      }
      count := count + 1;
      items := items + [newItem];
    }

    /** linked_list_make_item_head. */
    method MakeItemHead(item: ListItem<T>, ghost k: nat)
      requires Valid() && k < |items| && items[k] == item
      modifies this, items
      ensures Valid() && items == ToFront(old(items), k)
    {
      DistinctAt(items, k);
      if item == head {
        assert k == 0;
        assert ToFront(items, 0) == items;
        return;
      }
      var oldHead, oldPrev, oldNext := head, item.prev, item.next;
      ghost var s := items;
      assert oldHead != null && oldPrev != null;
      DistinctAt(s, 0);
      DistinctAt(s, k - 1);
      if k + 1 < |s| { DistinctAt(s, k + 1); }
      if tail == item { tail := oldPrev; }
      head := item;
      item.prev := null;
      item.next := oldHead;
      if oldHead != null { oldHead.prev := item; }
      if oldPrev != null { oldPrev.next := oldNext; }
      if oldNext != null { oldNext.prev := oldPrev; }
      ToFrontLinked(s, k);
      ToFrontDistinct(s, k);
      items := ToFront(s, k);
    }

    method RemoveTail() returns (data: T)
      requires Valid() && |items| > 0
      modifies this, items
      ensures Valid() && items == old(items)[..|old(items)| - 1]
      ensures data == old(items)[|old(items)| - 1].data
    {
      var item := tail;
      data := item.data;
      DistinctAt(items, |items| - 1);
      DistinctPrefix(items, |items| - 1);
      if count == 1 {
        head, tail := null, null;
      } else {
        tail := item.prev;
        item.prev.next := null;
      }
      count := count - 1;
      items := items[..|items| - 1];
    }

    method RemoveHead() returns (data: T)
      requires Valid() && |items| > 0
      modifies this, items
      ensures Valid() && items == old(items)[1..] && data == old(items)[0].data
    {
      var item := head;
      data := item.data;
      DistinctAt(items, 0);
      DistinctSuffix(items, 1);
      ghost var rest := items[1..];
      if count == 1 {
        head, tail := null, null;
      } else {
        head := item.next;
        item.next.prev := null;
      }
      count := count - 1;
      items := rest;
    }

    /** linked_list_remove_item: move it to the head, then remove the head. */
    method RemoveItem(item: ListItem<T>, ghost k: nat) returns (data: T)
      requires Valid() && k < |items| && items[k] == item
      modifies this, items
      ensures Valid() && items == old(items)[..k] + old(items)[k + 1..] && data == item.data
    {
      MakeItemHead(item, k);
      data := RemoveHead();
    }
  }
}
