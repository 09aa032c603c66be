/**
 What both caches (src/hdf5/file_cache.c and src/hdf5/dataset_cache.c) do with their ordered map:
 look up and move to the head, remove from the tail until there is room, add at the head.
 */
module CacheOps {
  import opened AvlShape
  import opened AvlTree
  import opened LinkedList
  import opened OrderedMap
  import opened Lru

  /** A cached entry becomes the most recently used. */
  method MakeHead<K(!new), V>(om: OrderedMap<K, V>, key: K) returns (ghost k: nat)
    requires om.Valid() && HasKey(om.Contents(), key)
    modifies om.Footprint()
    ensures om.Valid() && om.Repr() <= old(om.Repr())
    ensures k < |old(om.Contents())| && old(om.Contents())[k].0 == key
    ensures om.Contents() == ToFront(old(om.Contents()), k)
  {
    om.ReprParts();
    k := MoveHead(om, key);
    om.ReprParts();
  }

  method MoveHead<K(!new), V>(om: OrderedMap<K, V>, key: K) returns (ghost k: nat)
    requires om.Valid() && HasKey(om.Contents(), key)
    modifies om.Footprint()
    ensures om.Valid() && om.Footprint() <= old(om.Footprint()) && om.Items() <= old(om.Items())
    ensures k < |old(om.Contents())| && old(om.Contents())[k].0 == key
    ensures om.Contents() == ToFront(old(om.Contents()), k)
  {
    var err;
    err, k := om.MakeItemHead(key);
  }

  /** Remove entries from the tail of the list until there is room for one more. */
  method MakeRoom<K(!new), V>(om: OrderedMap<K, V>, capacity: nat)
    requires om.Valid() && capacity >= 1
    modifies om.Footprint()
    ensures om.Valid() && om.Footprint() <= old(om.Footprint()) && om.Items() <= old(om.Items())
    ensures om.Contents() == Take(old(om.Contents()), capacity - 1)
  {
    ghost var es := om.Contents();
    var size: nat := om.Size();
    while size >= capacity
      invariant om.Valid() && om.Footprint() <= old(om.Footprint()) && om.Items() <= old(om.Items())
      invariant size <= |es| && om.Contents() == es[..size]
      invariant size >= capacity - 1 || size == |es|
    {
      size := DropLast(om, es, size);
    }
    TakePrefix(es, size, capacity - 1);
  }

  method DropLast<K(!new), V>(om: OrderedMap<K, V>, ghost es: seq<(K, V)>, n: nat) returns (size: nat)
    requires om.Valid() && 0 < n <= |es| && om.Contents() == es[..n]
    modifies om.Footprint()
    ensures om.Valid() && om.Footprint() <= old(om.Footprint()) && om.Items() <= old(om.Items())
    ensures size == n - 1 && om.Contents() == es[..size]
  {
    ShorterPrefix(es, n);
    RemoveLast(om);
    assert om.Contents() == es[..n - 1];
    size := om.Size();
  }

  method RemoveLast<K(!new), V>(om: OrderedMap<K, V>)
    requires om.Valid() && |om.Contents()| > 0
    modifies om.Footprint()
    ensures om.Valid() && om.Footprint() <= old(om.Footprint()) && om.Items() <= old(om.Items())
    ensures om.Contents() == old(om.Contents())[..|old(om.Contents())| - 1]
  {
    var last := om.RemoveTail();
  }

  method RemoveMany<K(!new), V>(om: OrderedMap<K, V>, n: nat)
    requires om.Valid() && n <= |om.Contents()|
    modifies om.Footprint()
    ensures om.Valid() && om.Repr() <= old(om.Repr())
    ensures om.Contents() == old(om.Contents())[..|old(om.Contents())| - n]
  {
    ghost var es := om.Contents();
    om.ReprParts();
    RemoveEach(om, n);
    assert om.Contents() == es[..|es| - n];
    om.ReprParts();
  }

  /** Remove this many entries from the tail, one by one. */
  method RemoveEach<K(!new), V>(om: OrderedMap<K, V>, n: nat)
    requires om.Valid() && n <= |om.Contents()|
    modifies om.Footprint()
    ensures om.Valid() && om.Footprint() <= old(om.Footprint()) && om.Items() <= old(om.Items())
    ensures om.Contents() == old(om.Contents())[..|old(om.Contents())| - n]
  {
    ghost var es := om.Contents();
    var i := 0;
    while i < n
      invariant om.Valid() && om.Footprint() <= old(om.Footprint()) && om.Items() <= old(om.Items())
      invariant 0 <= i <= n <= |es| && om.Contents() == es[..|es| - i]
    {
      ShorterPrefix(es, |es| - i);
      RemoveLast(om);
      i := i + 1;
    }
  }

  /** A new entry at the head. The map grows by new objects only. */
  method AddHead<K(!new), V>(om: OrderedMap<K, V>, key: K, value: V) returns (ghost grown: set<object>)
    requires om.Valid() && !HasKey(om.Contents(), key)
    modifies om.Footprint()
    ensures om.Valid() && om.Contents() == [(key, value)] + old(om.Contents())
    ensures fresh(grown) && om.Footprint() + om.Items() <= old(om.Footprint()) + old(om.Items()) + grown
  {
    ghost var f, i := om.Footprint(), om.Items();
    Insert(om, key, value);
    grown := (om.Footprint() - f) + (om.Items() - i);
    Parts(f, i, om.Footprint(), om.Items());
  }

  method Insert<K(!new), V>(om: OrderedMap<K, V>, key: K, value: V)
    requires om.Valid() && !HasKey(om.Contents(), key)
    modifies om.Footprint()
    ensures om.Valid() && om.Contents() == [(key, value)] + old(om.Contents())
    ensures fresh(om.Footprint() - old(om.Footprint())) && fresh(om.Items() - old(om.Items()))
  {
    var err := om.AddItem(key, value, true);
  }

  /** Open something that is not cached yet. */
  method AddNew<K(!new), V>(om: OrderedMap<K, V>, key: K, value: V, capacity: nat) returns (ghost grown: set<object>)
    requires om.Valid() && !HasKey(om.Contents(), key) && capacity >= 1
    modifies om.Footprint()
    ensures om.Valid() && om.Contents() == [(key, value)] + Take(old(om.Contents()), capacity - 1)
    ensures fresh(grown) && om.Repr() <= old(om.Repr()) + grown
  {
    om.ReprParts();
    grown := PushNew(om, key, value, capacity);
    om.ReprParts();
  }

  method PushNew<K(!new), V>(om: OrderedMap<K, V>, key: K, value: V, capacity: nat) returns (ghost grown: set<object>)
    requires om.Valid() && !HasKey(om.Contents(), key) && capacity >= 1
    modifies om.Footprint()
    ensures om.Valid() && om.Contents() == [(key, value)] + Take(old(om.Contents()), capacity - 1)
    ensures fresh(grown) && om.Footprint() + om.Items() <= old(om.Footprint()) + old(om.Items()) + grown
  {
    NoKeyInTake(om.Contents(), capacity - 1, key);
    MakeRoom(om, capacity);
    grown := AddHead(om, key, value);
  }

  lemma Parts(a: set<object>, b: set<object>, a': set<object>, b': set<object>)
    ensures a' + b' <= a + b + ((a' - a) + (b' - b))
  {}

  lemma ShorterPrefix<T>(s: seq<T>, n: nat)
    requires 0 < n <= |s|
    ensures |s[..n]| == n && s[..n][..n - 1] == s[..n - 1]
  {}

  lemma TakePrefix<T>(s: seq<T>, size: nat, n: nat)
    requires size <= n && size <= |s| && (size == n || size == |s|)
    ensures s[..size] == Take(s, n)
  {}

  lemma NoKeyInTake<K, V>(es: seq<(K, V)>, n: nat, key: K)
    requires !HasKey(es, key)
    ensures !HasKey(Take(es, n), key) && |Take(es, n)| <= n
  {
  }
}
