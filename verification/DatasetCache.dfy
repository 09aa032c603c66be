/**
 The dataset cache of one open file (src/hdf5/dataset_cache.c), on top of the ordered map.
 */
module DatasetCache {
  import opened Basics
  import opened AvlShape
  import opened AvlTree
  import opened LinkedList
  import opened OrderedMap
  import CacheOps
  import opened Wrappers
  import opened Lru

  /** strcmp: compare as sequences of characters; a proper prefix comes first. */
  function StrCmp(a: string, b: string): int {
    if a == [] then (if b == [] then 0 else -1)
    else if b == [] then 1
    else if a[0] < b[0] then -1
    else if a[0] > b[0] then 1
    else StrCmp(a[1..], b[1..])
  }

  lemma {:induction false} StrCmpOrdered(a: string, b: string, c: string)
    ensures Ordered(StrCmp, a, b, c)
  {
    if a != [] && b != [] {
      assert a == [a[0]] + a[1..] && b == [b[0]] + b[1..];
      StrCmpOrdered(a[1..], b[1..], if c == [] then [] else c[1..]);
    }
  }

  lemma StrCmpIsTotalOrder()
    ensures TotalOrder(StrCmp)
  {
    forall a, b, c ensures Ordered(StrCmp, a, b, c) {
      StrCmpOrdered(a, b, c);
    }
  }

  function Keys(es: seq<(string, int)>): (names: seq<string>)
    ensures |names| == |es|
    ensures forall i :: 0 <= i < |es| ==> names[i] == es[i].0
  {
    seq(|es|, i requires 0 <= i < |es| => es[i].0)
  }

  ghost predicate DistinctKeys(es: seq<(string, int)>) {
    forall i, j :: 0 <= i < j < |es| ==> es[i].0 != es[j].0
  }

  /** The id under a name. */
  function IdOf(es: seq<(string, int)>, name: string): int
    requires name in Keys(es)
  {
    if es[0].0 == name then es[0].1
    else
      assert forall i :: 0 < i < |es| ==> Keys(es)[i] == Keys(es[1..])[i - 1];
      IdOf(es[1..], name)
  }

  function IdMap(es: seq<(string, int)>): map<string, int> {
    map n | n in Keys(es) :: IdOf(es, n)
  }

  lemma {:induction false} IdAt(es: seq<(string, int)>, i: nat)
    requires DistinctKeys(es) && i < |es|
    ensures es[i].0 in Keys(es) && IdOf(es, es[i].0) == es[i].1
  {
    assert Keys(es)[i] == es[i].0;
    if i > 0 {
      assert es[0].0 != es[i].0;
      IdAt(es[1..], i - 1);
    }
  }

  /** Moving an entry to the front changes no id. */
  lemma IdMapFront(es: seq<(string, int)>, k: nat)
    requires DistinctKeys(es) && k < |es|
    ensures IdMap(ToFront(es, k)) == IdMap(es)
  {
    var fs := ToFront(es, k);
    forall n | n in Keys(fs) || n in Keys(es) ensures n in Keys(fs) && n in Keys(es) && IdOf(fs, n) == IdOf(es, n) {
      var i :| 0 <= i < |es| && es[i].0 == n;
      IdAt(es, i);
      IdAt(fs, if i == k then 0 else if i < k then i + 1 else i);
    }
  }

  /** A new entry at the front, and as many of the others as there is room for. */
  lemma IdMapPush(es: seq<(string, int)>, n: nat, name: string, id: int)
    requires !HasKey(es, name)
    ensures var fs := [(name, id)] + Take(es, n);
            IdMap(fs) == Restrict(IdMap(es)[name := id], Keys(fs))
  {
    var fs := [(name, id)] + Take(es, n);
    forall m | m in Keys(fs) ensures m == name || (m in Keys(es) && IdOf(fs, m) == IdOf(es, m)) {
      if m != name {
        assert fs[1..] == Take(es, n) && forall i :: 0 < i < |fs| ==> Keys(fs)[i] == Keys(fs[1..])[i - 1];
        IdOfTake(es, n, m);
      }
    }
    assert Keys(fs)[0] == name;
  }

  lemma {:induction false} IdOfTake(es: seq<(string, int)>, n: nat, m: string)
    requires m in Keys(Take(es, n))
    ensures m in Keys(es) && IdOf(Take(es, n), m) == IdOf(es, m)
  {
    var ts := Take(es, n);
    assert forall i :: 0 <= i < |ts| ==> Keys(ts)[i] == Keys(es)[i];
    if es[0].0 != m {
      assert ts[1..] == Take(es[1..], n - 1);
      assert forall i :: 0 < i < |ts| ==> Keys(ts)[i] == Keys(ts[1..])[i - 1];
      IdOfTake(es[1..], n - 1, m);
    }
  }

  /** Datasets that could be opened have identifiers that are not negative. */
  ghost predicate IdsOk(es: seq<(string, int)>) {
    forall i :: 0 <= i < |es| ==> es[i].1 >= 0
  }

  lemma {:induction false} IdsAfter(es: seq<(string, int)>, n: nat, k: nat, name: string, id: int)
    requires IdsOk(es)
    ensures IdsOk(Take(es, n))
    ensures id >= 0 ==> IdsOk([(name, id)] + Take(es, n)) && |[(name, id)] + Take(es, n)| <= n + 1
    ensures k < |es| ==> IdsOk(ToFront(es, k))
  {}

  class DatasetCache {
    const om: OrderedMap<string, int>
    const maxOpenDatasets: nat
    ghost var repr: set<object>

    ghost predicate Valid()
      reads this, repr
    {
      && this in repr && {om.tree, om.list} <= repr && om.Repr() <= repr - {this}
      && MapOk()
    }

    ghost predicate MapOk()
      reads om.tree, om.list, om.Repr()
    {
      maxOpenDatasets >= 1 && om.Valid() && |om.Contents()| <= maxOpenDatasets && IdsOk(om.Contents())
    }

    ghost function Names(): seq<string>
      reads om.list
    {
      Keys(om.Contents())
    }

    /** The id under each name. */
    ghost function Ids(): map<string, int>
      reads om.list
    {
      IdMap(om.Contents())
    }

    constructor (maxOpenDatasets: nat)
      requires maxOpenDatasets >= 1
      ensures Valid() && fresh(repr) && Names() == [] && Ids() == map[] && this.maxOpenDatasets == maxOpenDatasets
    {
      StrCmpIsTotalOrder();
      om := new OrderedMap(StrCmp);
      this.maxOpenDatasets := maxOpenDatasets;
      new;
      repr := {this} + om.Repr();
    }

    method Has(name: string) returns (cached: bool)
      requires Valid()
      ensures cached <==> name in Names()
    {
      KeysOf(om.Contents(), name);
      var entry := om.Lookup(name);
      cached := entry.Some?;
    }

    /**
     dataset_cache_open_dataset; `newId` is what H5Dopen returns if it is called, negative on
     failure.
     */
    method OpenDataset(name: string, newId: int) returns (id: int)
      requires Valid()
      modifies repr
      ensures Valid() && old(repr) <= repr && fresh(repr - old(repr))
      ensures id == if name in old(Names()) then old(Ids())[name] else newId
      ensures name in old(Names()) ==> (name, id) in old(om.Contents())
      ensures id >= 0 <==> name in old(Names()) || newId >= 0
      ensures id >= 0 ==> Names() == Touch(old(Names()), name, maxOpenDatasets)
      ensures Ids() == if name in old(Names()) || newId < 0 then old(Ids())
                       else Restrict(old(Ids())[name := newId], Names())
      ensures id < 0 ==> om.Contents() == old(om.Contents())
    {
      ghost var es := om.Contents();
      var entry := om.Lookup(name);
      KeysOf(es, name);
      ghost var grown: set<object> := {};
      if entry.Some? {
        IdFound(name, entry.value);
        MakeHead(name);
        id := entry.value;
      } else {
        if newId < 0 { return newId; }
        grown := AddNew(name, newId);
        id := newId;
      }
      Own(grown);
    }

    /** The objects that the map has come to consist of belong to this cache. */
    ghost method Own(grown: set<object>)
      requires MapOk() && this in repr && this !in grown && om.Repr() <= repr + grown - {this}
      requires {om.tree, om.list} <= repr
      modifies `repr
      ensures Valid() && repr == old(repr) + grown && om.list.items == old(om.list.items)
    {
      repr := repr + grown;
    }

    /** A dataset that is not cached yet: make room, then put it at the head. */
    method AddNew(name: string, newId: int) returns (ghost grown: set<object>)
      requires MapOk() && !HasKey(om.Contents(), name) && newId >= 0
      modifies om.Footprint()
      ensures MapOk() && fresh(grown) && om.Repr() <= old(om.Repr()) + grown
      ensures Names() == Touch(old(Names()), name, maxOpenDatasets)
      ensures Ids() == Restrict(old(Ids())[name := newId], Names())
    {
      ghost var es := om.Contents();
      IdsAfter(es, maxOpenDatasets - 1, 0, name, newId);
      IdMapPush(es, maxOpenDatasets - 1, name, newId);
      grown := CacheOps.AddNew(om, name, newId, maxOpenDatasets);
      MissTouches(es, name, newId, maxOpenDatasets);
    }

    /** A cached dataset becomes the most recently used. */
    method MakeHead(name: string)
      requires MapOk() && HasKey(om.Contents(), name)
      modifies om.Footprint()
      ensures MapOk() && om.Repr() <= old(om.Repr())
      ensures Names() == Touch(old(Names()), name, maxOpenDatasets) && Ids() == old(Ids())
    {
      ghost var es := om.Contents();
      KeysDiffer();
      ghost var k := CacheOps.MakeHead(om, name);
      IdsAfter(es, 0, k, name, 0);
      HitTouches(es, name, k, maxOpenDatasets);
      IdMapFront(es, k);
    }

    lemma KeysDiffer()
      requires MapOk()
      ensures DistinctKeys(om.Contents())
    {
      var es := om.Contents();
      forall i, j | 0 <= i < j < |es| ensures es[i].0 != es[j].0 {
        om.KeysDistinct(i, j);
      }
    }

    lemma IdFound(name: string, id: int)
      requires MapOk() && (name, id) in om.Contents()
      ensures name in Ids() && Ids()[name] == id
    {
      KeysDiffer();
      var es := om.Contents();
      var i :| 0 <= i < |es| && es[i] == (name, id);
      assert Keys(es)[i] == name;
      IdAt(es, i);
    }
  }

  lemma KeysOf(es: seq<(string, int)>, name: string)
    ensures name in Keys(es) <==> HasKey(es, name)
  {
    if name in Keys(es) {
      var i :| 0 <= i < |es| && Keys(es)[i] == name;
      assert es[i].0 == name;
    }
    if HasKey(es, name) {
      var i :| 0 <= i < |es| && es[i].0 == name;
      assert Keys(es)[i] == name;
    }
  }

  lemma MissTouches(es: seq<(string, int)>, name: string, id: int, capacity: nat)
    requires capacity >= 1 && !HasKey(es, name)
    ensures Keys([(name, id)] + Take(es, capacity - 1)) == Touch(Keys(es), name, capacity)
  {
    assert Keys(Take(es, capacity - 1)) == Take(Keys(es), capacity - 1);
  }

  lemma HitTouches(es: seq<(string, int)>, name: string, k: nat, capacity: nat)
    requires capacity >= 1 && k < |es| && es[k].0 == name
    requires DistinctKeys(es)
    ensures Keys(ToFront(es, k)) == Touch(Keys(es), name, capacity)
  {
    var names := Keys(es);
    assert names[k] == name;
    WithoutIndex(names, name, k);
    assert Keys(ToFront(es, k)) == [name] + (names[..k] + names[k + 1..]);
  }
}
