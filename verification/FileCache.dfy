/**
 The file cache (src/hdf5/file_cache.c): an ordered map of open files, each with a dataset cache of
 its own, which is an ordered map in turn.
 */
module FileCache {
  import opened Basics
  import opened AvlTree
  import opened LinkedList
  import opened OrderedMap
  import CacheOps
  import opened Lru
  import opened Wrappers
  import opened CacheModel
  import opened DatasetCache

  class FileCacheEntry {
    const name: string
    const fileId: int
    const dsCache: DatasetCache
    var lastAccessed: int

    constructor (name: string, fileId: int, now: int, maxOpenDatasets: nat)
      requires maxOpenDatasets >= 1
      ensures this.name == name && FileOf(this) == FileEntry(name, fileId, now, [], map[])
      ensures dsCache.Valid() && dsCache.maxOpenDatasets == maxOpenDatasets
      ensures fresh(dsCache.repr) && this !in dsCache.repr
    {
      this.name, this.fileId := name, fileId;
      dsCache := new DatasetCache(maxOpenDatasets);
      lastAccessed := now;
    }
  }

  ghost function FileOf(e: FileCacheEntry): FileEntry
    reads e, e.dsCache.om.list
  {
    FileEntry(e.name, e.fileId, e.lastAccessed, e.dsCache.Names(), e.dsCache.Ids())
  }

  // ---------- the entries ----------

  ghost predicate EntryIn(e: FileCacheEntry, owned: set<object>, maxOpenDatasets: nat)
    reads owned
  {
    && e !in owned && e.dsCache in owned && e.dsCache.repr <= owned
    && e.dsCache.Valid() && e.dsCache.maxOpenDatasets == maxOpenDatasets
  }

  /** The entries' dataset caches are made of the objects in `owned`, and no two share an object. */
  ghost predicate Group(es: seq<FileCacheEntry>, owned: set<object>, maxOpenDatasets: nat)
    reads owned
  {
    && (forall e :: e in es ==> EntryIn(e, owned, maxOpenDatasets))
    && (forall a, b :: a in es && b in es && a != b ==> a.dsCache.repr !! b.dsCache.repr)
  }

  ghost function Files(es: seq<FileCacheEntry>, owned: set<object>, maxOpenDatasets: nat): (files: seq<FileEntry>)
    reads es, owned
    requires Group(es, owned, maxOpenDatasets)
    ensures |files| == |es| && forall i :: 0 <= i < |es| ==> files[i] == FileOf(es[i])
  {
    seq(|es|, i requires 0 <= i < |es| && EntryIn(es[i], owned, maxOpenDatasets) reads es, owned => FileOf(es[i]))
  }

  lemma Fewer(es: seq<FileCacheEntry>, fs: seq<FileCacheEntry>, owned: set<object>, maxOpenDatasets: nat)
    requires Group(es, owned, maxOpenDatasets) && forall e :: e in fs ==> e in es
    ensures Group(fs, owned, maxOpenDatasets)
  {}

  lemma GroupToFront(es: seq<FileCacheEntry>, k: nat, owned: set<object>, maxOpenDatasets: nat)
    requires Group(es, owned, maxOpenDatasets) && k < |es|
    ensures Group(ToFront(es, k), owned, maxOpenDatasets) && forall e :: e in ToFront(es, k) ==> e in es
    ensures Files(ToFront(es, k), owned, maxOpenDatasets) == ToFront(Files(es, owned, maxOpenDatasets), k)
  {
    Fewer(es, ToFront(es, k), owned, maxOpenDatasets);
  }

  lemma GroupPrefix(es: seq<FileCacheEntry>, n: nat, owned: set<object>, maxOpenDatasets: nat)
    requires Group(es, owned, maxOpenDatasets) && n <= |es|
    ensures Group(es[..n], owned, maxOpenDatasets) && forall e :: e in es[..n] ==> e in es
    ensures Files(es[..n], owned, maxOpenDatasets) == Files(es, owned, maxOpenDatasets)[..n]
  {
    Fewer(es, es[..n], owned, maxOpenDatasets);
  }

  /** Set the first entry's objects aside. */
  lemma Apart(es: seq<FileCacheEntry>, owned: set<object>, maxOpenDatasets: nat)
    requires Group(es, owned, maxOpenDatasets) && es != [] && es[0] !in es[1..]
    ensures Group(es[1..], owned - es[0].dsCache.repr, maxOpenDatasets)
  {
    var e, rest := es[0], owned - es[0].dsCache.repr;
    forall a | a in es[1..] ensures EntryIn(a, rest, maxOpenDatasets) {
      assert a in es && EntryIn(a, owned, maxOpenDatasets) && a.dsCache in a.dsCache.repr;
    }
  }

  lemma RestAside(es: seq<FileCacheEntry>, owned: set<object>, maxOpenDatasets: nat)
    requires Group(es, owned, maxOpenDatasets) && es != [] && forall i :: 0 < i < |es| ==> es[i] != es[0]
    ensures Group(es[1..], owned - es[0].dsCache.repr, maxOpenDatasets)
    ensures forall a :: a in es[1..] ==> a !in es[0].dsCache.repr
    ensures Files(es, owned, maxOpenDatasets)
         == [FileOf(es[0])] + Files(es[1..], owned - es[0].dsCache.repr, maxOpenDatasets)
  {
    Apart(es, owned, maxOpenDatasets);
    assert EntryIn(es[0], owned, maxOpenDatasets);
    forall a | a in es[1..] ensures a !in es[0].dsCache.repr {
      assert EntryIn(a, owned, maxOpenDatasets);
    }
  }

  /** An entry with objects of its own joins the others. */
  lemma Together(e: FileCacheEntry, es: seq<FileCacheEntry>, owned: set<object>, maxOpenDatasets: nat)
    requires Group(es, owned, maxOpenDatasets) && EntryIn(e, e.dsCache.repr, maxOpenDatasets)
    requires e !in owned && e.dsCache.repr !! owned && forall a :: a in es ==> a !in e.dsCache.repr
    ensures Group([e] + es, owned + e.dsCache.repr, maxOpenDatasets)
  {
    var more := owned + e.dsCache.repr;
    forall a | a in es ensures EntryIn(a, more, maxOpenDatasets) && a.dsCache.repr !! e.dsCache.repr {
      assert EntryIn(a, owned, maxOpenDatasets);
    }
    assert EntryIn(e, more, maxOpenDatasets);
    assert forall a :: a in [e] + es ==> a == e || a in es;
  }

  lemma Join(e: FileCacheEntry, es: seq<FileCacheEntry>, owned: set<object>, maxOpenDatasets: nat)
    requires Group(es, owned, maxOpenDatasets) && EntryIn(e, e.dsCache.repr, maxOpenDatasets)
    requires e !in owned && e.dsCache.repr !! owned && forall a :: a in es ==> a !in e.dsCache.repr
    ensures Group([e] + es, owned + e.dsCache.repr, maxOpenDatasets)
    ensures Files([e] + es, owned + e.dsCache.repr, maxOpenDatasets) == [FileOf(e)] + Files(es, owned, maxOpenDatasets)
  {
    Together(e, es, owned, maxOpenDatasets);
    FilesTogether(e, es, owned, owned + e.dsCache.repr, maxOpenDatasets);
  }

  lemma FilesTogether(e: FileCacheEntry, es: seq<FileCacheEntry>, owned: set<object>, more: set<object>,
                      maxOpenDatasets: nat)
    requires Group(es, owned, maxOpenDatasets) && Group([e] + es, more, maxOpenDatasets)
    ensures Files([e] + es, more, maxOpenDatasets) == [FileOf(e)] + Files(es, owned, maxOpenDatasets)
  {
    var all, rest := Files([e] + es, more, maxOpenDatasets), Files(es, owned, maxOpenDatasets);
    assert forall i :: 0 <= i < |es| ==> ([e] + es)[i + 1] == es[i];
    FirstThenOthers(all, rest, FileOf(e));
  }

  lemma FirstThenOthers(all: seq<FileEntry>, rest: seq<FileEntry>, f: FileEntry)
    requires |all| == |rest| + 1 && all[0] == f && forall i :: 0 <= i < |rest| ==> all[i + 1] == rest[i]
    ensures all == [f] + rest
  {}

  // ---------- the map's contents ----------

  ghost function Values(es: seq<(string, FileCacheEntry)>): (vs: seq<FileCacheEntry>)
    ensures |vs| == |es| && forall i :: 0 <= i < |es| ==> vs[i] == es[i].1
  {
    seq(|es|, i requires 0 <= i < |es| => es[i].1)
  }

  ghost predicate Named(es: seq<(string, FileCacheEntry)>) {
    forall i :: 0 <= i < |es| ==> es[i].1.name == es[i].0
  }

  lemma ValuesFront(es: seq<(string, FileCacheEntry)>, k: nat)
    requires k < |es|
    ensures Values(ToFront(es, k)) == ToFront(Values(es), k)
    ensures Named(es) ==> Named(ToFront(es, k))
  {}

  lemma ValuesPush(name: string, e: FileCacheEntry, es: seq<(string, FileCacheEntry)>, n: nat)
    ensures Values([(name, e)] + Take(es, n)) == [e] + Take(Values(es), n)
    ensures Named(es) && e.name == name ==> Named([(name, e)] + Take(es, n))
    ensures |[(name, e)] + Take(es, n)| <= n + 1
  {}

  lemma ValuesPrefix(es: seq<(string, FileCacheEntry)>, n: nat)
    requires n <= |es|
    ensures Values(es[..n]) == Values(es)[..n]
    ensures Named(es) ==> Named(es[..n])
  {}

  ghost function Parts(omRepr: set<object>, owned: set<object>, es: seq<FileCacheEntry>): set<object> {
    omRepr + owned + set e | e in es
  }

  lemma PartsOfNone(omRepr: set<object>)
    ensures Parts(omRepr, {}, []) == omRepr
  {}

  lemma FirstThenRest(e: FileCacheEntry, es: seq<FileCacheEntry>)
    requires es != [] && es[0] == e
    ensures [e] + es[1..] == es
  {}

  lemma FirstAndRest(e: FileCacheEntry, es: seq<FileCacheEntry>, n: nat)
    ensures var fs := [e] + Take(es, n);
            fs != [] && fs[0] == e && forall a :: a in fs ==> a == e || a in es
  {}

  lemma PartsGrow(r: set<object>, o: set<object>, es: seq<FileCacheEntry>,
                  r': set<object>, o': set<object>, es': seq<FileCacheEntry>, grown: set<object>)
    requires r' <= r + grown && o' <= o + grown && forall e :: e in es' ==> e in es || e in grown
    ensures Parts(r', o', es') <= Parts(r, o, es) + grown
  {}

  class FileCache {
    const om: OrderedMap<string, FileCacheEntry>
    const maxOpenFiles: nat
    const maxOpenDatasets: nat
    const shadow: bool  // compiled with SHADOW_CACHE: nothing is opened for real
    var nrCacheHits: nat
    var nrCacheMisses: nat
    ghost var entries: seq<FileCacheEntry>  // most recently used first
    ghost var omRepr: set<object>
    ghost var owned: set<object>  // by the entries

    /** All objects it consists of. */
    ghost function Repr(): set<object>
      reads `omRepr, `owned, `entries
    {
      {this} + Parts(omRepr, owned, entries)
    }

    ghost predicate Valid()
      reads this, omRepr, owned
    {
      Fits(entries, omRepr, owned)
    }

    /** The map holds these entries, and shares nothing with them. */
    ghost predicate Fits(entries: seq<FileCacheEntry>, omRepr: set<object>, owned: set<object>)
      reads omRepr, owned
    {
      && this !in omRepr && this !in owned && omRepr !! owned
      && (forall e :: e in entries ==> e !in omRepr)
      && MapOk(omRepr) && entries == Values(om.Contents())
      && Group(entries, owned, maxOpenDatasets)
    }

    /** The map's part of it. */
    ghost predicate MapOk(omRepr: set<object>)
      reads omRepr
    {
      && {om.tree, om.list} <= omRepr && om.Repr() <= omRepr
      && om.Valid() && Named(om.Contents()) && |om.Contents()| <= maxOpenFiles
      && maxOpenFiles >= 1 && maxOpenDatasets >= 1
    }

    ghost function View(): Cache
      reads this, entries, omRepr, owned
      requires Valid()
    {
      Cache(maxOpenFiles, maxOpenDatasets, Files(entries, owned, maxOpenDatasets), nrCacheHits, nrCacheMisses)
    }

    /** Made of the objects in `repr`, it is in this state. */
    ghost predicate Holds(c: Cache, repr: set<object>)
      reads repr
    {
      this in repr && Repr() <= repr && Valid() && View() == c
    }

    constructor (maxOpenFiles: nat, maxOpenDatasets: nat, shadow: bool)
      requires maxOpenFiles >= 1 && maxOpenDatasets >= 1
      ensures Valid() && fresh(Repr()) && this.shadow == shadow
      ensures View() == Cache(maxOpenFiles, maxOpenDatasets, [], 0, 0)
    {
      StrCmpIsTotalOrder();
      this.maxOpenFiles, this.maxOpenDatasets, this.shadow := maxOpenFiles, maxOpenDatasets, shadow;
      om := new OrderedMap(StrCmp);
      nrCacheHits, nrCacheMisses := 0, 0;
      new;
      entries := [];
      omRepr, owned := om.Repr(), {};
      PartsOfNone(omRepr);
    }

    /** A cached file becomes the most recently used; no entry changes. */
    method ToHead(name: string) returns (ghost k: nat)
      requires Valid() && HasKey(om.Contents(), name)
      modifies `entries, omRepr
      ensures Valid()
      ensures k < |old(entries)| && old(entries)[k].name == name && entries == ToFront(old(entries), k)
      ensures forall a :: a in entries ==> a in old(entries)
      ensures View().files == ToFront(old(View().files), k)
    {
      k := MoveEntry(name);
      SetEntries(ToFront(entries, k));
    }

    method MoveEntry(name: string) returns (ghost k: nat)
      requires Valid() && HasKey(om.Contents(), name)
      modifies omRepr
      ensures k < |entries| && entries[k].name == name && Fits(ToFront(entries, k), omRepr, owned)
      ensures forall a :: a in ToFront(entries, k) ==> a in entries
      ensures Files(ToFront(entries, k), owned, maxOpenDatasets) == ToFront(old(View().files), k)
    {
      k := MoveApart(name, entries, owned);
      GroupToFront(entries, k, owned, maxOpenDatasets);
    }

    ghost method SetEntries(es: seq<FileCacheEntry>)
      requires Fits(es, omRepr, owned)
      modifies `entries
      ensures Valid() && entries == es
      ensures View().files == old(Files(es, owned, maxOpenDatasets))
    {
      entries := es;
    }

    ghost method SetAll(es: seq<FileCacheEntry>, omRepr': set<object>, owned': set<object>)
      requires Fits(es, omRepr', owned')
      modifies `entries, `omRepr, `owned
      ensures Valid() && entries == es && omRepr == omRepr' && owned == owned'
      ensures View().files == old(Files(es, owned', maxOpenDatasets))
    {
      this.omRepr := omRepr';
      this.owned := owned';
      SetEntries(es);
    }

    /** The entries are none of the map's business. */
    method MoveApart(name: string, ghost es: seq<FileCacheEntry>, ghost owned: set<object>) returns (ghost k: nat)
      requires MapOk(omRepr) && HasKey(om.Contents(), name) && this !in omRepr
      requires Group(es, owned, maxOpenDatasets) && omRepr !! owned && forall e :: e in es ==> e !in omRepr
      modifies omRepr
      ensures MapOk(omRepr)
      ensures k < |old(om.Contents())| && old(om.Contents())[k].1.name == name
      ensures Values(om.Contents()) == ToFront(old(Values(om.Contents())), k)
      ensures Group(es, owned, maxOpenDatasets)
      ensures Files(es, owned, maxOpenDatasets) == old(Files(es, owned, maxOpenDatasets))
    {
      k := MoveItem(name);
    }

    method MoveItem(name: string) returns (ghost k: nat)
      requires MapOk(omRepr) && HasKey(om.Contents(), name) && this !in omRepr
      modifies omRepr
      ensures MapOk(omRepr)
      ensures k < |old(om.Contents())| && old(om.Contents())[k].1.name == name
      ensures Values(om.Contents()) == ToFront(old(Values(om.Contents())), k)
    {
      ghost var cs := om.Contents();
      k := CacheOps.MakeHead(om, name);
      ValuesFront(cs, k);
    }

    // ---------- removing the last entries ----------

    method RemoveLast(n: nat)
      requires Valid() && n <= |entries|
      modifies `entries, omRepr
      ensures Valid() && entries == old(entries)[..|old(entries)| - n]
      ensures View().files == old(View().files)[..|old(entries)| - n]
    {
      RemoveEntries(n);
      SetEntries(entries[..|entries| - n]);
    }

    method RemoveEntries(n: nat)
      requires Valid() && n <= |entries|
      modifies omRepr
      ensures Fits(entries[..|entries| - n], omRepr, owned)
      ensures Files(entries[..|entries| - n], owned, maxOpenDatasets) == old(View().files)[..|entries| - n]
    {
      RemoveApart(n, Values(om.Contents()), entries, owned);
      GroupPrefix(entries, |entries| - n, owned, maxOpenDatasets);
    }

    method RemoveApart(n: nat, ghost values: seq<FileCacheEntry>, ghost es: seq<FileCacheEntry>,
                       ghost owned: set<object>)
      requires MapOk(omRepr) && this !in omRepr && Values(om.Contents()) == values && n <= |values|
      requires Group(es, owned, maxOpenDatasets) && omRepr !! owned && forall e :: e in es ==> e !in omRepr
      modifies omRepr
      ensures MapOk(omRepr) && Values(om.Contents()) == values[..|values| - n]
      ensures Group(es, owned, maxOpenDatasets)
      ensures Files(es, owned, maxOpenDatasets) == old(Files(es, owned, maxOpenDatasets))
    {
      RemoveItems(n, values);
    }

    method RemoveItems(n: nat, ghost values: seq<FileCacheEntry>)
      requires MapOk(omRepr) && this !in omRepr && Values(om.Contents()) == values && n <= |values|
      modifies omRepr
      ensures MapOk(omRepr) && Values(om.Contents()) == values[..|values| - n]
    {
      ValuesPrefix(om.Contents(), |values| - n);
      CacheOps.RemoveMany(om, n);
    }

    // ---------- a new entry ----------

    /** Put a new entry at the head, after removing from the tail until there is room. */
    method Push(e: FileCacheEntry) returns (ghost grown: set<object>)
      requires Valid() && !HasKey(om.Contents(), e.name)
      requires EntryIn(e, e.dsCache.repr, maxOpenDatasets) && Foreign(e)
      modifies `entries, `omRepr, `owned, omRepr
      ensures Valid() && entries == [e] + Take(old(entries), maxOpenFiles - 1)
      ensures View().files == [old(FileOf(e))] + Take(old(View().files), maxOpenFiles - 1)
      ensures owned == old(owned) + old(e.dsCache.repr) && omRepr == old(omRepr) + grown && fresh(grown)
    {
      ghost var es, own := [e] + Take(entries, maxOpenFiles - 1), owned + e.dsCache.repr;
      ForeignJoins(e);
      grown := AddApart(e, es, own);
      SetAll(es, omRepr + grown, own);
    }

    /** The entry and its dataset cache have nothing to do with this file cache. */
    ghost predicate Foreign(e: FileCacheEntry)
      reads this, e.dsCache
    {
      && e !in owned && e !in omRepr && e.dsCache.repr !! owned && e.dsCache.repr !! omRepr
      && this !in e.dsCache.repr && forall a :: a in entries ==> a !in e.dsCache.repr
    }

    lemma ForeignJoins(e: FileCacheEntry)
      requires Valid() && EntryIn(e, e.dsCache.repr, maxOpenDatasets) && Foreign(e)
      ensures var rest := Take(entries, maxOpenFiles - 1);
              && Group([e] + rest, owned + e.dsCache.repr, maxOpenDatasets)
              && Files([e] + rest, owned + e.dsCache.repr, maxOpenDatasets)
                 == [FileOf(e)] + Take(View().files, maxOpenFiles - 1)
              && forall a :: a in [e] + rest ==> a !in omRepr
    {
      var n := if |entries| <= maxOpenFiles - 1 then |entries| else maxOpenFiles - 1;
      assert Take(entries, maxOpenFiles - 1) == entries[..n];
      GroupPrefix(entries, n, owned, maxOpenDatasets);
      Join(e, entries[..n], owned, maxOpenDatasets);
    }

    method AddApart(e: FileCacheEntry, ghost es: seq<FileCacheEntry>, ghost owned: set<object>)
      returns (ghost grown: set<object>)
      requires MapOk(omRepr) && !HasKey(om.Contents(), e.name) && this !in omRepr
      requires Group(es, owned, maxOpenDatasets) && omRepr !! owned && forall a :: a in es ==> a !in omRepr
      modifies omRepr
      ensures fresh(grown) && MapOk(omRepr + grown)
      ensures grown !! owned && this !in grown && forall a :: a in es ==> a !in grown
      ensures Values(om.Contents()) == [e] + Take(old(Values(om.Contents())), maxOpenFiles - 1)
      ensures Group(es, owned, maxOpenDatasets)
      ensures Files(es, owned, maxOpenDatasets) == old(Files(es, owned, maxOpenDatasets))
    {
      grown := AddItem(e);
    }

    method AddItem(e: FileCacheEntry) returns (ghost grown: set<object>)
      requires MapOk(omRepr) && !HasKey(om.Contents(), e.name) && this !in omRepr
      modifies omRepr
      ensures fresh(grown) && MapOk(omRepr + grown)
      ensures Values(om.Contents()) == [e] + Take(old(Values(om.Contents())), maxOpenFiles - 1)
    {
      ghost var es := om.Contents();
      ValuesPush(e.name, e, es, maxOpenFiles - 1);
      grown := CacheOps.AddNew(om, e.name, e, maxOpenFiles);
      assert om.Contents() == [(e.name, e)] + Take(es, maxOpenFiles - 1);
    }

    // ---------- opening a file ----------

    /** No two open files have the same name. */
    lemma NamesDistinct()
      requires Valid()
      ensures Distinct(Names(View().files))
    {
      var names := Names(View().files);
      forall i, j | 0 <= i < j < |names| ensures names[i] != names[j] {
        om.KeysDistinct(i, j);
      }
    }

    /** The entry under a name, and where it is. */
    lemma WhereIs(name: string, e: FileCacheEntry) returns (i: nat)
      requires Valid() && (name, e) in om.Contents()
      ensures i < |entries| && entries[i] == e && i == IndexOf(View().files, name)
      ensures forall k :: 0 <= k < |entries| && entries[k].name == name ==> k == i
    {
      NamesDistinct();
      var names := Names(View().files);
      i :| 0 <= i < |entries| && om.Contents()[i] == (name, e);
      assert entries[i] == e && names[i] == name;
      var at := IndexOf(View().files, name);
      assert names[at] == name;
      forall k | 0 <= k < |entries| && entries[k].name == name ensures k == i {
        assert names[k] == name;
      }
    }

    lemma NotThere(name: string)
      requires Valid() && !HasKey(om.Contents(), name)
      ensures !Has(View(), name)
    {
      forall i | 0 <= i < |View().files| ensures View().files[i].name != name {
        assert om.Contents()[i].0 != name;
      }
    }

    /** What the map's answer says about the cache. */
    lemma FoundMeans(name: string, found: Option<FileCacheEntry>) returns (i: nat)
      requires Valid() && WasFound(name, found)
      ensures i == IndexOf(View().files, name) && (found.Some? <==> i < |entries|)
      ensures found.Some? ==> entries[i] == found.value
      ensures found.Some? ==> forall k :: 0 <= k < |entries| && entries[k].name == name ==> k == i
    {
      i := IndexOf(View().files, name);
      if found.Some? {
        i := WhereIs(name, found.value);
      } else {
        NotThere(name);
      }
    }

    ghost predicate WasFound(name: string, found: Option<FileCacheEntry>)
      reads om.list
    {
      if found.Some? then (name, found.value) in om.Contents() else !HasKey(om.Contents(), name)
    }

    /** A shadow cache does not ask HDF5; its ids are all zero. */
    function Asked(newId: int): int {
      if shadow then 0 else newId
    }

    /** file_cache_open_file; `newId` is what H5Fopen returns if it is called. */
    method OpenFile(name: string, now: int, newId: int) returns (entry: FileCacheEntry?, ghost grown: set<object>)
      requires Valid()
      modifies Repr()
      ensures Valid() && fresh(grown) && Repr() <= old(Repr()) + grown
      ensures entry != null <==> FileOpens(old(View()), name, Asked(newId) >= 0)
      ensures entry != null ==> entries != [] && entries[0] == entry && FileOf(entry) == View().files[0]
      ensures View() == CacheModel.OpenFile(old(View()), name, now, Asked(newId))
    {
      var found := om.Lookup(name);
      ghost var c := View();
      ghost var i := FoundMeans(name, found);
      Opening(c, name, now, Asked(newId), i);
      if found.None? && !shadow && newId < 0 { return null, {}; }
      entry, grown := Open(name, found, now, Asked(newId));
    }

    /** The file is cached, or can be opened. */
    method Open(name: string, found: Option<FileCacheEntry>, now: int, newId: int)
      returns (entry: FileCacheEntry, ghost grown: set<object>)
      requires Valid() && WasFound(name, found) && (found.Some? || newId >= 0)
      modifies Repr()
      ensures Valid() && fresh(grown) && Repr() <= old(Repr()) + grown
      ensures entries != [] && entries[0] == entry
      ensures View() == CacheModel.OpenFile(old(View()), name, now, newId)
    {
      ghost var i := FoundMeans(name, found);
      HitOrMiss(View(), name, now, newId, i);
      if found.Some? {
        Hit(found.value, name, now, i);
        entry, grown := found.value, {};
      } else {
        entry, grown := Miss(name, newId, now);
      }
    }

    method Hit(e: FileCacheEntry, name: string, now: int, ghost i: nat)
      requires Valid() && HasKey(om.Contents(), name) && i < |entries| && entries[i] == e
      requires forall k :: 0 <= k < |entries| && entries[k].name == name ==> k == i
      modifies `entries, `nrCacheHits, omRepr, e`lastAccessed
      ensures Valid() && Repr() <= old(Repr())
      ensures entries != [] && entries[0] == e
      ensures View() == AfterHit(old(View()), i, now)
    {
      HitFiles(e, name, now, i);
      CountHit();
    }

    method Miss(name: string, newId: int, now: int) returns (entry: FileCacheEntry, ghost grown: set<object>)
      requires Valid() && !HasKey(om.Contents(), name)
      modifies `entries, `omRepr, `owned, `nrCacheMisses, omRepr
      ensures Valid() && fresh(grown) && Repr() <= old(Repr()) + grown
      ensures entries != [] && entries[0] == entry
      ensures View() == AfterMiss(old(View()), name, newId, now)
    {
      ghost var c := View();
      entry, grown := MissFiles(name, newId, now);
      assert View() == c.(files := PushNew(c.files, name, newId, now, c.maxFiles));
      CountMiss();
    }

    method CountHit()
      requires Valid()
      modifies `nrCacheHits
      ensures Valid() && Repr() == old(Repr()) && View() == old(View()).(hits := old(View()).hits + 1)
    {
      nrCacheHits := nrCacheHits + 1;
    }

    method CountMiss()
      requires Valid()
      modifies `nrCacheMisses
      ensures Valid() && Repr() == old(Repr()) && View() == old(View()).(misses := old(View()).misses + 1)
    {
      nrCacheMisses := nrCacheMisses + 1;
    }

    method HitFiles(e: FileCacheEntry, name: string, now: int, ghost i: nat)
      requires Valid() && HasKey(om.Contents(), name) && i < |entries| && entries[i] == e
      requires forall k :: 0 <= k < |entries| && entries[k].name == name ==> k == i
      modifies `entries, omRepr, e`lastAccessed
      ensures Valid() && Repr() <= old(Repr())
      ensures entries != [] && entries[0] == e
      ensures View() == old(View()).(files := MoveUp(old(View()).files, i, now))
    {
      ghost var es, files := entries, View().files;
      ghost var k := ToHead(name);
      PartsGrow(omRepr, owned, es, omRepr, owned, entries, {});
      Stamp(e, now);
      StampedFront(files, k, now);
    }

    /** entry->last_accessed = time(NULL) */
    method Stamp(e: FileCacheEntry, now: int)
      requires Valid() && entries != [] && entries[0] == e
      modifies e`lastAccessed
      ensures Valid()
      ensures View().files == old(View().files)[0 := old(View().files)[0].(lastAccessed := now)]
    {
      FirstIsUnique();
      assert EntryIn(e, owned, maxOpenDatasets) && e !in omRepr;
      StampApart(e, entries, owned, now);
    }

    method StampApart(e: FileCacheEntry, ghost es: seq<FileCacheEntry>, ghost owned: set<object>, now: int)
      requires Group(es, owned, maxOpenDatasets) && es != [] && es[0] == e && e !in owned
      requires forall i :: 0 < i < |es| ==> es[i] != e
      modifies e`lastAccessed
      ensures Group(es, owned, maxOpenDatasets)
      ensures Files(es, owned, maxOpenDatasets)
           == old(Files(es, owned, maxOpenDatasets))[0 := old(FileOf(e)).(lastAccessed := now)]
    {
      e.lastAccessed := now;
    }

    lemma FirstIsUnique()
      requires Valid() && entries != []
      ensures forall i :: 0 < i < |entries| ==> entries[i] != entries[0]
    {
      NamesDistinct();
      var names := Names(View().files);
      assert forall i :: 0 < i < |entries| ==> names[i] != names[0];
    }

    method MissFiles(name: string, newId: int, now: int) returns (entry: FileCacheEntry, ghost grown: set<object>)
      requires Valid() && !HasKey(om.Contents(), name)
      modifies `entries, `omRepr, `owned, omRepr
      ensures Valid() && fresh(grown) && Repr() <= old(Repr()) + grown
      ensures entries != [] && entries[0] == entry
      ensures View().files == PushNew(old(View()).files, name, newId, now, maxOpenFiles)
    {
      ghost var own, more;
      entry, own, more := AddOwned(name, newId, now);
      grown := more + own;
    }

    method AddOwned(name: string, newId: int, now: int)
      returns (entry: FileCacheEntry, ghost own: set<object>, ghost more: set<object>)
      requires Valid() && !HasKey(om.Contents(), name)
      modifies `entries, `omRepr, `owned, omRepr
      ensures Valid() && fresh(own) && fresh(more) && Repr() <= old(Repr()) + (more + own)
      ensures entries != [] && entries[0] == entry
      ensures View().files == PushNew(old(View()).files, name, newId, now, maxOpenFiles)
    {
      ghost var r, o, es := omRepr, owned, entries;
      entry, own, more := AddEntry(name, newId, now);
      FirstAndRest(entry, es, maxOpenFiles - 1);
      PartsGrow(r, o, es, omRepr, owned, entries, more + own);
    }

    method AddEntry(name: string, newId: int, now: int)
      returns (entry: FileCacheEntry, ghost own: set<object>, ghost more: set<object>)
      requires Valid() && !HasKey(om.Contents(), name)
      modifies `entries, `omRepr, `owned, omRepr
      ensures Valid() && fresh(own) && fresh(more)
      ensures omRepr == old(omRepr) + more && owned <= old(owned) + own
      ensures entry in own && entries == [entry] + Take(old(entries), maxOpenFiles - 1)
      ensures View().files == PushNew(old(View()).files, name, newId, now, maxOpenFiles)
    {
      entry, own := NewEntry(name, newId, now);
      more := Push(entry);
    }

    method NewEntry(name: string, newId: int, now: int) returns (e: FileCacheEntry, ghost own: set<object>)
      requires Valid()
      ensures fresh(own) && own == {e} + e.dsCache.repr
      ensures e.name == name && FileOf(e) == FileEntry(name, newId, now, [], map[])
      ensures EntryIn(e, e.dsCache.repr, maxOpenDatasets) && Foreign(e)
    {
      e := new FileCacheEntry(name, newId, now, maxOpenDatasets);
      own := {e} + e.dsCache.repr;
    }

    // ---------- opening a dataset ----------

    /**
     file_cache_open_dataset on the file that has just been opened; `newId` is what H5Dopen returns if
     it is called.
     */
    method OpenDataset(e: FileCacheEntry, name: string, newId: int) returns (id: int, ghost grown: set<object>)
      requires Valid() && entries != [] && entries[0] == e
      modifies Repr()
      ensures Valid() && fresh(grown) && Repr() <= old(Repr()) + grown && entries == old(entries)
      ensures id == DatasetId(old(View()).files[0], name, Asked(newId))
      ensures id >= 0 <==> DatasetOpens(old(View()).files[0], name, Asked(newId) >= 0)
      ensures View() == CacheModel.OpenDataset(old(View()), name, Asked(newId))
    {
      ghost var r, o, es := omRepr, owned, entries;
      ghost var c, rest := View(), owned - e.dsCache.repr;
      SetAside(e, rest);
      ghost var tail;
      id, grown, tail := OpenFirst(e, name, Asked(newId));
      PartsGrow(r, o, es, omRepr, owned, entries, grown);
      assert View() == c.(files := View().files);
      FirstTouched(c, View(), tail, name, Asked(newId));
    }

    method OpenFirst(e: FileCacheEntry, name: string, newId: int)
      returns (id: int, ghost grown: set<object>, ghost tail: seq<FileEntry>)
      requires Valid() && entries != [] && entries[0] == e
      modifies `entries, `omRepr, `owned, e.dsCache.repr
      ensures Valid() && entries == old(entries)
      ensures fresh(grown) && omRepr == old(omRepr) && owned <= old(owned) + grown
      ensures id == DatasetId(old(FileOf(e)), name, newId)
      ensures id >= 0 <==> DatasetOpens(old(FileOf(e)), name, newId >= 0)
      ensures old(View()).files == [old(FileOf(e))] + tail
      ensures View().files == [AfterOpening(old(FileOf(e)), name, newId)] + tail
    {
      ghost var es, rest := entries, owned - e.dsCache.repr;
      SetAside(e, rest);
      FirstThenRest(e, es);
      tail := Files(es[1..], rest, maxOpenDatasets);
      id, grown := OpenApart(e, es[1..], rest, name, newId);
      Join(e, es[1..], rest, maxOpenDatasets);
      SetAll(es, omRepr, rest + e.dsCache.repr);
    }

    ghost function AfterOpening(f: FileEntry, name: string, newId: int): FileEntry {
      if DatasetOpens(f, name, newId >= 0) && maxOpenDatasets >= 1 then WithDataset(f, name, newId, maxOpenDatasets)
      else f
    }

    lemma FirstTouched(c: Cache, c': Cache, tail: seq<FileEntry>, name: string, newId: int)
      requires c.maxDatasets == maxOpenDatasets >= 1 && |c.files| > 0 && c.files == [c.files[0]] + tail
      requires c' == c.(files := [AfterOpening(c.files[0], name, newId)] + tail)
      ensures c' == CacheModel.OpenDataset(c, name, newId)
    {
      assert c.files[1..] == tail;
    }

    /** The first entry's dataset cache, and what the rest of the entries is made of. */
    lemma SetAside(e: FileCacheEntry, rest: set<object>)
      requires Valid() && entries != [] && entries[0] == e && rest == owned - e.dsCache.repr
      ensures EntryIn(e, e.dsCache.repr, maxOpenDatasets) && e.dsCache.repr <= owned
      ensures this !in e.dsCache.repr && this !in rest && e !in rest && omRepr !! e.dsCache.repr && omRepr !! rest
      ensures Group(entries[1..], rest, maxOpenDatasets) && forall a :: a in entries[1..] ==> a !in e.dsCache.repr
      ensures View().files == [FileOf(e)] + Files(entries[1..], rest, maxOpenDatasets)
    {
      FirstIsUnique();
      assert EntryIn(e, owned, maxOpenDatasets);
      RestAside(entries, owned, maxOpenDatasets);
    }

    method OpenApart(e: FileCacheEntry, ghost es: seq<FileCacheEntry>, ghost rest: set<object>, name: string,
                     newId: int)
      returns (id: int, ghost grown: set<object>)
      requires EntryIn(e, e.dsCache.repr, maxOpenDatasets) && this !in e.dsCache.repr
      requires Group(es, rest, maxOpenDatasets) && e.dsCache.repr !! rest
      requires forall a :: a in es ==> a !in e.dsCache.repr
      requires MapOk(omRepr) && omRepr !! e.dsCache.repr
      modifies e.dsCache.repr
      ensures MapOk(omRepr) && om.list.items == old(om.list.items) && grown !! omRepr && this !in grown
      ensures Group(es, rest, maxOpenDatasets)
      ensures Files(es, rest, maxOpenDatasets) == old(Files(es, rest, maxOpenDatasets))
      ensures EntryIn(e, e.dsCache.repr, maxOpenDatasets)
      ensures fresh(grown) && e.dsCache.repr == old(e.dsCache.repr) + grown
      ensures grown !! rest && forall a :: a in es ==> a !in grown
      ensures id == DatasetId(old(FileOf(e)), name, newId)
      ensures id >= 0 <==> DatasetOpens(old(FileOf(e)), name, newId >= 0)
      ensures FileOf(e) == AfterOpening(old(FileOf(e)), name, newId)
    {
      id, grown := OpenBeside(e, es, rest, name, newId);
    }

    method OpenBeside(e: FileCacheEntry, ghost es: seq<FileCacheEntry>, ghost rest: set<object>, name: string,
                      newId: int)
      returns (id: int, ghost grown: set<object>)
      requires EntryIn(e, e.dsCache.repr, maxOpenDatasets)
      requires Group(es, rest, maxOpenDatasets) && e.dsCache.repr !! rest
      requires forall a :: a in es ==> a !in e.dsCache.repr
      modifies e.dsCache.repr
      ensures Group(es, rest, maxOpenDatasets)
      ensures Files(es, rest, maxOpenDatasets) == old(Files(es, rest, maxOpenDatasets))
      ensures EntryIn(e, e.dsCache.repr, maxOpenDatasets)
      ensures fresh(grown) && e.dsCache.repr == old(e.dsCache.repr) + grown
      ensures grown !! rest && forall a :: a in es ==> a !in grown
      ensures id == DatasetId(old(FileOf(e)), name, newId)
      ensures id >= 0 <==> DatasetOpens(old(FileOf(e)), name, newId >= 0)
      ensures FileOf(e) == AfterOpening(old(FileOf(e)), name, newId)
    {
      id, grown := OpenOwn(e, name, newId);
    }

    method OpenOwn(e: FileCacheEntry, name: string, newId: int) returns (id: int, ghost grown: set<object>)
      requires EntryIn(e, e.dsCache.repr, maxOpenDatasets)
      modifies e.dsCache.repr
      ensures EntryIn(e, e.dsCache.repr, maxOpenDatasets)
      ensures fresh(grown) && e.dsCache.repr == old(e.dsCache.repr) + grown
      ensures id == DatasetId(old(FileOf(e)), name, newId)
      ensures id >= 0 <==> DatasetOpens(old(FileOf(e)), name, newId >= 0)
      ensures FileOf(e) == AfterOpening(old(FileOf(e)), name, newId)
    {
      id := e.dsCache.OpenDataset(name, newId);
      grown := e.dsCache.repr - old(e.dsCache.repr);
    }

    // ---------- asking ----------

    /** file_cache_query; the dataset's name may be missing. */
    method Query(file: string, dataset: seq<string>) returns (haveFile: bool, haveDataset: bool)
      requires Valid() && |dataset| <= 1
      ensures (haveFile, haveDataset) == CacheModel.Query(View(), file, dataset)
    {
      var found := om.Lookup(file);
      ghost var i := FoundMeans(file, found);
      haveFile, haveDataset := found.Some?, found.Some?;
      if found.Some? && dataset != [] {
        haveDataset := HasDataset(found.value, i, dataset[0]);
      }
    }

    method HasDataset(e: FileCacheEntry, ghost i: nat, name: string) returns (have: bool)
      requires Valid() && i < |entries| && entries[i] == e
      ensures have <==> name in View().files[i].datasets
    {
      assert EntryIn(e, owned, maxOpenDatasets);
      have := e.dsCache.Has(name);
    }

    // ---------- expiry ----------

    /** file_cache_expire_entries: count the old entries, then remove that many from the tail. */
    method ExpireEntries(maxAge: int, now: int)
      requires Valid()
      modifies `entries, omRepr
      ensures Valid() && Repr() <= old(Repr())
      ensures View() == Expire(old(View()), maxAge, now)
    {
      if maxAge <= 0 { return; }
      ghost var r, o, es := omRepr, owned, entries;
      ghost var n := RemoveOld(maxAge, now);
      PrefixMembers(es, n);
      PartsGrow(r, o, es, omRepr, owned, entries, {});
    }

    method RemoveOld(maxAge: int, now: int) returns (ghost n: nat)
      requires Valid() && maxAge > 0
      modifies `entries, omRepr
      ensures Valid() && n <= |old(entries)| && entries == old(entries)[..n]
      ensures View() == Expire(old(View()), maxAge, now)
    {
      ghost var c, es := View(), entries;
      var nrExpired := CountExpired(maxAge, now);
      n := |es| - nrExpired;
      RemoveLast(nrExpired);
      WithoutOldest(c, View(), maxAge, now);
    }

    method CountExpired(maxAge: int, now: int) returns (nrExpired: nat)
      requires Valid()
      ensures nrExpired == CountOld(View().files, maxAge, now)
    {
      ghost var files := View().files;
      var omi := NextItem(null, 0);
      nrExpired := 0;
      ghost var k := 0;
      CountStart(files, omi, maxAge, now);
      while omi != null
        invariant Counting(files, omi, k, nrExpired, maxAge, now)
        decreases |files| - k
      {
        omi, nrExpired := CountOne(files, omi, k, nrExpired, maxAge, now);
        k := k + 1;
      }
      CountEnd(files, k, nrExpired, maxAge, now);
    }

    lemma CountStart(files: seq<FileEntry>, omi: MapItem?<string, FileCacheEntry>, maxAge: int, now: int)
      requires Valid() && files == View().files && Reached(omi, 0)
      ensures Counting(files, omi, 0, 0, maxAge, now)
    {
      assert files[0..] == files;
    }

    lemma CountEnd(files: seq<FileEntry>, k: nat, nrExpired: nat, maxAge: int, now: int)
      requires Counting(files, null, k, nrExpired, maxAge, now)
      ensures nrExpired == CountOld(files, maxAge, now)
    {
      assert files[k..] == [];
    }

    /** The first k entries have been looked at. */
    ghost predicate Counting(files: seq<FileEntry>, omi: MapItem?<string, FileCacheEntry>, k: nat, nrExpired: nat,
                             maxAge: int, now: int)
      reads this, om.list
    {
      && Reached(omi, k) && k <= |files| == |entries|
      && nrExpired + CountOld(files[k..], maxAge, now) == CountOld(files, maxAge, now)
    }

    method CountOne(ghost files: seq<FileEntry>, omi: MapItem<string, FileCacheEntry>, ghost k: nat, nrExpired: nat,
                    maxAge: int, now: int)
      returns (next: MapItem?<string, FileCacheEntry>, nrExpired': nat)
      requires Valid() && files == View().files && Counting(files, omi, k, nrExpired, maxAge, now)
      ensures Counting(files, next, k + 1, nrExpired', maxAge, now)
    {
      nrExpired' := nrExpired;
      var expired := IsOld(omi, k, maxAge, now);
      if expired { nrExpired' := nrExpired' + 1; }
      next := NextItem(omi, k + 1);
    }

    /** The iteration has come to entry k, or to the end. */
    ghost predicate Reached(omi: MapItem?<string, FileCacheEntry>, k: nat)
      reads this, om.list
    {
      if omi == null then k == |entries| == |om.list.items|
      else k < |entries| == |om.list.items| && om.list.items[k].data == omi && omi.value == entries[k]
    }

    method IsOld(omi: MapItem<string, FileCacheEntry>, ghost k: nat, maxAge: int, now: int) returns (expired: bool)
      requires Valid() && Reached(omi, k)
      ensures CountOld(View().files[k..], maxAge, now)
           == (if expired then 1 else 0) + CountOld(View().files[k + 1..], maxAge, now)
    {
      expired := omi.value.lastAccessed + maxAge < now;
      CountNext(View().files, k, maxAge, now);
    }

    method NextItem(omi: MapItem?<string, FileCacheEntry>, ghost k: nat)
      returns (next: MapItem?<string, FileCacheEntry>)
      requires Valid() && if omi == null then k == 0 else k > 0 && Reached(omi, k - 1)
      ensures Reached(next, k)
    {
      next := om.Iterate(omi, k - if omi == null then 0 else 1);
    }
  }

  lemma CountNext(files: seq<FileEntry>, k: nat, maxAge: int, now: int)
    requires k < |files|
    ensures CountOld(files[k..], maxAge, now)
         == (if Old(files[k], maxAge, now) then 1 else 0) + CountOld(files[k + 1..], maxAge, now)
  {
    assert files[k..][1..] == files[k + 1..];
  }

  lemma WithoutOldest(c: Cache, c': Cache, maxAge: int, now: int)
    requires maxAge > 0 && c'.files == c.files[..|c.files| - CountOld(c.files, maxAge, now)]
    requires c' == c.(files := c'.files)
    ensures c' == Expire(c, maxAge, now)
  {}

  lemma PrefixMembers(es: seq<FileCacheEntry>, n: nat)
    requires n <= |es|
    ensures forall e :: e in es[..n] ==> e in es
  {}

  ghost function AfterHit(c: Cache, i: nat, now: int): Cache
    requires i < |c.files|
  {
    c.(files := MoveUp(c.files, i, now), hits := c.hits + 1)
  }

  ghost function AfterMiss(c: Cache, name: string, newId: int, now: int): Cache {
    if c.maxFiles >= 1 then c.(files := PushNew(c.files, name, newId, now, c.maxFiles), misses := c.misses + 1) else c
  }

  lemma HitOrMiss(c: Cache, name: string, now: int, newId: int, i: nat)
    requires c.maxFiles >= 1 && i == IndexOf(c.files, name) && (i < |c.files| || newId >= 0)
    ensures CacheModel.OpenFile(c, name, now, newId)
         == if i < |c.files| then AfterHit(c, i, now) else AfterMiss(c, name, newId, now)
  {}

  lemma Opening(c: Cache, name: string, now: int, newId: int, i: nat)
    requires c.maxFiles >= 1 && i == IndexOf(c.files, name)
    ensures FileOpens(c, name, newId >= 0) <==> i < |c.files| || newId >= 0
    ensures !FileOpens(c, name, newId >= 0) ==> CacheModel.OpenFile(c, name, now, newId) == c
  {}

  lemma StampedFront(files: seq<FileEntry>, k: nat, now: int)
    requires k < |files|
    ensures ToFront(files, k)[0 := ToFront(files, k)[0].(lastAccessed := now)] == MoveUp(files, k, now)
  {}
}
