/**
 A reader process and its parent, handling events in place: the cache part of do_read_dataset and
 do_read_object (src/reader/hdfstream_reader.c) and of the open functions (src/lib/hdfstream.c).
 */
module CacheSession {
  import opened Lru
  import opened CacheModel
  import opened CacheRuns
  import opened FileCache

  method NewCache(maxOpenFiles: nat, maxOpenDatasets: nat, shadow: bool)
    returns (c: FileCache, ghost repr: set<object>)
    requires maxOpenFiles >= 1 && maxOpenDatasets >= 1
    ensures c.shadow == shadow && fresh(repr) && c.Repr() == repr
    ensures c.Holds(Cache(maxOpenFiles, maxOpenDatasets, [], 0, 0), repr)
  {
    c := new FileCache(maxOpenFiles, maxOpenDatasets, shadow);
    repr := c.Repr();
  }

  method NewCaches(maxOpenFiles: nat, maxOpenDatasets: nat)
    returns (reader: FileCache, parent: FileCache, ghost readerRepr: set<object>, ghost parentRepr: set<object>)
    requires maxOpenFiles >= 1 && maxOpenDatasets >= 1
    ensures !reader.shadow && parent.shadow && readerRepr !! parentRepr
    ensures reader.Holds(Start(maxOpenFiles, maxOpenDatasets).reader, readerRepr)
    ensures parent.Holds(Start(maxOpenFiles, maxOpenDatasets).shadow, parentRepr)
  {
    reader, readerRepr := NewCache(maxOpenFiles, maxOpenDatasets, false);
    parent, parentRepr := NewCache(maxOpenFiles, maxOpenDatasets, true);
  }

  class Worker {
    const reader: FileCache
    const parent: FileCache

    ghost predicate Valid()
      reads reader, reader.entries, reader.omRepr, reader.owned
      reads parent, parent.entries, parent.omRepr, parent.owned
    {
      && !reader.shadow && parent.shadow && reader.Repr() !! parent.Repr()
      && reader.Valid() && parent.Valid() && Shadows(parent.View(), reader.View())
    }

    ghost function View(): Pair
      reads reader, reader.entries, reader.omRepr, reader.owned
      reads parent, parent.entries, parent.omRepr, parent.owned
      requires reader.Valid() && parent.Valid()
    {
      Pair(reader.View(), parent.View())
    }

    constructor (reader: FileCache, parent: FileCache)
      ensures this.reader == reader && this.parent == parent
    {
      this.reader, this.parent := reader, parent;
    }

    lemma Started(p: Pair, readerRepr: set<object>, parentRepr: set<object>)
      requires reader.Holds(p.reader, readerRepr) && parent.Holds(p.shadow, parentRepr)
      requires readerRepr !! parentRepr && !reader.shadow && parent.shadow && Shadows(p.shadow, p.reader)
      ensures Valid() && View() == p
    {}

    /** The reader's handling of a request, up to sending the status. */
    method Read(e: Event) returns (status: nat, handles: (int, int), ghost grown: set<object>)
      requires reader.Valid() && !reader.shadow && !e.Timeout?
      modifies reader.Repr()
      ensures reader.Valid() && fresh(grown) && reader.Repr() <= old(reader.Repr()) + grown
      ensures reader.View() == ReaderDoes(old(reader.View()), e).0 && status == ReaderDoes(old(reader.View()), e).1
      ensures handles == Handles(old(reader.View()), e)
    {
      ghost var a, b;
      status, handles, a, b := OpenBoth(e);
      grown := a + b;
    }

    method OpenBoth(e: Event) returns (status: nat, handles: (int, int), ghost a: set<object>, ghost b: set<object>)
      requires reader.Valid() && !reader.shadow && !e.Timeout?
      modifies reader.Repr()
      ensures reader.Valid() && fresh(a) && fresh(b) && reader.Repr() <= old(reader.Repr()) + a + b
      ensures reader.View() == ReaderDoes(old(reader.View()), e).0 && status == ReaderDoes(old(reader.View()), e).1
      ensures handles == Handles(old(reader.View()), e)
    {
      var file;
      file, a := reader.OpenFile(e.file, e.now, e.fileId);
      if file == null { return 0, (-1, -1), a, {}; }
      var datasetId;
      status, datasetId, b := OpenSecond(e, file);
      handles := (file.fileId, datasetId);
    }

    method OpenSecond(e: Event, file: FileCacheEntry) returns (status: nat, datasetId: int, ghost grown: set<object>)
      requires reader.Valid() && !reader.shadow && reader.entries != [] && reader.entries[0] == file
      modifies reader.Repr()
      ensures reader.Valid() && fresh(grown) && reader.Repr() <= old(reader.Repr()) + grown
      ensures reader.View()
           == if e.ReadDataset? then OpenDataset(old(reader.View()), e.dataset, e.datasetId) else old(reader.View())
      ensures status == RESULT_FILE_OPENED
                + if e.ReadDataset? && DatasetOpens(old(reader.View()).files[0], e.dataset, e.datasetId >= 0)
                  then RESULT_DATASET_OPENED else 0
      ensures datasetId == if e.ReadDataset? then DatasetId(old(reader.View()).files[0], e.dataset, e.datasetId) else -1
    {
      status, datasetId, grown := RESULT_FILE_OPENED, -1, {};
      if e.ReadDataset? {
        datasetId, grown := reader.OpenDataset(file, e.dataset, e.datasetId);
        if datasetId >= 0 { status := status + RESULT_DATASET_OPENED; }
      }
    }

    /** The parent's update of the shadow cache from the status alone. */
    method Note(e: Event, status: nat) returns (ghost grown: set<object>)
      requires parent.Valid() && parent.shadow && !e.Timeout?
      modifies parent.Repr()
      ensures parent.Valid() && fresh(grown) && parent.Repr() <= old(parent.Repr()) + grown
      ensures parent.View() == ParentDoes(old(parent.View()), e, status)
    {
      if !IsSet(status, RESULT_FILE_OPENED) { return {}; }
      var file;
      file, grown := parent.OpenFile(e.file, e.parentNow, 0);
      if e.ReadDataset? && IsSet(status, RESULT_DATASET_OPENED) {
        ghost var more;
        var datasetId;
        datasetId, more := parent.OpenDataset(file, e.dataset, 0);
        grown := grown + more;
      }
    }

    /** One request or timeout: the shadow relation survives it. */
    method Handle(e: Event) returns (handles: (int, int))
      requires Valid()
      modifies reader.Repr(), parent.Repr()
      ensures Valid() && View() == Step(old(View()), e) && handles == Handles(old(View()).reader, e)
    {
      StepShadows(View(), e);
      ghost var s, sRepr := parent.View(), parent.Repr();
      var status;
      status, handles := ReadApart(e, s, sRepr);
      ghost var r, rRepr := reader.View(), reader.Repr();
      NoteApart(e, status, r, rRepr);
    }

    /** The parent's cache is none of the reader's business ... */
    method ReadApart(e: Event, ghost s: Cache, ghost sRepr: set<object>) returns (status: nat, handles: (int, int))
      requires reader.Valid() && !reader.shadow && parent.Holds(s, sRepr) && reader.Repr() !! sRepr
      modifies reader.Repr()
      ensures reader.Valid() && parent.Holds(s, sRepr) && reader.Repr() !! sRepr
      ensures reader.View() == ReaderDoes(old(reader.View()), e).0 && status == ReaderDoes(old(reader.View()), e).1
      ensures handles == Handles(old(reader.View()), e)
    {
      if e.Timeout? {
        reader.ExpireEntries(e.maxAge, e.now);
        status, handles := 0, (-1, -1);
      } else {
        ghost var grown;
        status, handles, grown := Read(e);
      }
    }

    /** ... and the other way round. */
    method NoteApart(e: Event, status: nat, ghost r: Cache, ghost rRepr: set<object>)
      requires parent.Valid() && parent.shadow && reader.Holds(r, rRepr) && parent.Repr() !! rRepr
      modifies parent.Repr()
      ensures parent.Valid() && reader.Holds(r, rRepr) && parent.Repr() !! rRepr
      ensures parent.View() == ParentDoes(old(parent.View()), e, status)
    {
      if !e.Timeout? {
        ghost var grown := Note(e, status);
      }
    }
  }

  /** A reader process is started, with the parent's shadow of its cache. */
  method NewWorker(maxOpenFiles: nat, maxOpenDatasets: nat) returns (w: Worker)
    requires maxOpenFiles >= 1 && maxOpenDatasets >= 1
    ensures w.Valid() && w.View() == Start(maxOpenFiles, maxOpenDatasets)
  {
    ghost var p, readerRepr, parentRepr := Start(maxOpenFiles, maxOpenDatasets), {}, {};
    var reader, parent;
    reader, parent, readerRepr, parentRepr := NewCaches(maxOpenFiles, maxOpenDatasets);
    w := Pairing(reader, parent, p, readerRepr, parentRepr);
    w.Started(p, readerRepr, parentRepr);
  }

  method Pairing(reader: FileCache, parent: FileCache, ghost p: Pair, ghost readerRepr: set<object>,
                 ghost parentRepr: set<object>)
    returns (w: Worker)
    requires reader.Holds(p.reader, readerRepr) && parent.Holds(p.shadow, parentRepr)
    ensures w.reader == reader && w.parent == parent
    ensures reader.Holds(p.reader, readerRepr) && parent.Holds(p.shadow, parentRepr)
  {
    w := new Worker(reader, parent);
  }
}
