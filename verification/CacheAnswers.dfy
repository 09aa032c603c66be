/**
 What the caches answer over whole runs: which file or dataset an id stands for, what a query says, and
 what the counters count.
 */
module CacheAnswers {
  import opened Basics
  import opened Wrappers
  import opened Lru
  import opened CacheModel
  import opened CacheRuns

  // ---------- what is cached ----------

  predicate FileCached(c: Cache, file: string) {
    file in Names(c.files)
  }

  ghost predicate DatasetCached(c: Cache, file: string, dataset: string) {
    exists f :: f in c.files && f.name == file && dataset in f.datasets
  }

  lemma IndexOfName(files: seq<FileEntry>, file: string)
    ensures IndexOf(files, file) < |files| <==> file in Names(files)
    ensures file in Names(files) ==> files[IndexOf(files, file)] in files && files[IndexOf(files, file)].name == file
  {
    var k := IndexOf(files, file);
    assert k < |files| ==> Names(files)[k] == file;
    if file in Names(files) {
      var i :| 0 <= i < |files| && Names(files)[i] == file;
      assert files[i].name == file;
    }
  }

  /** The only entry of that name. */
  lemma TheEntry(files: seq<FileEntry>, f: FileEntry)
    requires Distinct(Names(files)) && f in files
    ensures IndexOf(files, f.name) < |files| && files[IndexOf(files, f.name)] == f
  {
    var i :| 0 <= i < |files| && files[i] == f;
    assert Names(files)[i] == f.name;
    IndexOfName(files, f.name);
    OnePlace(Names(files), i, IndexOf(files, f.name));
  }

  lemma OnePlace(names: seq<string>, i: nat, j: nat)
    requires Distinct(names) && i < |names| && j < |names| && names[i] == names[j]
    ensures i == j
  {}

  /** A query finds what is cached. A missing name counts as cached with its file. */
  lemma QueryMeans(c: Cache, file: string, dataset: seq<string>)
    requires |dataset| <= 1 && Distinct(Names(c.files))
    ensures Query(c, file, dataset).0 <==> FileCached(c, file)
    ensures Query(c, file, dataset).1 <==>
            if dataset == [] then FileCached(c, file) else DatasetCached(c, file, dataset[0])
  {
    IndexOfName(c.files, file);
    forall f | f in c.files && f.name == file ensures c.files[IndexOf(c.files, file)] == f {
      TheEntry(c.files, f);
    }
  }

  /** Two points for a request whose dataset is open, one if only its file is, none otherwise. */
  lemma ScoreMeans(c: Cache, file: string, dataset: seq<string>)
    requires |dataset| <= 1 && Distinct(Names(c.files))
    ensures var open := if dataset == [] then FileCached(c, file) else DatasetCached(c, file, dataset[0]);
            && (Score(c, file, dataset) == 2 <==> open)
            && (Score(c, file, dataset) == 1 <==> FileCached(c, file) && !open)
            && (Score(c, file, dataset) == 0 <==> !FileCached(c, file))
  {
    QueryMeans(c, file, dataset);
    forall f | f in c.files && f.name == file ensures FileCached(c, file) {
      var i :| 0 <= i < |c.files| && c.files[i] == f;
      assert Names(c.files)[i] == file;
    }
  }

  lemma NamesDistinct(maxFiles: nat, maxDatasets: nat, events: seq<Event>)
    requires maxFiles >= 1 && maxDatasets >= 1
    ensures Distinct(Names(After(maxFiles, maxDatasets, events).reader.files))
  {
    ShadowAlwaysHolds(maxFiles, maxDatasets, events);
    var p := After(maxFiles, maxDatasets, events);
    var r, s := Names(p.reader.files), Names(p.shadow.files);
    forall i, j | 0 <= i < j < |r| ensures r[i] != r[j] { assert r[i] == s[i] && r[j] == s[j]; }
  }

  // ---------- the counters ----------

  /** How many requests opened a file that was cached, or one that was not. */
  function NrOpens(maxFiles: nat, maxDatasets: nat, events: seq<Event>, cached: bool): nat
    requires maxFiles >= 1 && maxDatasets >= 1
  {
    if events == [] then 0
    else
      var before, e := events[..|events| - 1], events[|events| - 1];
      var c := After(maxFiles, maxDatasets, before).reader;
      NrOpens(maxFiles, maxDatasets, before, cached)
      + if !e.Timeout? && FileCached(c, e.file) == cached && (cached || e.fileId >= 0) then 1 else 0
  }

  lemma {:induction false} CountersMean(maxFiles: nat, maxDatasets: nat, events: seq<Event>)
    requires maxFiles >= 1 && maxDatasets >= 1
    ensures var c := After(maxFiles, maxDatasets, events).reader;
            && c.hits == NrOpens(maxFiles, maxDatasets, events, true)
            && c.misses == NrOpens(maxFiles, maxDatasets, events, false)
  {
    if events != [] {
      var before, e := events[..|events| - 1], events[|events| - 1];
      CountersMean(maxFiles, maxDatasets, before);
      if !e.Timeout? { IndexOfName(After(maxFiles, maxDatasets, before).reader.files, e.file); }
    }
  }

  // ---------- expiry ----------

  lemma {:induction false} FreshKept(files: seq<FileEntry>, maxAge: int, now: int, f: FileEntry)
    ensures f in KeepFresh(files, maxAge, now) <==> f in files && f.lastAccessed + maxAge >= now
  {
    if files != [] {
      FreshKept(files[1..], maxAge, now, f);
      assert f in files <==> f == files[0] || f in files[1..];
    }
  }

  /**
   Under a clock that never goes back: the files that stay open are those used within the maximum age,
   or all if there is none.
   */
  lemma ExpiryMeans(maxFiles: nat, maxDatasets: nat, events: seq<Event>, maxAge: int, now: int, f: FileEntry)
    requires maxFiles >= 1 && maxDatasets >= 1 && ClockMonotone(events)
    ensures var c := After(maxFiles, maxDatasets, events).reader;
            f in Expire(c, maxAge, now).files <==> f in c.files && (maxAge > 0 ==> now - f.lastAccessed <= maxAge)
  {
    if maxAge > 0 {
      ExpiryIsExact(maxFiles, maxDatasets, events, maxAge, now);
      FreshKept(After(maxFiles, maxDatasets, events).reader.files, maxAge, now, f);
    }
  }

  // ---------- ids ----------

  /** The id that HDF5 returned when the file was last opened by it, and not by the cache. */
  function LastFileId(maxFiles: nat, maxDatasets: nat, events: seq<Event>, file: string): Option<int>
    requires maxFiles >= 1 && maxDatasets >= 1
  {
    if events == [] then None
    else
      var before, e := events[..|events| - 1], events[|events| - 1];
      var c := After(maxFiles, maxDatasets, before).reader;
      if !e.Timeout? && e.file == file && !FileCached(c, file) && e.fileId >= 0 then Some(e.fileId)
      else LastFileId(maxFiles, maxDatasets, before, file)
  }

  /** The id that HDF5 returned when the dataset was last opened by it. */
  ghost function LastDatasetId(maxFiles: nat, maxDatasets: nat, events: seq<Event>, file: string, dataset: string)
    : Option<int>
    requires maxFiles >= 1 && maxDatasets >= 1
  {
    if events == [] then None
    else
      var before, e := events[..|events| - 1], events[|events| - 1];
      var c := After(maxFiles, maxDatasets, before).reader;
      if e.ReadDataset? && e.file == file && e.dataset == dataset && (FileCached(c, file) || e.fileId >= 0)
         && !DatasetCached(c, file, dataset) && e.datasetId >= 0
      then Some(e.datasetId)
      else LastDatasetId(maxFiles, maxDatasets, before, file, dataset)
  }

  /** The entry's ids are those that HDF5 gave last. */
  ghost predicate IdsRight(maxFiles: nat, maxDatasets: nat, events: seq<Event>, f: FileEntry)
    requires maxFiles >= 1 && maxDatasets >= 1
  {
    && LastFileId(maxFiles, maxDatasets, events, f.name) == Some(f.id)
    && forall n :: n in f.datasets ==>
         n in f.ids && LastDatasetId(maxFiles, maxDatasets, events, f.name, n) == Some(f.ids[n])
  }

  ghost predicate AllRight(maxFiles: nat, maxDatasets: nat, events: seq<Event>, files: seq<FileEntry>)
    requires maxFiles >= 1 && maxDatasets >= 1
  {
    forall f :: f in files ==> IdsRight(maxFiles, maxDatasets, events, f)
  }

  /** An entry of a file that was cached, with no datasets but those it had. */
  lemma KeptRight(maxFiles: nat, maxDatasets: nat, events: seq<Event>, e: Event, f: FileEntry, g: FileEntry)
    requires maxFiles >= 1 && maxDatasets >= 1 && IdsRight(maxFiles, maxDatasets, events, f)
    requires f in After(maxFiles, maxDatasets, events).reader.files
    requires g.name == f.name && g.id == f.id && g.ids == f.ids && forall n :: n in g.datasets ==> n in f.datasets
    ensures IdsRight(maxFiles, maxDatasets, events + [e], g)
  {
    var c := After(maxFiles, maxDatasets, events).reader;
    assert (events + [e])[..|events|] == events;
    CachedName(c, f);
    forall n | n in g.datasets
      ensures n in g.ids && LastDatasetId(maxFiles, maxDatasets, events + [e], g.name, n) == Some(g.ids[n])
    {
      assert DatasetCached(c, f.name, n);
    }
  }

  /** The entry of the file that has just been opened. */
  lemma OpenedRight(maxFiles: nat, maxDatasets: nat, events: seq<Event>, e: Event)
    requires maxFiles >= 1 && maxDatasets >= 1 && !e.Timeout?
    requires AllRight(maxFiles, maxDatasets, events, After(maxFiles, maxDatasets, events).reader.files)
    requires FileOpens(After(maxFiles, maxDatasets, events).reader, e.file, e.fileId >= 0)
    ensures var c1 := OpenFile(After(maxFiles, maxDatasets, events).reader, e.file, e.now, e.fileId);
            c1.files != [] && c1.files[0].name == e.file && IdsRight(maxFiles, maxDatasets, events + [e], c1.files[0])
  {
    var c := After(maxFiles, maxDatasets, events).reader;
    var i := IndexOf(c.files, e.file);
    IndexOfName(c.files, e.file);
    if i < |c.files| {
      KeptRight(maxFiles, maxDatasets, events, e, c.files[i], c.files[i].(lastAccessed := e.now));
    } else {
      assert (events + [e])[..|events|] == events;
    }
  }

  /** The entry after a dataset has been opened in it. */
  lemma DatasetRight(maxFiles: nat, maxDatasets: nat, events: seq<Event>, e: Event, f: FileEntry)
    requires maxFiles >= 1 && maxDatasets >= 1 && e.ReadDataset? && f.name == e.file
    requires IdsRight(maxFiles, maxDatasets, events + [e], f) && DatasetOpens(f, e.dataset, e.datasetId >= 0)
    requires var c := After(maxFiles, maxDatasets, events).reader;
             && (FileCached(c, e.file) || e.fileId >= 0)
             && (DatasetCached(c, e.file, e.dataset) <==> e.dataset in f.datasets)
    ensures IdsRight(maxFiles, maxDatasets, events + [e], WithDataset(f, e.dataset, e.datasetId, maxDatasets))
    ensures LastDatasetId(maxFiles, maxDatasets, events + [e], e.file, e.dataset)
         == Some(DatasetId(f, e.dataset, e.datasetId))
  {
    assert (events + [e])[..|events|] == events;
    var g := WithDataset(f, e.dataset, e.datasetId, maxDatasets);
    InTouch(f.datasets, e.dataset, maxDatasets);
    forall n | n in g.datasets
      ensures n in g.ids && LastDatasetId(maxFiles, maxDatasets, events + [e], g.name, n) == Some(g.ids[n])
    {
      assert n == e.dataset || n in f.datasets;
    }
  }

  lemma InTouch(names: seq<string>, name: string, capacity: nat)
    requires capacity >= 1
    ensures forall n :: n in Touch(names, name, capacity) ==> n == name || n in names
  {
    InWithout(names, name);
  }

  lemma {:induction false} InWithout(names: seq<string>, name: string)
    ensures forall n :: n in Without(names, name) ==> n in names
  {
    if names != [] { InWithout(names[1..], name); }
  }

  /** In the entry of the file just opened, a dataset is cached exactly if it was before. */
  lemma CachedBefore(c: Cache, file: string, now: int, newId: int, dataset: string)
    requires c.maxFiles >= 1 && Distinct(Names(c.files)) && FileOpens(c, file, newId >= 0)
    ensures var c1 := OpenFile(c, file, now, newId);
            c1.files != [] && (DatasetCached(c, file, dataset) <==> dataset in c1.files[0].datasets)
  {
    IndexOfName(c.files, file);
    var i := IndexOf(c.files, file);
    forall f | f in c.files && f.name == file ensures i < |c.files| && c.files[i] == f { TheEntry(c.files, f); }
    if i < |c.files| { assert c.files[i] in c.files; }
  }

  /** All other entries were there before, under other names. */
  lemma OthersKept(c: Cache, e: Event, f: FileEntry)
    requires c.maxFiles >= 1 && c.maxDatasets >= 1
    requires f in (if !e.Timeout? && FileOpens(c, e.file, e.fileId >= 0) then ReaderDoes(c, e).0.files[1..]
                   else ReaderDoes(c, e).0.files)
    ensures f in c.files
  {
    if !e.Timeout? && FileOpens(c, e.file, e.fileId >= 0) {
      OthersBefore(c, e.file, e.now, e.fileId, f);
    }
  }

  lemma OthersBefore(c: Cache, file: string, now: int, newId: int, f: FileEntry)
    requires c.maxFiles >= 1 && FileOpens(c, file, newId >= 0)
    ensures OpenFile(c, file, now, newId).files != []
    ensures f in OpenFile(c, file, now, newId).files[1..] ==> f in c.files
  {
    var i := IndexOf(c.files, file);
    if i < |c.files| { assert MoveUp(c.files, i, now)[1..] == c.files[..i] + c.files[i + 1..]; }
  }

  lemma StepRight(maxFiles: nat, maxDatasets: nat, events: seq<Event>, e: Event)
    requires maxFiles >= 1 && maxDatasets >= 1
    requires AllRight(maxFiles, maxDatasets, events, After(maxFiles, maxDatasets, events).reader.files)
    ensures AllRight(maxFiles, maxDatasets, events + [e],
                     ReaderDoes(After(maxFiles, maxDatasets, events).reader, e).0.files)
  {
    var c := After(maxFiles, maxDatasets, events).reader;
    var files := ReaderDoes(c, e).0.files;
    var opens := !e.Timeout? && FileOpens(c, e.file, e.fileId >= 0);
    if opens { HeadRight(maxFiles, maxDatasets, events, e); }
    forall f | f in files ensures IdsRight(maxFiles, maxDatasets, events + [e], f) {
      if opens && f == files[0] {
      } else {
        if opens { assert f in files[1..]; }
        OthersKept(c, e, f);
        KeptRight(maxFiles, maxDatasets, events, e, f, f);
      }
    }
  }

  lemma HeadRight(maxFiles: nat, maxDatasets: nat, events: seq<Event>, e: Event)
    requires maxFiles >= 1 && maxDatasets >= 1 && !e.Timeout?
    requires AllRight(maxFiles, maxDatasets, events, After(maxFiles, maxDatasets, events).reader.files)
    requires FileOpens(After(maxFiles, maxDatasets, events).reader, e.file, e.fileId >= 0)
    ensures var files := ReaderDoes(After(maxFiles, maxDatasets, events).reader, e).0.files;
            files != [] && IdsRight(maxFiles, maxDatasets, events + [e], files[0])
  {
    var c := After(maxFiles, maxDatasets, events).reader;
    OpenedRight(maxFiles, maxDatasets, events, e);
    if e.ReadDataset? {
      var f := OpenFile(c, e.file, e.now, e.fileId).files[0];
      NamesDistinct(maxFiles, maxDatasets, events);
      CachedBefore(c, e.file, e.now, e.fileId, e.dataset);
      IndexOfName(c.files, e.file);
      if DatasetOpens(f, e.dataset, e.datasetId >= 0) { DatasetRight(maxFiles, maxDatasets, events, e, f); }
    }
  }

  /** In every run: the ids in the cache are those that HDF5 gave when it was last asked. */
  lemma {:induction false} CachedIdsRight(maxFiles: nat, maxDatasets: nat, events: seq<Event>)
    requires maxFiles >= 1 && maxDatasets >= 1
    ensures AllRight(maxFiles, maxDatasets, events, After(maxFiles, maxDatasets, events).reader.files)
  {
    if events != [] {
      var before, e := events[..|events| - 1], events[|events| - 1];
      CachedIdsRight(maxFiles, maxDatasets, before);
      StepRight(maxFiles, maxDatasets, before, e);
      assert before + [e] == events;
    }
  }

  /**
   After any run, a request that can be answered gets the ids that HDF5 gave when the file, and the
   dataset in it, were last opened by it: now if they are not cached, and earlier if they are.
   */
  lemma AnswersAreRight(maxFiles: nat, maxDatasets: nat, events: seq<Event>, e: Event)
    requires maxFiles >= 1 && maxDatasets >= 1 && !e.Timeout?
    requires FileOpens(After(maxFiles, maxDatasets, events).reader, e.file, e.fileId >= 0)
    ensures var c := After(maxFiles, maxDatasets, events).reader;
            var f := OpenFile(c, e.file, e.now, e.fileId).files[0];
            && f.name == e.file
            && Some(Handles(c, e).0) == LastFileId(maxFiles, maxDatasets, events + [e], e.file)
            && (e.ReadDataset? && DatasetOpens(f, e.dataset, e.datasetId >= 0) ==>
                  Some(Handles(c, e).1) == LastDatasetId(maxFiles, maxDatasets, events + [e], e.file, e.dataset))
  {
    var c := After(maxFiles, maxDatasets, events).reader;
    CachedIdsRight(maxFiles, maxDatasets, events);
    OpenedRight(maxFiles, maxDatasets, events, e);
    if e.ReadDataset? {
      var f := OpenFile(c, e.file, e.now, e.fileId).files[0];
      NamesDistinct(maxFiles, maxDatasets, events);
      CachedBefore(c, e.file, e.now, e.fileId, e.dataset);
      IndexOfName(c.files, e.file);
      if DatasetOpens(f, e.dataset, e.datasetId >= 0) { DatasetRight(maxFiles, maxDatasets, events, e, f); }
    }
  }

  lemma CachedName(c: Cache, f: FileEntry)
    requires f in c.files
    ensures FileCached(c, f.name)
  {
    var i :| 0 <= i < |c.files| && c.files[i] == f;
    assert Names(c.files)[i] == f.name;
  }
}
