/**
 Whole runs of a reader process and its parent: the parent's shadow cache is updated from return
 codes only, while the reader also expires entries on its own.
 */
module CacheRuns {
  import opened Basics
  import opened Lru
  import opened CacheModel

  const RESULT_FILE_OPENED: nat := 1
  const RESULT_DATASET_OPENED: nat := 2

  /**
   What happens to one worker: a request, or a timeout of the reader's idle loop. The ids are what HDF5
   would return if asked to open the file or dataset, negative if it fails; each process reads its own
   clock.
   */
  datatype Event =
    | ReadDataset(file: string, dataset: string, fileId: int, datasetId: int, now: int, parentNow: int)
    | ReadObject(file: string, fileId: int, now: int, parentNow: int)
    | Timeout(maxAge: int, now: int)

  datatype Pair = Pair(reader: Cache, shadow: Cache)

  function EmptyCache(maxFiles: nat, maxDatasets: nat): Cache {
    Cache(maxFiles, maxDatasets, [], 0, 0)
  }

  function Start(maxFiles: nat, maxDatasets: nat): Pair {
    Pair(EmptyCache(maxFiles, maxDatasets), EmptyCache(maxFiles, maxDatasets))
  }

  /** The reader's side of an event: its new cache, and the status it sends back. */
  function ReaderDoes(c: Cache, e: Event): (r: (Cache, nat))
    requires c.maxFiles >= 1 && c.maxDatasets >= 1
  {
    match e
    case ReadDataset(file, dataset, fileId, datasetId, now, _) =>
      if !FileOpens(c, file, fileId >= 0) then (c, 0)
      else
        var c1 := OpenFile(c, file, now, fileId);
        (OpenDataset(c1, dataset, datasetId),
         RESULT_FILE_OPENED + if DatasetOpens(c1.files[0], dataset, datasetId >= 0) then RESULT_DATASET_OPENED else 0)
    case ReadObject(file, fileId, now, _) =>
      (OpenFile(c, file, now, fileId), if FileOpens(c, file, fileId >= 0) then RESULT_FILE_OPENED else 0)
    case Timeout(maxAge, now) => (Expire(c, maxAge, now), 0)
  }

  /** The ids of the file and the dataset that the reader then reads from, negative if it has none. */
  function Handles(c: Cache, e: Event): (r: (int, int))
    requires c.maxFiles >= 1 && c.maxDatasets >= 1
  {
    if e.Timeout? || !FileOpens(c, e.file, e.fileId >= 0) then (-1, -1)
    else
      var f := OpenFile(c, e.file, e.now, e.fileId).files[0];
      (f.id, if e.ReadDataset? then DatasetId(f, e.dataset, e.datasetId) else -1)
  }

  predicate IsSet(code: nat, bit: nat)
    requires bit > 0
  {
    code / bit % 2 == 1
  }

  /** The parent's side: it sees the request it sent, and the status. */
  function ParentDoes(c: Cache, e: Event, status: nat): Cache
    requires c.maxFiles >= 1 && c.maxDatasets >= 1
  {
    match e
    case ReadDataset(file, dataset, _, _, _, now) =>
      if !IsSet(status, RESULT_FILE_OPENED) then c
      else
        var c1 := OpenFile(c, file, now, 0);
        if IsSet(status, RESULT_DATASET_OPENED) then OpenDataset(c1, dataset, 0) else c1
    case ReadObject(file, _, _, now) =>
      if IsSet(status, RESULT_FILE_OPENED) then OpenFile(c, file, now, 0) else c
    case Timeout(_, _) => c
  }

  function Step(p: Pair, e: Event): (q: Pair)
    requires p.reader.maxFiles >= 1 && p.reader.maxDatasets >= 1
    requires p.shadow.maxFiles >= 1 && p.shadow.maxDatasets >= 1
    ensures q.reader.maxFiles == p.reader.maxFiles && q.reader.maxDatasets == p.reader.maxDatasets
    ensures q.shadow.maxFiles == p.shadow.maxFiles && q.shadow.maxDatasets == p.shadow.maxDatasets
  {
    var (reader, status) := ReaderDoes(p.reader, e);
    Pair(reader, ParentDoes(p.shadow, e, status))
  }

  function After(maxFiles: nat, maxDatasets: nat, events: seq<Event>): (p: Pair)
    requires maxFiles >= 1 && maxDatasets >= 1
    ensures p.reader.maxFiles == p.shadow.maxFiles == maxFiles
    ensures p.reader.maxDatasets == p.shadow.maxDatasets == maxDatasets
  {
    if events == [] then Start(maxFiles, maxDatasets)
    else Step(After(maxFiles, maxDatasets, events[..|events| - 1]), events[|events| - 1])
  }

  // ---------- the shadow relation ----------

  /** The entry of the reader's cache is covered by the shadow's. */
  ghost predicate Covered(r: FileEntry, s: FileEntry) {
    r.name == s.name && r.datasets <= s.datasets
  }

  /** The reader's entries are the first ones of the shadow's. */
  ghost predicate CoveredFiles(r: seq<FileEntry>, s: seq<FileEntry>) {
    |r| <= |s| && forall i :: 0 <= i < |r| ==> Covered(r[i], s[i])
  }

  /** The reader's files are the most recently used of the shadow's, and so are their datasets. */
  ghost predicate Shadows(s: Cache, r: Cache) {
    && WellFormed(s) && r.maxFiles == s.maxFiles && r.maxDatasets == s.maxDatasets
    && CoveredFiles(r.files, s.files)
    && r.hits + r.misses == s.hits + s.misses && r.hits <= s.hits
  }

  /** Alike but for the time of last access, which each process takes from its own clock. */
  ghost predicate Alike(r: FileEntry, s: FileEntry) {
    r.name == s.name && r.datasets == s.datasets
  }

  ghost predicate SameFiles(s: seq<FileEntry>, r: seq<FileEntry>) {
    |r| == |s| && forall i :: 0 <= i < |r| ==> Alike(r[i], s[i])
  }

  ghost predicate Same(s: Cache, r: Cache) {
    SameFiles(s.files, r.files) && r.hits == s.hits && r.misses == s.misses
  }

  lemma {:induction false} WithoutPrefix(a: seq<string>, b: seq<string>, name: string)
    requires a <= b
    ensures name in a ==> Without(a, name) <= Without(b, name)
    ensures name !in a ==> a <= Without(b, name)
  {
    if a != [] && a[0] != name {
      assert a[1..] <= b[1..];
      WithoutPrefix(a[1..], b[1..], name);
    }
  }

  lemma TouchPrefix(a: seq<string>, b: seq<string>, name: string, capacity: nat)
    requires a <= b && |b| <= capacity && capacity >= 1 && Distinct(b)
    ensures Touch(a, name, capacity) <= Touch(b, name, capacity)
    ensures Distinct(Touch(b, name, capacity)) && |Touch(b, name, capacity)| <= capacity
  {
    WithoutPrefix(a, b, name);
    WithoutMembers(b, name);
  }

  lemma IndexInPrefix(r: seq<FileEntry>, s: seq<FileEntry>, name: string)
    requires CoveredFiles(r, s)
    ensures var i, j := IndexOf(r, name), IndexOf(s, name);
            if i < |r| then i == j else j >= |r|
  {
    assert forall k :: 0 <= k < |r| ==> Covered(r[k], s[k]);
  }

  lemma HitBoth(r: seq<FileEntry>, s: seq<FileEntry>, i: nat, now: int, parentNow: int)
    requires CoveredFiles(r, s) && i < |r|
    ensures CoveredFiles(MoveUp(r, i, now), MoveUp(s, i, parentNow))
  {
    var r1, s1 := MoveUp(r, i, now), MoveUp(s, i, parentNow);
    forall k | 0 <= k < |r1| ensures Covered(r1[k], s1[k]) {
      var from := if k == 0 then i else if k <= i then k - 1 else k;
      assert Covered(r[from], s[from]);
    }
  }

  lemma HitShadowOnly(r: seq<FileEntry>, s: seq<FileEntry>, j: nat, id: int, now: int, parentNow: int, maxFiles: nat)
    requires CoveredFiles(r, s) && |r| <= j < |s| <= maxFiles
    ensures CoveredFiles(PushNew(r, s[j].name, id, now, maxFiles), MoveUp(s, j, parentNow))
  {
    var r1, s1 := PushNew(r, s[j].name, id, now, maxFiles), MoveUp(s, j, parentNow);
    assert r1 == [FileEntry(s[j].name, id, now, [], map[])] + r;
    forall k | 0 <= k < |r1| ensures Covered(r1[k], s1[k]) {
      if k > 0 { assert Covered(r[k - 1], s[k - 1]); }
    }
  }

  lemma MissBoth(r: seq<FileEntry>, s: seq<FileEntry>, name: string, id: int, now: int, parentNow: int, maxFiles: nat)
    requires CoveredFiles(r, s) && maxFiles >= 1
    ensures CoveredFiles(PushNew(r, name, id, now, maxFiles), PushNew(s, name, 0, parentNow, maxFiles))
  {
    var r1, s1 := PushNew(r, name, id, now, maxFiles), PushNew(s, name, 0, parentNow, maxFiles);
    forall k | 0 <= k < |r1| ensures Covered(r1[k], s1[k]) {
      if k > 0 { assert Covered(r[k - 1], s[k - 1]); }
    }
  }

  lemma OpenFileWellFormed(c: Cache, name: string, now: int)
    requires WellFormed(c)
    ensures WellFormed(OpenFile(c, name, now, 0))
  {
    var c1 := OpenFile(c, name, now, 0);
    OpenFileTouches(c, name, now, 0);
    TouchPrefix(Names(c.files), Names(c.files), name, c.maxFiles);
    var j := IndexOf(c.files, name);
    forall k | 0 <= k < |c1.files| ensures EntryOk(c1.files[k], c.maxDatasets) {
      if j < |c.files| {
        assert EntryOk(c.files[if k == 0 then j else if k <= j then k - 1 else k], c.maxDatasets);
      } else if k > 0 {
        assert EntryOk(c.files[k - 1], c.maxDatasets);
      }
    }
  }

  lemma OpenFileShadows(s: Cache, r: Cache, name: string, newId: int, now: int, parentNow: int)
    requires Shadows(s, r) && FileOpens(r, name, newId >= 0)
    ensures Shadows(OpenFile(s, name, parentNow, 0), OpenFile(r, name, now, newId))
    ensures |OpenFile(r, name, now, newId).files| > 0
  {
    OpenFileWellFormed(s, name, parentNow);
    IndexInPrefix(r.files, s.files, name);
    var i, j := IndexOf(r.files, name), IndexOf(s.files, name);
    if i < |r.files| {
      HitBoth(r.files, s.files, i, now, parentNow);
    } else if j < |s.files| {
      HitShadowOnly(r.files, s.files, j, newId, now, parentNow, s.maxFiles);
    } else {
      MissBoth(r.files, s.files, name, newId, now, parentNow, s.maxFiles);
    }
  }

  lemma OpenDatasetShadows(s: Cache, r: Cache, name: string, newId: int)
    requires Shadows(s, r) && |r.files| > 0 && DatasetOpens(r.files[0], name, newId >= 0)
    ensures Shadows(OpenDataset(s, name, 0), OpenDataset(r, name, newId))
  {
    assert Covered(r.files[0], s.files[0]) && EntryOk(s.files[0], s.maxDatasets);
    TouchPrefix(r.files[0].datasets, s.files[0].datasets, name, s.maxDatasets);
    var r1, s1 := OpenDataset(r, name, newId), OpenDataset(s, name, 0);
    assert Names(s1.files) == Names(s.files);
    forall k | 0 <= k < |r1.files| ensures Covered(r1.files[k], s1.files[k]) {
      if k > 0 { assert Covered(r.files[k], s.files[k]); }
    }
    forall k | 0 <= k < |s1.files| ensures EntryOk(s1.files[k], s.maxDatasets) {
      if k > 0 { assert EntryOk(s.files[k], s.maxDatasets); }
    }
  }

  lemma StatusBits()
    ensures IsSet(1, RESULT_FILE_OPENED) && !IsSet(1, RESULT_DATASET_OPENED)
    ensures IsSet(3, RESULT_FILE_OPENED) && IsSet(3, RESULT_DATASET_OPENED)
    ensures !IsSet(0, RESULT_FILE_OPENED) && !IsSet(0, RESULT_DATASET_OPENED)
  {
  }

  lemma ReadDatasetShadows(p: Pair, e: Event)
    requires Shadows(p.shadow, p.reader) && e.ReadDataset?
    ensures Shadows(Step(p, e).shadow, Step(p, e).reader)
  {
    StatusBits();
    if FileOpens(p.reader, e.file, e.fileId >= 0) {
      OpenFileShadows(p.shadow, p.reader, e.file, e.fileId, e.now, e.parentNow);
      var r1, s1 := OpenFile(p.reader, e.file, e.now, e.fileId), OpenFile(p.shadow, e.file, e.parentNow, 0);
      if DatasetOpens(r1.files[0], e.dataset, e.datasetId >= 0) {
        OpenDatasetShadows(s1, r1, e.dataset, e.datasetId);
        assert Step(p, e) == Pair(OpenDataset(r1, e.dataset, e.datasetId), OpenDataset(s1, e.dataset, 0));
      } else {
        assert Step(p, e) == Pair(r1, s1);
      }
    }
  }

  lemma TimeoutShadows(s: Cache, r: Cache, maxAge: int, now: int)
    requires Shadows(s, r)
    ensures Shadows(s, Expire(r, maxAge, now))
  {
    var r1 := Expire(r, maxAge, now);
    forall k | 0 <= k < |r1.files| ensures Covered(r1.files[k], s.files[k]) {
      assert Covered(r.files[k], s.files[k]);
    }
  }

  lemma StepShadows(p: Pair, e: Event)
    requires Shadows(p.shadow, p.reader)
    ensures Shadows(Step(p, e).shadow, Step(p, e).reader)
  {
    match e
    case ReadDataset(_, _, _, _, _, _) => ReadDatasetShadows(p, e);
    case ReadObject(file, fileId, now, parentNow) =>
      StatusBits();
      if FileOpens(p.reader, file, fileId >= 0) {
        OpenFileShadows(p.shadow, p.reader, file, fileId, now, parentNow);
      }
    case Timeout(maxAge, now) => TimeoutShadows(p.shadow, p.reader, maxAge, now);
  }

  /** Whatever the mix of requests, failures and expiries, the shadow covers the reader's cache. */
  lemma {:induction false} ShadowAlwaysHolds(maxFiles: nat, maxDatasets: nat, events: seq<Event>)
    requires maxFiles >= 1 && maxDatasets >= 1
    ensures var p := After(maxFiles, maxDatasets, events);
            Shadows(p.shadow, p.reader) && Names(p.reader.files) <= Names(p.shadow.files)
  {
    if events != [] {
      ShadowAlwaysHolds(maxFiles, maxDatasets, events[..|events| - 1]);
      StepShadows(After(maxFiles, maxDatasets, events[..|events| - 1]), events[|events| - 1]);
    }
    var p := After(maxFiles, maxDatasets, events);
    assert forall k :: 0 <= k < |p.reader.files| ==> Covered(p.reader.files[k], p.shadow.files[k]);
  }

  /** So the score that picks a worker never rates a cache too low. */
  lemma ScoreNeverTooLow(maxFiles: nat, maxDatasets: nat, events: seq<Event>, file: string, dataset: seq<string>)
    requires maxFiles >= 1 && maxDatasets >= 1 && |dataset| <= 1
    ensures var p := After(maxFiles, maxDatasets, events);
            Score(p.reader, file, dataset) <= Score(p.shadow, file, dataset)
  {
    ShadowAlwaysHolds(maxFiles, maxDatasets, events);
    var p := After(maxFiles, maxDatasets, events);
    IndexInPrefix(p.reader.files, p.shadow.files, file);
    var i := IndexOf(p.reader.files, file);
    assert i < |p.reader.files| ==> Covered(p.reader.files[i], p.shadow.files[i]);
  }

  // ---------- without expiry ----------

  ghost predicate NoTimeouts(events: seq<Event>) {
    forall i :: 0 <= i < |events| ==> !events[i].Timeout?
  }

  lemma SameIndex(s: seq<FileEntry>, r: seq<FileEntry>, name: string)
    requires SameFiles(s, r)
    ensures IndexOf(s, name) == IndexOf(r, name)
  {
    assert forall i :: 0 <= i < |r| ==> Alike(r[i], s[i]);
  }

  lemma OpenFileSame(s: Cache, r: Cache, name: string, newId: int, now: int, parentNow: int)
    requires Same(s, r) && s.maxFiles == r.maxFiles >= 1 && FileOpens(r, name, newId >= 0)
    ensures Same(OpenFile(s, name, parentNow, 0), OpenFile(r, name, now, newId))
    ensures |OpenFile(r, name, now, newId).files| > 0
  {
    SameIndex(s.files, r.files, name);
    var i := IndexOf(r.files, name);
    var r1, s1 := OpenFile(r, name, now, newId), OpenFile(s, name, parentNow, 0);
    forall k | 0 <= k < |r1.files| ensures Alike(r1.files[k], s1.files[k]) {
      if i < |r.files| {
        var j := if k == 0 then i else if k <= i then k - 1 else k;
        assert Alike(r.files[j], s.files[j]);
      } else if k > 0 {
        assert Alike(r.files[k - 1], s.files[k - 1]);
      }
    }
  }

  lemma OpenDatasetSame(s: Cache, r: Cache, name: string, newId: int)
    requires Same(s, r) && s.maxDatasets == r.maxDatasets >= 1
    requires |r.files| > 0 && DatasetOpens(r.files[0], name, newId >= 0)
    ensures Same(OpenDataset(s, name, 0), OpenDataset(r, name, newId))
  {
    var r1, s1 := OpenDataset(r, name, newId), OpenDataset(s, name, 0);
    assert Alike(r.files[0], s.files[0]);
    forall k | 0 <= k < |r1.files| ensures Alike(r1.files[k], s1.files[k]) {
      assert Alike(r.files[k], s.files[k]);
    }
  }

  lemma StepSame(p: Pair, e: Event)
    requires Same(p.shadow, p.reader) && !e.Timeout?
    requires p.shadow.maxFiles == p.reader.maxFiles >= 1 && p.shadow.maxDatasets == p.reader.maxDatasets >= 1
    ensures Same(Step(p, e).shadow, Step(p, e).reader)
  {
    StatusBits();
    if FileOpens(p.reader, e.file, e.fileId >= 0) {
      OpenFileSame(p.shadow, p.reader, e.file, e.fileId, e.now, e.parentNow);
      var r1, s1 := OpenFile(p.reader, e.file, e.now, e.fileId), OpenFile(p.shadow, e.file, e.parentNow, 0);
      if e.ReadObject? {
        assert Step(p, e) == Pair(r1, s1);
      } else if DatasetOpens(r1.files[0], e.dataset, e.datasetId >= 0) {
        OpenDatasetSame(s1, r1, e.dataset, e.datasetId);
        assert Step(p, e) == Pair(OpenDataset(r1, e.dataset, e.datasetId), OpenDataset(s1, e.dataset, 0));
      } else {
        assert Step(p, e) == Pair(r1, s1);
      }
    }
  }

  /** With expiry disabled the two caches agree exactly, hit and miss counters included. */
  lemma {:induction false} WithoutExpirySame(maxFiles: nat, maxDatasets: nat, events: seq<Event>)
    requires maxFiles >= 1 && maxDatasets >= 1 && NoTimeouts(events)
    ensures var p := After(maxFiles, maxDatasets, events); Same(p.shadow, p.reader)
  {
    if events != [] {
      WithoutExpirySame(maxFiles, maxDatasets, events[..|events| - 1]);
      StepSame(After(maxFiles, maxDatasets, events[..|events| - 1]), events[|events| - 1]);
    }
  }

  // ---------- least recently used, over whole runs ----------

  /** The names of the files opened successfully in a run. */
  function Opened(maxFiles: nat, maxDatasets: nat, events: seq<Event>): seq<string>
    requires maxFiles >= 1 && maxDatasets >= 1
  {
    if events == [] then []
    else
      var before, e := events[..|events| - 1], events[|events| - 1];
      var trace := Opened(maxFiles, maxDatasets, before);
      if !e.Timeout? && FileOpens(After(maxFiles, maxDatasets, before).reader, e.file, e.fileId >= 0)
      then trace + [e.file] else trace
  }

  lemma OpenFileTouches(c: Cache, name: string, now: int, newId: int)
    requires c.maxFiles >= 1 && FileOpens(c, name, newId >= 0)
    ensures Names(OpenFile(c, name, now, newId).files) == Touch(Names(c.files), name, c.maxFiles)
  {
    var i := IndexOf(c.files, name);
    if i < |c.files| { MoveUpTouches(c.files, i, now); } else { PushNewTouches(c.files, name, newId, now, c.maxFiles); }
    assert i < |c.files| <==> name in Names(c.files) by {
      if i < |c.files| { assert Names(c.files)[i] == name; }
    }
  }

  lemma MoveUpTouches(files: seq<FileEntry>, i: nat, now: int)
    requires i < |files| && forall k :: 0 <= k < i ==> files[k].name != files[i].name
    ensures Names(MoveUp(files, i, now)) == [files[i].name] + Without(Names(files), files[i].name)
  {
    var name, before, after := files[i].name, files[..i], files[i + 1..];
    WithoutIndex(Names(files), name, i);
    NamesSplit(files, i);
    NamesJoin([files[i].(lastAccessed := now)] + before, after);
    NamesJoin([files[i].(lastAccessed := now)], before);
    Associate([name], Names(before), Names(after));
  }

  lemma NamesSplit(files: seq<FileEntry>, i: nat)
    requires i < |files|
    ensures Names(files[..i]) == Names(files)[..i] && Names(files[i + 1..]) == Names(files)[i + 1..]
  {}

  lemma NamesJoin(a: seq<FileEntry>, b: seq<FileEntry>)
    ensures Names(a + b) == Names(a) + Names(b)
  {}

  lemma PushNewTouches(files: seq<FileEntry>, name: string, id: int, now: int, maxFiles: nat)
    requires maxFiles >= 1
    ensures Names(PushNew(files, name, id, now, maxFiles)) == [name] + Take(Names(files), maxFiles - 1)
  {}

  /**
   Without expiry, the open files are the most recently used of all those ever opened
   successfully, as many as the cache has room for, in order of last use.
   */
  lemma {:induction false} FilesAreMostRecent(maxFiles: nat, maxDatasets: nat, events: seq<Event>)
    requires maxFiles >= 1 && maxDatasets >= 1 && NoTimeouts(events)
    ensures Names(After(maxFiles, maxDatasets, events).reader.files)
         == Take(Recency(Opened(maxFiles, maxDatasets, events)), maxFiles)
  {
    FilesAreTouched(maxFiles, maxDatasets, events);
    LruIsRecency(Opened(maxFiles, maxDatasets, events), maxFiles);
  }

  /** Opening a dataset leaves the list of files alone. */
  lemma ReaderNames(c: Cache, e: Event)
    requires c.maxFiles >= 1 && c.maxDatasets >= 1 && !e.Timeout? && FileOpens(c, e.file, e.fileId >= 0)
    ensures Names(ReaderDoes(c, e).0.files) == Names(OpenFile(c, e.file, e.now, e.fileId).files)
  {
    var c1 := OpenFile(c, e.file, e.now, e.fileId);
    assert c1.files != [];
    if e.ReadDataset? {
      assert Names(OpenDataset(c1, e.dataset, e.datasetId).files) == Names(c1.files);
    }
  }

  lemma {:induction false} FilesAreTouched(maxFiles: nat, maxDatasets: nat, events: seq<Event>)
    requires maxFiles >= 1 && maxDatasets >= 1 && NoTimeouts(events)
    ensures Names(After(maxFiles, maxDatasets, events).reader.files)
         == CachedAfter(Opened(maxFiles, maxDatasets, events), maxFiles)
  {
    if events != [] {
      var before, e := events[..|events| - 1], events[|events| - 1];
      FilesAreTouched(maxFiles, maxDatasets, before);
      var c := After(maxFiles, maxDatasets, before).reader;
      var trace := Opened(maxFiles, maxDatasets, before);
      if FileOpens(c, e.file, e.fileId >= 0) {
        OpenFileTouches(c, e.file, e.now, e.fileId);
        assert (trace + [e.file])[..|trace|] == trace;
        ReaderNames(c, e);
      }
    }
  }

  // ---------- expiry over whole runs ----------

  /** The reader's clock never goes back. */
  ghost predicate ClockMonotone(events: seq<Event>) {
    forall i, j :: 0 <= i < j < |events| ==> events[i].now <= events[j].now
  }

  /** Ordered by last access, none later than the given time. */
  ghost predicate AgedBy(files: seq<FileEntry>, now: int) {
    Aged(files) && forall i :: 0 <= i < |files| ==> files[i].lastAccessed <= now
  }

  lemma ReaderAged(c: Cache, e: Event, last: int)
    requires c.maxFiles >= 1 && c.maxDatasets >= 1 && AgedBy(c.files, last) && last <= e.now
    ensures AgedBy(ReaderDoes(c, e).0.files, e.now)
  {
    if !e.Timeout? && FileOpens(c, e.file, e.fileId >= 0) {
      OpenFileAged(c, e.file, e.now, e.fileId, last);
    }
  }

  lemma OpenFileAged(c: Cache, name: string, now: int, newId: int, last: int)
    requires c.maxFiles >= 1 && AgedBy(c.files, last) && last <= now
    ensures AgedBy(OpenFile(c, name, now, newId).files, now)
  {
  }

  lemma {:induction false} FilesAged(maxFiles: nat, maxDatasets: nat, events: seq<Event>, now: int)
    requires maxFiles >= 1 && maxDatasets >= 1 && ClockMonotone(events)
    requires events != [] ==> events[|events| - 1].now <= now
    ensures AgedBy(After(maxFiles, maxDatasets, events).reader.files, now)
  {
    if events != [] {
      var before, e := events[..|events| - 1], events[|events| - 1];
      FilesAged(maxFiles, maxDatasets, before, e.now);
      ReaderAged(After(maxFiles, maxDatasets, before).reader, e, e.now);
    }
  }

  /** Under a clock that never goes back, expiry closes exactly the files that are too old. */
  lemma ExpiryIsExact(maxFiles: nat, maxDatasets: nat, events: seq<Event>, maxAge: int, now: int)
    requires maxFiles >= 1 && maxDatasets >= 1 && ClockMonotone(events) && maxAge > 0
    ensures var c := After(maxFiles, maxDatasets, events).reader;
            Expire(c, maxAge, now).files == KeepFresh(c.files, maxAge, now)
  {
    FilesAged(maxFiles, maxDatasets, events, if events == [] then 0 else events[|events| - 1].now);
    ExpiryExactIff(After(maxFiles, maxDatasets, events).reader.files, maxAge, now);
  }

  /** A clock that steps back can make expiry close a fresh file and keep an old one. */
  lemma ClockSteppingBack()
    ensures
      var events := [ReadObject("a", 1, 10, 10), ReadObject("b", 2, 5, 5)];
      var c := After(2, 1, events).reader;
      && Names(Expire(c, 4, 12).files) == ["b"]
      && Names(KeepFresh(c.files, 4, 12)) == ["a"]
  {
    var e1, e2 := ReadObject("a", 1, 10, 10), ReadObject("b", 2, 5, 5);
    var a, b := FileEntry("a", 1, 10, [], map[]), FileEntry("b", 2, 5, [], map[]);
    assert [e1, e2][..1] == [e1];
    assert After(2, 1, [e1]).reader.files == [a];
    var files := [b, a];
    assert After(2, 1, [e1, e2]).reader.files == files;
    assert files[1..] == [a];
    assert CountOld(files, 4, 12) == 1;
    assert files[..1] == [b];
    assert KeepFresh(files, 4, 12) == [a];
  }
}
