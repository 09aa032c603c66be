/**
 Both cache levels together, as values, and the parent process's shadow copy of them.
 Follows src/hdf5/file_cache.c, src/reader/hdfstream_reader.c and the open functions of
 src/lib/hdfstream.c.
 */
module CacheModel {
  import opened Basics
  import opened Lru

  /** An open file: its id, when it was last used, and its open datasets with their ids, most recent first. */
  datatype FileEntry = FileEntry(name: string, id: int, lastAccessed: int, datasets: seq<string>, ids: map<string, int>)

  /** The file cache; the files are in the order of its ordered map, most recently used first. */
  datatype Cache = Cache(maxFiles: nat, maxDatasets: nat, files: seq<FileEntry>, hits: nat, misses: nat)

  function Names(files: seq<FileEntry>): (names: seq<string>)
    ensures |names| == |files|
    ensures forall i :: 0 <= i < |files| ==> names[i] == files[i].name
  {
    seq(|files|, i requires 0 <= i < |files| => files[i].name)
  }

  /** The position of a file, or the number of files if it is not there. */
  function IndexOf(files: seq<FileEntry>, name: string): (i: nat)
    ensures i <= |files|
    ensures i < |files| ==> files[i].name == name
    ensures forall k :: 0 <= k < i ==> files[k].name != name
  {
    if files == [] then 0
    else if files[0].name == name then 0
    else 1 + IndexOf(files[1..], name)
  }

  predicate Has(c: Cache, name: string) {
    IndexOf(c.files, name) < |c.files|
  }

  ghost predicate EntryOk(f: FileEntry, maxDatasets: nat) {
    Distinct(f.datasets) && |f.datasets| <= maxDatasets
  }

  ghost predicate WellFormed(c: Cache) {
    && c.maxFiles >= 1 && c.maxDatasets >= 1
    && |c.files| <= c.maxFiles
    && Distinct(Names(c.files))
    && forall i :: 0 <= i < |c.files| ==> EntryOk(c.files[i], c.maxDatasets)
  }

  /** Move entry i to the front, with a new access time. */
  function MoveUp(files: seq<FileEntry>, i: nat, now: int): seq<FileEntry>
    requires i < |files|
  {
    [files[i].(lastAccessed := now)] + files[..i] + files[i + 1..]
  }

  /** A new entry at the front; the last one makes room if need be. */
  function PushNew(files: seq<FileEntry>, name: string, id: int, now: int, maxFiles: nat): seq<FileEntry>
    requires maxFiles >= 1
  {
    [FileEntry(name, id, now, [], map[])] + Take(files, maxFiles - 1)
  }

  // ---------- operations ----------

  predicate FileOpens(c: Cache, name: string, canOpen: bool) {
    Has(c, name) || canOpen
  }

  /** file_cache_open_file; `newId` is what H5Fopen would return, which a shadow cache does not ask. */
  function OpenFile(c: Cache, name: string, now: int, newId: int): Cache
    requires c.maxFiles >= 1
  {
    var i := IndexOf(c.files, name);
    if i < |c.files| then
      c.(files := MoveUp(c.files, i, now), hits := c.hits + 1)
    else if newId >= 0 then
      c.(files := PushNew(c.files, name, newId, now, c.maxFiles), misses := c.misses + 1)
    else c
  }

  predicate DatasetOpens(f: FileEntry, name: string, canOpen: bool) {
    name in f.datasets || canOpen
  }

  /** A dataset has been opened, with this id if it was not cached. */
  function WithDataset(f: FileEntry, name: string, newId: int, maxDatasets: nat): FileEntry
    requires maxDatasets >= 1
  {
    var names := Touch(f.datasets, name, maxDatasets);
    if name in f.datasets then f.(datasets := names)
    else f.(datasets := names, ids := Restrict(f.ids[name := newId], names))
  }

  /** file_cache_open_dataset on the file that has just been opened; `newId` is what H5Dopen would return. */
  function OpenDataset(c: Cache, name: string, newId: int): Cache
    requires c.maxDatasets >= 1 && |c.files| > 0
  {
    var f := c.files[0];
    if DatasetOpens(f, name, newId >= 0)
    then c.(files := [WithDataset(f, name, newId, c.maxDatasets)] + c.files[1..])
    else c
  }

  /** The id that opening the dataset returns. */
  function DatasetId(f: FileEntry, name: string, newId: int): int {
    if name in f.datasets && name in f.ids then f.ids[name] else newId
  }

  predicate Old(f: FileEntry, maxAge: int, now: int) {
    f.lastAccessed + maxAge < now
  }

  function CountOld(files: seq<FileEntry>, maxAge: int, now: int): (n: nat)
    ensures n <= |files|
  {
    if files == [] then 0 else (if Old(files[0], maxAge, now) then 1 else 0) + CountOld(files[1..], maxAge, now)
  }

  /** file_cache_expire_entries: remove as many entries from the tail as there are old ones anywhere. */
  function Expire(c: Cache, maxAge: int, now: int): Cache {
    if maxAge <= 0 then c
    else c.(files := c.files[..|c.files| - CountOld(c.files, maxAge, now)])
  }

  /** file_cache_query: is the file cached, and the dataset (which may be null)? */
  function Query(c: Cache, file: string, dataset: seq<string>): (r: (bool, bool))
    requires |dataset| <= 1
  {
    var i := IndexOf(c.files, file);
    if i < |c.files| then (true, dataset == [] || dataset[0] in c.files[i].datasets) else (false, false)
  }

  /** cache_score: one point for the file, one for the dataset. */
  function Score(c: Cache, file: string, dataset: seq<string>): nat
    requires |dataset| <= 1
  {
    var (f, d) := Query(c, file, dataset);
    (if f then 1 else 0) + (if d then 1 else 0)
  }

  // ---------- expiry ----------

  function KeepFresh(files: seq<FileEntry>, maxAge: int, now: int): seq<FileEntry> {
    if files == [] then []
    else (if Old(files[0], maxAge, now) then [] else [files[0]]) + KeepFresh(files[1..], maxAge, now)
  }

  /** The old entries all sit at the tail. */
  ghost predicate OldAtTail(files: seq<FileEntry>, maxAge: int, now: int) {
    forall i, j :: 0 <= i < j < |files| && Old(files[i], maxAge, now) ==> Old(files[j], maxAge, now)
  }

  lemma {:induction false} AllOld(files: seq<FileEntry>, maxAge: int, now: int)
    ensures |KeepFresh(files, maxAge, now)| == |files| - CountOld(files, maxAge, now)
    ensures (forall i :: 0 <= i < |files| ==> Old(files[i], maxAge, now)) <==> CountOld(files, maxAge, now) == |files|
  {
    if files != [] {
      AllOld(files[1..], maxAge, now);
      assert (forall i :: 0 <= i < |files| ==> Old(files[i], maxAge, now))
        <==> Old(files[0], maxAge, now) && forall i :: 0 <= i < |files[1..]| ==> Old(files[1..][i], maxAge, now);
    }
  }

  /** Removing from the tail removes exactly the old entries if and only if those are at the tail. */
  lemma {:induction false} ExpiryExactIff(files: seq<FileEntry>, maxAge: int, now: int)
    ensures files[..|files| - CountOld(files, maxAge, now)] == KeepFresh(files, maxAge, now)
       <==> OldAtTail(files, maxAge, now)
  {
    AllOld(files, maxAge, now);
    if files != [] {
      var rest := files[1..];
      ExpiryExactIff(rest, maxAge, now);
      AllOld(rest, maxAge, now);
      OldAtTailFirst(files, maxAge, now);
      var n := CountOld(rest, maxAge, now);
      if Old(files[0], maxAge, now) {
        if n != |rest| {
          assert files[..|files| - (n + 1)][0] == files[0];
          FreshOnly(rest, maxAge, now);
          assert KeepFresh(files, maxAge, now)[0] == KeepFresh(rest, maxAge, now)[0];
        }
      } else {
        assert files[..|files| - n] == [files[0]] + rest[..|rest| - n];
      }
    }
  }

  lemma OldAtTailFirst(files: seq<FileEntry>, maxAge: int, now: int)
    requires files != []
    ensures OldAtTail(files, maxAge, now) <==>
            && OldAtTail(files[1..], maxAge, now)
            && (Old(files[0], maxAge, now) ==> forall i :: 0 <= i < |files[1..]| ==> Old(files[1..][i], maxAge, now))
  {
    var rest := files[1..];
    assert forall i :: 0 <= i < |rest| ==> rest[i] == files[i + 1];
    assert forall j :: 0 < j < |files| ==> files[j] == rest[j - 1];
  }

  lemma {:induction false} FreshOnly(files: seq<FileEntry>, maxAge: int, now: int)
    ensures forall f :: f in KeepFresh(files, maxAge, now) ==> !Old(f, maxAge, now)
  {
    if files != [] { FreshOnly(files[1..], maxAge, now); }
  }

  /** Entries are in order of last access. */
  ghost predicate Aged(files: seq<FileEntry>) {
    forall i, j :: 0 <= i < j < |files| ==> files[i].lastAccessed >= files[j].lastAccessed
  }
}
