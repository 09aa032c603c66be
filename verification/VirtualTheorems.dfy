/** Resolving a path, listing all files and adding up sizes agree, for every user. */
module VirtualTheorems {
  import opened Wrappers
  import opened Words
  import opened VirtualTree

  // ---------- adding keeps the tree well formed ----------

  lemma {:induction false} LengthsJoin(files: seq<FileEntry>, e: FileEntry)
    ensures Lengths(files + [e]) == Lengths(files) + e.file.length
  {
    if files == [] {
      assert files + [e] == [e];
    } else {
      assert (files + [e])[1..] == files[1..] + [e];
      LengthsJoin(files[1..], e);
    }
  }

  /** One subdirectory is added or replaced by a well-formed one of the same name. */
  lemma PutDir(d: Dir, i: nat, name: string, sub: Dir)
    requires WellFormed(d) && i == FindDir(d.dirs, name) && Component(name) && WellFormed(sub)
    requires i == |d.dirs| ==> !HasFile(d, name)
    ensures WellFormed(d.(dirs := if i < |d.dirs| then d.dirs[i := DirEntry(name, sub)]
                                  else d.dirs + [DirEntry(name, sub)]))
  {
    var dirs := if i < |d.dirs| then d.dirs[i := DirEntry(name, sub)] else d.dirs + [DirEntry(name, sub)];
    var d' := d.(dirs := dirs);
    forall k, j | 0 <= k < j < |dirs| ensures dirs[k].name != dirs[j].name {
      assert j < |d.dirs| ==> d.dirs[k].name != d.dirs[j].name;
    }
    assert forall k :: 0 <= k < |d.dirs| ==> dirs[k].name == d.dirs[k].name;
    assert NamesOk(d');
  }

  lemma AddHereKeeps(d: Dir, name: string, item: Item)
    requires WellFormed(d) && Component(name)
    ensures WellFormed(AddHere(d, name, item).dir)
  {
    if AddHere(d, name, item).ok {
      var d' := AddHere(d, name, item).dir;
      LengthsJoin(d.files, d'.files[|d.files|]);
      AsLongSum(Lengths(d.files), item.length);
      assert d'.files == d.files + [d'.files[|d.files|]];
      assert NamesOk(d');
    }
  }

  lemma AddDirectoryKeeps(d: Dir, name: string, item: Item)
    requires WellFormed(d) && Component(name)
    ensures WellFormed(AddDirectory(d, name, item).dir)
  {
    var i := FindDir(d.dirs, name);
    if AddDirectory(d, name, item).ok {
      if i == |d.dirs| {
        var sub := Dir(d.virtualPath + "/" + name, RealPath(item.realPath), [], [], d.roles + item.roles, 0);
        assert WellFormed(sub);
        PutDir(d, i, name, sub);
      } else {
        var sub := d.dirs[i].dir;
        var sub' := sub.(realPath := RealPath(item.realPath), roles := sub.roles + item.roles);
        assert NamesOk(sub) && NamesOk(sub');
        PutDir(d, i, name, sub');
      }
    }
  }

  /** Adding keeps the tree well formed, whether it succeeds or not, and the roles of the directory itself. */
  lemma {:induction false} AddKeepsWellFormed(d: Dir, path: string, item: Item)
    requires WellFormed(d)
    ensures WellFormed(AddFile(d, path, item).dir) && AddFile(d, path, item).dir.roles == d.roles
    decreases |path|
  {
    SplitParts(path);
    match SplitPath(path)
    case Bad => {}
    case Leaf(name) => {
      AddHereKeeps(d, name, item);
      AddDirectoryKeeps(d, name, item);
    }
    case Below(name, rest) => {
      var i := FindDir(d.dirs, name);
      if i < |d.dirs| {
        AddKeepsWellFormed(d.dirs[i].dir, rest, item);
        PutDir(d, i, name, AddFile(d.dirs[i].dir, rest, item).dir);
      } else if !HasFile(d, name) {
        assert WellFormed(NewDir(d, name));
        AddKeepsWellFormed(NewDir(d, name), rest, item);
        PutDir(d, i, name, AddFile(NewDir(d, name), rest, item).dir);
      }
    }
  }

  /** Every tree that can be built is well formed, and its root is accessible to all. */
  lemma {:induction false} BuiltWellFormed(d: Dir, adds: seq<(string, Item)>)
    requires Built(d, adds)
    ensures WellFormed(d) && d.roles == {}
    decreases |adds|
  {
    if adds != [] {
      var last := adds[|adds| - 1];
      var before :| Built(before, adds[..|adds| - 1]) && d == AddFile(before, last.0, last.1).dir;
      BuiltWellFormed(before, adds[..|adds| - 1]);
      AddKeepsWellFormed(before, last.0, last.1);
    }
  }

  // ---------- looking up one file ----------

  /** The file at a path, if all directories on the way are accessible. */
  ghost function Lookup(d: Dir, path: string, role: CheckRole): Option<File>
    decreases |path|
  {
    match SplitPath(path)
    case Bad => None
    case Leaf(name) => if HasFile(d, name) then Some(d.files[FindFile(d.files, name)].file) else None
    case Below(name, rest) =>
      if HasDir(d, name) && CanAccess(d.dirs[FindDir(d.dirs, name)].dir, role)
      then Lookup(d.dirs[FindDir(d.dirs, name)].dir, rest, role)
      else None
  }

  lemma FileUnique(d: Dir, i: nat)
    requires NamesOk(d) && i < |d.files|
    ensures FindFile(d.files, d.files[i].name) == i
  {}

  lemma DirUnique(d: Dir, i: nat)
    requires NamesOk(d) && i < |d.dirs|
    ensures FindDir(d.dirs, d.dirs[i].name) == i
  {}

  lemma NotBoth(d: Dir, name: string)
    requires NamesOk(d)
    ensures HasFile(d, name) ==> !HasDir(d, name)
  {
    if HasFile(d, name) {
      var i := FindFile(d.files, name);
      assert forall j :: 0 <= j < |d.dirs| ==> d.dirs[j].name != d.files[i].name;
    }
  }

  lemma Regroup(prefix: string, name: string, rest: string)
    ensures prefix + name + "/" + rest == prefix + (name + "/" + rest)
  {}

  lemma FileNamesAreComponents(d: Dir, name: string)
    requires NamesOk(d) && HasFile(d, name)
    ensures SplitPath(name) == Leaf(name)
  {
    assert Component(d.files[FindFile(d.files, name)].name);
    SplitLeaf(name);
  }

  function FileOf(info: PathInfo): Option<File> {
    if info.Found? then info.file else None
  }

  /** resolvePath finds the file that is at the path without a trailing slash. */
  lemma {:induction false} ResolveIsLookup(d: Dir, path: string, role: CheckRole)
    requires WellFormed(d)
    ensures FileOf(Resolve(d, path, role)) == Lookup(d, StripSlash(path), role)
    decreases |path|
  {
    var p := StripSlash(path);
    SplitParts(p);
    match SplitPath(p)
    case Bad => {}
    case Leaf(name) => {
      NotBoth(d, name);
    }
    case Below(name, rest) => {
      if HasDir(d, name) {
        var sub := d.dirs[FindDir(d.dirs, name)].dir;
        if HasFile(sub, rest) { FileNamesAreComponents(sub, rest); }
        ResolveIsLookup(sub, rest, role);
      }
    }
  }

  // ---------- the listing ----------

  ghost predicate Listed(entries: seq<FileEntry>, path: string, f: File) {
    exists k :: 0 <= k < |entries| && entries[k] == FileEntry(path, f)
  }

  lemma ListedJoin(a: seq<FileEntry>, b: seq<FileEntry>, path: string, f: File)
    ensures Listed(a + b, path, f) <==> Listed(a, path, f) || Listed(b, path, f)
  {
    if Listed(a, path, f) {
      var k :| 0 <= k < |a| && a[k] == FileEntry(path, f);
      assert (a + b)[k] == FileEntry(path, f);
    }
    if Listed(b, path, f) {
      var k :| 0 <= k < |b| && b[k] == FileEntry(path, f);
      assert (a + b)[|a| + k] == FileEntry(path, f);
    }
  }

  lemma SamePrefix(prefix: string, p: string, q: string)
    requires prefix + p == prefix + q
    ensures p == q
  {
    assert (prefix + p)[|prefix|..] == p && (prefix + q)[|prefix|..] == q;
  }

  /** A key of a listing: what it is after the prefix, and the file found there. */
  ghost predicate KeyOf(d: Dir, prefix: string, role: CheckRole, key: string, f: File) {
    exists q :: key == prefix + q && Lookup(d, q, role) == Some(f)
  }

  /** What is in the listing can be looked up. */
  lemma {:induction false} ListedCanBeFound(d: Dir, prefix: string, role: CheckRole, key: string, f: File)
    requires WellFormed(d) && CanAccess(d, role) && Listed(Listing(d, prefix, role), key, f)
    ensures KeyOf(d, prefix, role, key, f)
    decreases d, 1
  {
    ListedJoin(FileList(d.files, prefix), DirList(d.dirs, prefix, role), key, f);
    if Listed(FileList(d.files, prefix), key, f) {
      var k :| 0 <= k < |d.files| && FileList(d.files, prefix)[k] == FileEntry(key, f);
      SplitLeaf(d.files[k].name);
      FileUnique(d, k);
      assert key == prefix + d.files[k].name && Lookup(d, d.files[k].name, role) == Some(f);
    } else {
      var i := InWhichDir(d, d.dirs, prefix, role, key, f);
      var q := FoundBelow(d, i, prefix, role, key, f);
    }
  }

  /** The subdirectory whose listing has the entry. */
  lemma {:induction false} InWhichDir(d: Dir, dirs: seq<DirEntry>, prefix: string, role: CheckRole, key: string,
                                      f: File)
    returns (i: nat)
    requires |dirs| <= |d.dirs| && dirs == d.dirs[|d.dirs| - |dirs|..] && Listed(DirList(dirs, prefix, role), key, f)
    ensures |d.dirs| - |dirs| <= i < |d.dirs|
            && Listed(Listing(d.dirs[i].dir, prefix + d.dirs[i].name + "/", role), key, f)
    decreases |dirs|
  {
    var first := Listing(dirs[0].dir, prefix + dirs[0].name + "/", role);
    ListedJoin(first, DirList(dirs[1..], prefix, role), key, f);
    if Listed(first, key, f) {
      i := |d.dirs| - |dirs|;
    } else {
      i := InWhichDir(d, dirs[1..], prefix, role, key, f);
    }
  }

  lemma {:induction false} FoundBelow(d: Dir, i: nat, prefix: string, role: CheckRole, key: string, f: File)
    returns (q: string)
    requires WellFormed(d) && i < |d.dirs|
    requires Listed(Listing(d.dirs[i].dir, prefix + d.dirs[i].name + "/", role), key, f)
    ensures key == prefix + q && Lookup(d, q, role) == Some(f) && SplitPath(q).Below?
            && SplitPath(q).dir == d.dirs[i].name
    decreases d, 0
  {
    var name, sub := d.dirs[i].name, d.dirs[i].dir;
    assert CanAccess(sub, role);
    ListedCanBeFound(sub, prefix + name + "/", role, key, f);
    var rest :| key == prefix + name + "/" + rest && Lookup(sub, rest, role) == Some(f);
    q := name + "/" + rest;
    LookupBelow(d, i, rest, role);
    Regroup(prefix, name, rest);
  }

  lemma LookupBelow(d: Dir, i: nat, rest: string, role: CheckRole)
    requires NamesOk(d) && i < |d.dirs| && CanAccess(d.dirs[i].dir, role) && Lookup(d.dirs[i].dir, rest, role).Some?
    ensures SplitPath(d.dirs[i].name + "/" + rest) == Below(d.dirs[i].name, rest)
    ensures Lookup(d, d.dirs[i].name + "/" + rest, role) == Lookup(d.dirs[i].dir, rest, role)
  {
    assert SplitPath(rest) != Bad;
    SplitBelow(d.dirs[i].name, rest);
    DirUnique(d, i);
  }

  /** What can be looked up is in the listing. */
  lemma {:induction false} FoundIsListed(d: Dir, prefix: string, role: CheckRole, q: string, f: File)
    requires WellFormed(d) && CanAccess(d, role) && Lookup(d, q, role) == Some(f)
    ensures Listed(Listing(d, prefix, role), prefix + q, f)
    decreases |q|
  {
    SplitParts(q);
    ListedJoin(FileList(d.files, prefix), DirList(d.dirs, prefix, role), prefix + q, f);
    match SplitPath(q)
    case Bad => {}
    case Leaf(name) => {
      assert FileList(d.files, prefix)[FindFile(d.files, name)] == FileEntry(prefix + q, f);
    }
    case Below(name, rest) => {
      var i := FindDir(d.dirs, name);
      FoundIsListed(d.dirs[i].dir, prefix + name + "/", role, rest, f);
      Regroup(prefix, name, rest);
      DirIsListed(d.dirs, i, prefix, role, prefix + q, f);
    }
  }

  lemma {:induction false} DirIsListed(dirs: seq<DirEntry>, i: nat, prefix: string, role: CheckRole, key: string,
                                       f: File)
    requires i < |dirs| && Listed(Listing(dirs[i].dir, prefix + dirs[i].name + "/", role), key, f)
    ensures Listed(DirList(dirs, prefix, role), key, f)
    decreases i
  {
    ListedJoin(Listing(dirs[0].dir, prefix + dirs[0].name + "/", role), DirList(dirs[1..], prefix, role), key, f);
    if i > 0 { DirIsListed(dirs[1..], i - 1, prefix, role, key, f); }
  }

  /** The listing of a directory has exactly the files that can be looked up from it. */
  lemma ListedIffFound(d: Dir, role: CheckRole, q: string, f: File)
    requires WellFormed(d) && CanAccess(d, role)
    ensures Listed(Listing(d, "", role), q, f) <==> Lookup(d, q, role) == Some(f)
  {
    if Listed(Listing(d, "", role), q, f) {
      ListedCanBeFound(d, "", role, q, f);
      var p :| q == "" + p && Lookup(d, p, role) == Some(f);
      assert "" + p == p;
    }
    if Lookup(d, q, role) == Some(f) {
      FoundIsListed(d, "", role, q, f);
      assert "" + q == q;
    }
  }

  /**
   In every tree that can be built, for every user: resolving a path gives a file exactly if the path
   without one trailing slash is listed, and it gives the listed file.
   */
  lemma ResolveAgreesWithListing(d: Dir, adds: seq<(string, Item)>, path: string, role: CheckRole, f: File)
    requires Built(d, adds)
    ensures FileOf(Resolve(d, path, role)) == Some(f) <==> Listed(Listing(d, "", role), StripSlash(path), f)
  {
    BuiltWellFormed(d, adds);
    ResolveIsLookup(d, path, role);
    ListedIffFound(d, role, StripSlash(path), f);
  }

  // ---------- every path is listed once ----------

  ghost predicate KeysDiffer(es: seq<FileEntry>) {
    forall i, j :: 0 <= i < j < |es| ==> es[i].name != es[j].name
  }

  lemma KeysDifferJoin(a: seq<FileEntry>, b: seq<FileEntry>)
    requires KeysDiffer(a) && KeysDiffer(b)
    requires forall i, j :: 0 <= i < |a| && 0 <= j < |b| ==> a[i].name != b[j].name
    ensures KeysDiffer(a + b)
  {}

  lemma {:induction false} ListingKeysDiffer(d: Dir, prefix: string, role: CheckRole)
    requires WellFormed(d)
    ensures KeysDiffer(Listing(d, prefix, role))
    decreases d, 1
  {
    if CanAccess(d, role) {
      var files, below := FileList(d.files, prefix), DirList(d.dirs, prefix, role);
      FileKeysDiffer(d, prefix);
      DirKeysDiffer(d, d.dirs, prefix, role);
      forall i, j | 0 <= i < |files| && 0 <= j < |below| ensures files[i].name != below[j].name {
        FileKeyIsNotBelow(d, i, below[j], prefix, role);
      }
      KeysDifferJoin(files, below);
    }
  }

  lemma FileKeysDiffer(d: Dir, prefix: string)
    requires NamesOk(d)
    ensures KeysDiffer(FileList(d.files, prefix))
  {
    forall i, j | 0 <= i < j < |d.files| ensures prefix + d.files[i].name != prefix + d.files[j].name {
      if prefix + d.files[i].name == prefix + d.files[j].name { SamePrefix(prefix, d.files[i].name, d.files[j].name); }
    }
  }

  lemma FileKeyIsNotBelow(d: Dir, i: nat, e: FileEntry, prefix: string, role: CheckRole)
    requires WellFormed(d) && i < |d.files| && Listed(DirList(d.dirs, prefix, role), e.name, e.file)
    ensures prefix + d.files[i].name != e.name
  {
    var k := InWhichDir(d, d.dirs, prefix, role, e.name, e.file);
    var q := FoundBelow(d, k, prefix, role, e.name, e.file);
    SplitLeaf(d.files[i].name);
    if prefix + d.files[i].name == e.name { SamePrefix(prefix, d.files[i].name, q); }
  }

  lemma {:induction false} DirKeysDiffer(d: Dir, dirs: seq<DirEntry>, prefix: string, role: CheckRole)
    requires WellFormed(d) && |dirs| <= |d.dirs| && dirs == d.dirs[|d.dirs| - |dirs|..]
    ensures KeysDiffer(DirList(dirs, prefix, role))
    decreases d, 0, |dirs|
  {
    if dirs != [] {
      var k := |d.dirs| - |dirs|;
      assert d.dirs[k] == dirs[0];
      var first, others := Listing(dirs[0].dir, prefix + dirs[0].name + "/", role), DirList(dirs[1..], prefix, role);
      ListingKeysDiffer(d.dirs[k].dir, prefix + dirs[0].name + "/", role);
      DirKeysDiffer(d, dirs[1..], prefix, role);
      forall i, j | 0 <= i < |first| && 0 <= j < |others| ensures first[i].name != others[j].name {
        OtherDirOtherKey(d, k, first[i], others[j], prefix, role);
      }
      KeysDifferJoin(first, others);
    }
  }

  lemma OtherDirOtherKey(d: Dir, k: nat, e: FileEntry, f: FileEntry, prefix: string, role: CheckRole)
    requires WellFormed(d) && k < |d.dirs|
    requires Listed(Listing(d.dirs[k].dir, prefix + d.dirs[k].name + "/", role), e.name, e.file)
    requires Listed(DirList(d.dirs[k + 1..], prefix, role), f.name, f.file)
    ensures e.name != f.name
  {
    var p := FoundBelow(d, k, prefix, role, e.name, e.file);
    var j := InWhichDir(d, d.dirs[k + 1..], prefix, role, f.name, f.file);
    var q := FoundBelow(d, j, prefix, role, f.name, f.file);
    assert d.dirs[k].name != d.dirs[j].name;
    if e.name == f.name { SamePrefix(prefix, p, q); }
  }

  // ---------- sizes ----------

  lemma {:induction false} LengthsConcat(a: seq<FileEntry>, b: seq<FileEntry>)
    ensures Lengths(a + b) == Lengths(a) + Lengths(b)
  {
    if a == [] {
      assert a + b == b;
    } else {
      assert (a + b)[1..] == a[1..] + b;
      LengthsConcat(a[1..], b);
    }
  }

  lemma {:induction false} FileListLengths(files: seq<FileEntry>, path: string)
    ensures Lengths(FileList(files, path)) == Lengths(files)
  {
    if files != [] {
      assert FileList(files, path)[1..] == FileList(files[1..], path);
      FileListLengths(files[1..], path);
    }
  }

  /** The lengths of all files a user may see, added up without a limit. */
  ghost function VisibleSize(d: Dir, role: CheckRole): int
    decreases d, 1
  {
    if !CanAccess(d, role) then 0 else Lengths(d.files) + VisibleSizes(d.dirs, role)
  }

  ghost function VisibleSizes(dirs: seq<DirEntry>, role: CheckRole): int
    decreases dirs, 0
  {
    if dirs == [] then 0 else VisibleSize(dirs[0].dir, role) + VisibleSizes(dirs[1..], role)
  }

  lemma AsLongOfTwo(a: int, b: int)
    ensures AsLong(AsLong(a) + AsLong(b)) == AsLong(a + b)
  {
    AsLongSum(a, AsLong(b));
    AsLongSum(b, a);
  }

  /** getTotalSize is the sum of the lengths of what the user may see, in 64 bits. */
  lemma {:induction false} TotalIsVisible(d: Dir, role: CheckRole)
    requires WellFormed(d)
    ensures TotalSize(d, role) == AsLong(VisibleSize(d, role))
    decreases d, 1
  {
    if CanAccess(d, role) {
      TotalsAreVisible(d, d.dirs, role);
      AsLongOfTwo(Lengths(d.files), VisibleSizes(d.dirs, role));
    }
  }

  lemma {:induction false} TotalsAreVisible(d: Dir, dirs: seq<DirEntry>, role: CheckRole)
    requires WellFormed(d) && |dirs| <= |d.dirs| && dirs == d.dirs[|d.dirs| - |dirs|..]
    ensures TotalSizes(dirs, role) == AsLong(VisibleSizes(dirs, role))
    decreases d, 0, |dirs|
  {
    if dirs != [] {
      assert d.dirs[|d.dirs| - |dirs|] == dirs[0];
      TotalIsVisible(d.dirs[|d.dirs| - |dirs|].dir, role);
      TotalsAreVisible(d, dirs[1..], role);
      AsLongOfTwo(VisibleSize(dirs[0].dir, role), VisibleSizes(dirs[1..], role));
    }
  }

  lemma {:induction false} VisibleIsListed(d: Dir, path: string, role: CheckRole)
    ensures VisibleSize(d, role) == Lengths(Listing(d, path, role))
    decreases d, 1
  {
    if CanAccess(d, role) {
      LengthsConcat(FileList(d.files, path), DirList(d.dirs, path, role));
      FileListLengths(d.files, path);
      VisiblesAreListed(d, d.dirs, path, role);
    }
  }

  lemma {:induction false} VisiblesAreListed(d: Dir, dirs: seq<DirEntry>, path: string, role: CheckRole)
    requires |dirs| <= |d.dirs| && dirs == d.dirs[|d.dirs| - |dirs|..]
    ensures VisibleSizes(dirs, role) == Lengths(DirList(dirs, path, role))
    decreases d, 0, |dirs|
  {
    if dirs != [] {
      assert d.dirs[|d.dirs| - |dirs|] == dirs[0];
      VisibleIsListed(d.dirs[|d.dirs| - |dirs|].dir, path + dirs[0].name + "/", role);
      VisiblesAreListed(d, dirs[1..], path, role);
      LengthsConcat(Listing(dirs[0].dir, path + dirs[0].name + "/", role), DirList(dirs[1..], path, role));
    }
  }

  /** The total size is the sum, in 64 bits, of the lengths of exactly the listed files. */
  lemma SizeIsSumOfListed(d: Dir, path: string, role: CheckRole)
    requires WellFormed(d)
    ensures TotalSize(d, role) == AsLong(Lengths(Listing(d, path, role)))
  {
    TotalIsVisible(d, role);
    VisibleIsListed(d, path, role);
  }

  /** Any tree that can be built: the size of what a user sees, and each path seen once. */
  lemma BuiltListing(d: Dir, adds: seq<(string, Item)>, role: CheckRole)
    requires Built(d, adds)
    ensures TotalSize(d, role) == AsLong(Lengths(Listing(d, "", role)))
    ensures KeysDiffer(Listing(d, "", role))
  {
    BuiltWellFormed(d, adds);
    SizeIsSumOfListed(d, "", role);
    ListingKeysDiffer(d, "", role);
  }

  // ---------- more roles show more ----------

  ghost predicate MoreRoles(p: CheckRole, q: CheckRole) {
    forall r :: p(r) ==> q(r)
  }

  lemma {:induction false} LookupMonotone(d: Dir, path: string, p: CheckRole, q: CheckRole)
    requires MoreRoles(p, q) && Lookup(d, path, p).Some?
    ensures Lookup(d, path, q) == Lookup(d, path, p)
    decreases |path|
  {
    match SplitPath(path)
    case Below(name, rest) => { LookupMonotone(d.dirs[FindDir(d.dirs, name)].dir, rest, p, q); }
    case _ => {}
  }

  /** A user with more roles resolves at least the same paths to the same files, and sees at least the same list. */
  lemma MoreRolesShowMore(d: Dir, adds: seq<(string, Item)>, path: string, f: File, p: CheckRole, q: CheckRole)
    requires Built(d, adds) && MoreRoles(p, q)
    ensures FileOf(Resolve(d, path, p)) == Some(f) ==> FileOf(Resolve(d, path, q)) == Some(f)
    ensures Listed(Listing(d, "", p), path, f) ==> Listed(Listing(d, "", q), path, f)
  {
    BuiltWellFormed(d, adds);
    ResolveIsLookup(d, path, p);
    ResolveIsLookup(d, path, q);
    ListedIffFound(d, p, path, f);
    ListedIffFound(d, q, path, f);
    if Lookup(d, StripSlash(path), p).Some? { LookupMonotone(d, StripSlash(path), p, q); }
    if Lookup(d, path, p).Some? { LookupMonotone(d, path, p, q); }
  }

  ghost predicate LengthsAtLeast(d: Dir, bound: int)
    decreases d
  {
    && (forall i :: 0 <= i < |d.files| ==> d.files[i].file.length >= bound)
    && forall i :: 0 <= i < |d.dirs| ==> LengthsAtLeast(d.dirs[i].dir, bound)
  }

  function Abs(n: int): nat {
    if n < 0 then -n else n
  }

  function Magnitudes(files: seq<FileEntry>): nat {
    if files == [] then 0 else Abs(files[0].file.length) + Magnitudes(files[1..])
  }

  /** The lengths of all files, negative ones counted as positive. */
  ghost function Magnitude(d: Dir): nat
    decreases d, 1
  {
    Magnitudes(d.files) + MagnitudesBelow(d.dirs)
  }

  ghost function MagnitudesBelow(dirs: seq<DirEntry>): nat
    decreases dirs, 0
  {
    if dirs == [] then 0 else Magnitude(dirs[0].dir) + MagnitudesBelow(dirs[1..])
  }

  lemma {:induction false} LengthsNonNegative(files: seq<FileEntry>)
    requires forall i :: 0 <= i < |files| ==> files[i].file.length >= 0
    ensures 0 <= Lengths(files) == Magnitudes(files)
  {
    if files != [] { LengthsNonNegative(files[1..]); }
  }

  lemma {:induction false} VisibleMonotone(d: Dir, p: CheckRole, q: CheckRole)
    requires LengthsAtLeast(d, 0) && MoreRoles(p, q)
    ensures 0 <= VisibleSize(d, p) <= VisibleSize(d, q) <= Magnitude(d)
    decreases d, 1
  {
    LengthsNonNegative(d.files);
    VisiblesMonotone(d, d.dirs, p, q);
  }

  lemma {:induction false} VisiblesMonotone(d: Dir, dirs: seq<DirEntry>, p: CheckRole, q: CheckRole)
    requires LengthsAtLeast(d, 0) && MoreRoles(p, q) && |dirs| <= |d.dirs| && dirs == d.dirs[|d.dirs| - |dirs|..]
    ensures 0 <= VisibleSizes(dirs, p) <= VisibleSizes(dirs, q) <= MagnitudesBelow(dirs)
    decreases d, 0, |dirs|
  {
    if dirs != [] {
      assert d.dirs[|d.dirs| - |dirs|] == dirs[0];
      VisibleMonotone(d.dirs[|d.dirs| - |dirs|].dir, p, q);
      VisiblesMonotone(d, dirs[1..], p, q);
    }
  }

  /** In every tree that can be built with lengths of at least `bound` that amount to at most `limit`. */
  ghost predicate TotalsGrow(bound: int, limit: int) {
    forall d, adds, p, q ::
      Built(d, adds) && LengthsAtLeast(d, bound) && Magnitude(d) <= limit && MoreRoles(p, q) ==>
        TotalSize(d, p) <= TotalSize(d, q)
  }

  // A file of length a for everybody, and one of length b in a directory that only members may enter.

  function TextFile(length: Long): Item {
    Item("", length, 0, "", {})
  }

  const Members: Item := Item("", 0, 0, "directory", {"member"})

  function TwoFileAdds(a: Long, b: Long): seq<(string, Item)> {
    [("f", TextFile(a)), ("m", Members), ("m/g", TextFile(b))]
  }

  function TwoFiles(a: Long, b: Long): Dir {
    Dir("", None, [FileEntry("f", File("/f", "", a, 0, ""))],
        [DirEntry("m", Dir("/m", None, [FileEntry("g", File("/m/g", "", b, 0, ""))], [], {"member"}, b))], {}, a)
  }

  /** The root after the first file, and after the directory as well. */
  function OneFile(a: Long): Dir {
    Root.(files := [FileEntry("f", File("/f", "", a, 0, ""))], size := a)
  }

  function OneFileOneDir(a: Long): Dir {
    OneFile(a).(dirs := [DirEntry("m", Dir("/m", None, [], [], {"member"}, 0))])
  }

  lemma AddFirstFile(a: Long)
    ensures AddFile(Root, "f", TextFile(a)).dir == OneFile(a)
  {
    SplitLeaf("f");
    assert "" + "/" + "f" == "/f";
  }

  lemma AddMembers(a: Long)
    ensures AddFile(OneFile(a), "m", Members).dir == OneFileOneDir(a)
  {
    SplitLeaf("m");
    assert "" + "/" + "m" == "/m";
    assert RealPath(Members.realPath) == None;
    assert OneFile(a).roles + Members.roles == {"member"};
    assert OneFile(a).files[1..] == [];
    assert !HasFile(OneFile(a), "m");
  }

  lemma AddInside(b: Long)
    ensures AddFile(Dir("/m", None, [], [], {"member"}, 0), "g", TextFile(b)).dir
         == Dir("/m", None, [FileEntry("g", File("/m/g", "", b, 0, ""))], [], {"member"}, b)
  {
    SplitLeaf("g");
    assert "/m" + "/" + "g" == "/m/g";
  }

  lemma AddSecondFile(a: Long, b: Long)
    ensures AddFile(OneFileOneDir(a), "m/g", TextFile(b)).dir == TwoFiles(a, b)
  {
    AddInside(b);
    SplitBelow("m", "g");
    assert "m" + "/" + "g" == "m/g";
    assert FindDir(OneFileOneDir(a).dirs, "m") == 0;
  }

  lemma OneFileBuilt(a: Long)
    ensures Built(OneFile(a), [("f", TextFile(a))])
  {
    AddFirstFile(a);
    BuiltNext(Root, [], "f", TextFile(a));
    assert [] + [("f", TextFile(a))] == [("f", TextFile(a))];
  }

  lemma OneFileOneDirBuilt(a: Long)
    ensures Built(OneFileOneDir(a), [("f", TextFile(a)), ("m", Members)])
  {
    OneFileBuilt(a);
    AddMembers(a);
    BuiltNext(OneFile(a), [("f", TextFile(a))], "m", Members);
    assert [("f", TextFile(a))] + [("m", Members)] == [("f", TextFile(a)), ("m", Members)];
  }

  lemma TwoFilesBuilt(a: Long, b: Long)
    ensures Built(TwoFiles(a, b), TwoFileAdds(a, b))
  {
    OneFileOneDirBuilt(a);
    AddSecondFile(a, b);
    BuiltNext(OneFileOneDir(a), [("f", TextFile(a)), ("m", Members)], "m/g", TextFile(b));
    assert [("f", TextFile(a)), ("m", Members)] + [("m/g", TextFile(b))] == TwoFileAdds(a, b);
  }

  lemma BuiltNext(d: Dir, adds: seq<(string, Item)>, path: string, item: Item)
    requires Built(d, adds)
    ensures Built(AddFile(d, path, item).dir, adds + [(path, item)])
  {
    var more := adds + [(path, item)];
    assert more[..|more| - 1] == adds && more[|more| - 1] == (path, item);
  }

  lemma TwoFilesTotal(a: Long, b: Long, role: CheckRole)
    ensures LengthsAtLeast(TwoFiles(a, b), if a < b then a else b) && Magnitude(TwoFiles(a, b)) == Abs(a) + Abs(b)
    ensures TotalSize(TwoFiles(a, b), role) == if role("member") then AsLong(a + b) else a
  {
    var d := TwoFiles(a, b);
    var sub := d.dirs[0].dir;
    assert d.dirs[1..] == [] && d.files[1..] == [] && sub.files[1..] == [] && sub.dirs == [];
    assert LengthsAtLeast(sub, b);
    assert Magnitude(sub) == Magnitudes(sub.files) + MagnitudesBelow([]) == Abs(b) + Magnitudes([]);
    assert MagnitudesBelow(d.dirs) == Magnitude(sub) + MagnitudesBelow([]);
    assert CanAccess(d, role) && (CanAccess(sub, role) <==> role("member"));
    assert TotalSize(sub, role) == if role("member") then b else 0;
    assert TotalSizes(d.dirs, role) == AsLong(TotalSize(sub, role) + TotalSizes([], role));
  }

  lemma {:induction false} NotGrowing(d: Dir, adds: seq<(string, Item)>, p: CheckRole, q: CheckRole, bound: int,
                                      limit: int)
    requires Built(d, adds) && LengthsAtLeast(d, bound) && Magnitude(d) <= limit && MoreRoles(p, q)
    requires TotalSize(d, p) > TotalSize(d, q)
    ensures !TotalsGrow(bound, limit)
  {}

  lemma {:induction false} TwoFilesShrink(a: Long, b: Long, bound: int, limit: int)
    requires AsLong(a + b) < a && bound <= a && bound <= b && Abs(a) + Abs(b) <= limit
    ensures !TotalsGrow(bound, limit)
  {
    var nobody, everybody := (r: string) => false, (r: string) => true;
    TwoFilesBuilt(a, b);
    TwoFilesTotal(a, b, nobody);
    TwoFilesTotal(a, b, everybody);
    AtLeastLess(TwoFiles(a, b), if a < b then a else b, bound);
    NotGrowing(TwoFiles(a, b), TwoFileAdds(a, b), nobody, everybody, bound, limit);
  }

  lemma {:induction false} AtLeastLess(d: Dir, bound: int, less: int)
    requires LengthsAtLeast(d, bound) && less <= bound
    ensures LengthsAtLeast(d, less)
    decreases d
  {
    forall i | 0 <= i < |d.dirs| ensures LengthsAtLeast(d.dirs[i].dir, less) {
      AtLeastLess(d.dirs[i].dir, bound, less);
    }
  }

  lemma {:induction false} NoWrap(d: Dir, adds: seq<(string, Item)>, p: CheckRole, q: CheckRole)
    requires Built(d, adds) && LengthsAtLeast(d, 0) && Magnitude(d) <= MaxLong && MoreRoles(p, q)
    ensures TotalSize(d, p) <= TotalSize(d, q)
  {
    BuiltWellFormed(d, adds);
    VisibleMonotone(d, p, q);
    TotalIsVisible(d, p);
    TotalIsVisible(d, q);
  }

  lemma {:induction false} GrowsWithin(limit: int)
    requires limit <= MaxLong
    ensures TotalsGrow(0, limit)
  {
    forall d, adds, p, q | Built(d, adds) && LengthsAtLeast(d, 0) && Magnitude(d) <= limit && MoreRoles(p, q)
      ensures TotalSize(d, p) <= TotalSize(d, q) {
      NoWrap(d, adds, p, q);
    }
  }

  /**
   Lengths are not checked when files are added, and the total is added up in 64 bits. More roles give
   at least the same total size in all trees that can be built if and only if negative lengths are kept
   out and all lengths together fit in a signed 64 bit number.
   */
  lemma TotalsGrowIff(bound: int, limit: int)
    requires bound <= 0 < limit
    ensures TotalsGrow(bound, limit) <==> bound == 0 && limit <= MaxLong
  {
    if bound < 0 { TwoFilesShrink(0, -1, bound, limit); }
    if limit > MaxLong { TwoFilesShrink(MaxLong, 1, bound, limit); }
    if bound == 0 && limit <= MaxLong { GrowsWithin(limit); }
  }

  /** It does happen with lengths that are not negative, in a tree that can be built: for members the sum wraps. */
  lemma {:induction false} OverflowShrinksTotal(a: Long, b: Long, role: CheckRole)
    requires a == MaxLong && b == 1
    ensures TotalSize(TwoFiles(a, b), role) == if role("member") then -MaxLong - 1 else MaxLong
  {
    TwoFilesTotal(a, b, role);
  }

  // ---------- are roles inherited? ----------

  /** Every directory requires all roles of the one above it. */
  ghost predicate RolesInherited(d: Dir)
    decreases d
  {
    forall i :: 0 <= i < |d.dirs| ==> d.roles <= d.dirs[i].dir.roles && RolesInherited(d.dirs[i].dir)
  }

  /**
   The addition gives an existing directory, which has no real path yet, a role that one of its
   subdirectories does not require.
   */
  ghost predicate Widens(d: Dir, path: string, item: Item)
    decreases |path|
  {
    match SplitPath(path)
    case Bad => false
    case Leaf(name) =>
      && item.mediaType == "directory" && !HasFile(d, name) && HasDir(d, name)
      && var sub := d.dirs[FindDir(d.dirs, name)].dir;
         sub.realPath.None? && exists i :: 0 <= i < |sub.dirs| && !(item.roles <= sub.dirs[i].dir.roles)
    case Below(name, rest) => HasDir(d, name) && Widens(d.dirs[FindDir(d.dirs, name)].dir, rest, item)
  }

  lemma PutInherited(d: Dir, i: nat, name: string, sub: Dir)
    requires RolesInherited(d) && i <= |d.dirs|
    ensures RolesInherited(d.(dirs := if i < |d.dirs| then d.dirs[i := DirEntry(name, sub)]
                                      else d.dirs + [DirEntry(name, sub)]))
            <==> d.roles <= sub.roles && RolesInherited(sub)
  {
    var dirs := if i < |d.dirs| then d.dirs[i := DirEntry(name, sub)] else d.dirs + [DirEntry(name, sub)];
    assert dirs[i].dir == sub;
    assert forall j :: 0 <= j < |dirs| && j != i ==> j < |d.dirs| && dirs[j] == d.dirs[j];
  }

  /** Amending a directory with these roles: it inherits still, its subdirectories need the new roles already. */
  lemma AmendInherited(sub: Dir, path: Option<string>, roles: set<string>)
    requires RolesInherited(sub)
    ensures RolesInherited(sub.(realPath := path, roles := sub.roles + roles))
            <==> forall i :: 0 <= i < |sub.dirs| ==> roles <= sub.dirs[i].dir.roles
  {
    var more := sub.(realPath := path, roles := sub.roles + roles);
    assert forall i :: 0 <= i < |sub.dirs| ==>
        (more.roles <= more.dirs[i].dir.roles <==> roles <= sub.dirs[i].dir.roles);
  }

  /**
   Roles of the parent are copied when a directory is created. An addition keeps them inherited
   throughout the tree if and only if it does not widen what an existing directory requires.
   */
  lemma {:induction false} InheritedIff(d: Dir, path: string, item: Item)
    requires WellFormed(d) && RolesInherited(d)
    ensures RolesInherited(AddFile(d, path, item).dir) <==> !Widens(d, path, item)
    decreases |path|
  {
    match SplitPath(path)
    case Bad => {}
    case Leaf(name) => {
      if item.mediaType == "directory" { AddDirectoryInherited(d, name, item); }
    }
    case Below(name, rest) => {
      var i := FindDir(d.dirs, name);
      if i < |d.dirs| {
        var sub := d.dirs[i].dir;
        AddKeepsWellFormed(sub, rest, item);
        InheritedIff(sub, rest, item);
        PutInherited(d, i, name, AddFile(sub, rest, item).dir);
      } else if !HasFile(d, name) {
        var sub := NewDir(d, name);
        assert NamesOk(sub) && WellFormed(sub) && RolesInherited(sub);
        AddKeepsWellFormed(sub, rest, item);
        InheritedIff(sub, rest, item);
        PutInherited(d, i, name, AddFile(sub, rest, item).dir);
      }
    }
  }

  lemma AddDirectoryInherited(d: Dir, name: string, item: Item)
    requires WellFormed(d) && RolesInherited(d)
    ensures RolesInherited(AddDirectory(d, name, item).dir) <==>
            !(&& !HasFile(d, name) && HasDir(d, name) && d.dirs[FindDir(d.dirs, name)].dir.realPath.None?
              && exists i :: 0 <= i < |d.dirs[FindDir(d.dirs, name)].dir.dirs|
                             && !(item.roles <= d.dirs[FindDir(d.dirs, name)].dir.dirs[i].dir.roles))
  {
    var i := FindDir(d.dirs, name);
    if AddDirectory(d, name, item).ok {
      if i == |d.dirs| {
        var sub := Dir(d.virtualPath + "/" + name, RealPath(item.realPath), [], [], d.roles + item.roles, 0);
        assert RolesInherited(sub);
        PutInherited(d, i, name, sub);
      } else {
        var sub := d.dirs[i].dir;
        AmendInherited(sub, RealPath(item.realPath), item.roles);
        PutInherited(d, i, name, sub.(realPath := RealPath(item.realPath), roles := sub.roles + item.roles));
      }
    }
  }

  const PlainDir: Item := Item("", 0, 0, "directory", {})

  /** The directory "a" with its subdirectory "b", after "a/b" has been added. */
  function Nested(roles: set<string>): Dir {
    Root.(dirs := [DirEntry("a", Dir("a", None, [], [DirEntry("b", Dir("a/b", None, [], [], {}, 0))], roles, 0))])
  }

  lemma AddInner()
    ensures AddFile(NewDir(Root, "a"), "b", PlainDir).dir == Nested({}).dirs[0].dir
  {
    SplitLeaf("b");
    assert NewDir(Root, "a") == Dir("a", None, [], [], {}, 0);
    assert "a" + "/" + "b" == "a/b" && RealPath("") == None;
    var none: set<string> := {};
    assert none + PlainDir.roles == none;
  }

  lemma NestedBuilt()
    ensures AddFile(Root, "a/b", PlainDir).dir == Nested({})
            && AddFile(Nested({}), "a", Members).dir == Nested({"member"})
  {
    AddInner();
    SplitLeaf("a");
    SplitBelow("a", "b");
    assert "a" + "/" + "b" == "a/b" && RealPath("") == None;
    var none: set<string> := {};
    assert none + Members.roles == {"member"};
  }

  /** It does happen: "a/b" is added first, then "a" with a role; the role is not required for "a/b". */
  lemma RoleNotInherited()
    ensures Built(Nested({"member"}), [("a/b", PlainDir), ("a", Members)])
    ensures Nested({"member"}).dirs[0].dir.roles == {"member"} && Nested({"member"}).dirs[0].dir.dirs[0].dir.roles == {}
    ensures !RolesInherited(Nested({"member"}))
  {
    NestedBuilt();
    BuiltNext(Root, [], "a/b", PlainDir);
    BuiltNext(Nested({}), [("a/b", PlainDir)], "a", Members);
    assert [] + [("a/b", PlainDir)] == [("a/b", PlainDir)];
    assert [("a/b", PlainDir)] + [("a", Members)] == [("a/b", PlainDir), ("a", Members)];
    var a := Nested({"member"}).dirs[0].dir;
    assert "member" in a.roles && "member" !in a.dirs[0].dir.roles;
    assert !RolesInherited(a);
  }
}
