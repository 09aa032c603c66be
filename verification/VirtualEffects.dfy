/** What one addition changes, path by path, and what a user may reach, said without the functions that define them. */
module VirtualEffects {
  import opened Wrappers
  import opened VirtualTree
  import opened VirtualTheorems

  const Everyone: CheckRole := (role: string) => true

  /** The file at a path, whoever may see it. */
  ghost function FileAt(d: Dir, path: string): Option<File> {
    Lookup(d, path, Everyone)
  }

  /** The directory at a path, whoever may see it. */
  ghost function DirAt(d: Dir, path: string): Option<Dir>
    decreases |path|
  {
    match SplitPath(path)
    case Bad => None
    case Leaf(name) => if HasDir(d, name) then Some(d.dirs[FindDir(d.dirs, name)].dir) else None
    case Below(name, rest) => if HasDir(d, name) then DirAt(d.dirs[FindDir(d.dirs, name)].dir, rest) else None
  }

  // ---------- strings and subdirectories ----------

  /** Where a path continues below a subdirectory. */
  lemma AtBelow(d: Dir, name: string, rest: string)
    requires Component(name) && HasDir(d, name)
    ensures var sub := d.dirs[FindDir(d.dirs, name)].dir;
            && DirAt(d, name + "/" + rest) == DirAt(sub, rest) && FileAt(d, name + "/" + rest) == FileAt(sub, rest)
  {
    if rest != "" && !EndsWithSlash(rest) {
      SplitBelow(name, rest);
    } else {
      assert EndsWithSlash(name + "/" + rest);
    }
  }

  lemma AtLeaf(d: Dir, name: string)
    requires Component(name)
    ensures DirAt(d, name) == if HasDir(d, name) then Some(d.dirs[FindDir(d.dirs, name)].dir) else None
    ensures FileAt(d, name) == if HasFile(d, name) then Some(d.files[FindFile(d.files, name)].file) else None
  {
    SplitLeaf(name);
  }

  /** A beginning of the path that ends where a component does. */
  predicate Ends(path: string, i: nat) {
    i <= |path| && (i < |path| ==> path[i] == '/')
  }

  lemma EndsBelow(name: string, rest: string, i: nat)
    requires Component(name) && Ends(name + "/" + rest, i)
    ensures i == |name| || i > |name|
    ensures i == |name| ==> (name + "/" + rest)[..i] == name
    ensures i > |name| ==>
              Ends(rest, i - |name| - 1) && (name + "/" + rest)[..i] == name + "/" + rest[..i - |name| - 1]
  {
    var path := name + "/" + rest;
    assert path == name + ("/" + rest);
    assert forall k :: 0 <= k < |name| ==> path[k] == name[k];
    if i > |name| {
      var j := i - |name| - 1;
      assert j < |rest| ==> path[i] == rest[j];
      assert path[..i] == name + "/" + rest[..j];
    }
  }

  lemma EndsAbove(name: string, rest: string, j: nat)
    requires Ends(rest, j)
    ensures Ends(name + "/" + rest, |name|) && Ends(name + "/" + rest, |name| + 1 + j)
    ensures (name + "/" + rest)[..|name|] == name
    ensures (name + "/" + rest)[..|name| + 1 + j] == name + "/" + rest[..j]
  {
    var path := name + "/" + rest;
    assert j < |rest| ==> path[|name| + 1 + j] == rest[j];
  }

  // ---------- which paths a user can reach ----------

  /** The user has every role that the directory at this path requires, if there is one. */
  ghost predicate MayEnter(d: Dir, path: string, role: CheckRole) {
    DirAt(d, path).Some? ==> forall r :: r in DirAt(d, path).value.roles ==> role(r)
  }

  /** ... and so for all directories on the way, the last one included. */
  ghost predicate MayReach(d: Dir, path: string, role: CheckRole) {
    forall i :: 0 <= i && Ends(path, i) ==> MayEnter(d, path[..i], role)
  }

  lemma ReachBelow(d: Dir, name: string, rest: string, role: CheckRole)
    requires Component(name) && HasDir(d, name)
    ensures var sub := d.dirs[FindDir(d.dirs, name)].dir;
            MayReach(d, name + "/" + rest, role) <==> CanAccess(sub, role) && MayReach(sub, rest, role)
  {
    var sub, path := d.dirs[FindDir(d.dirs, name)].dir, name + "/" + rest;
    AtLeaf(d, name);
    EndsAbove(name, rest, |rest|);
    if MayReach(d, path, role) {
      assert MayEnter(d, path[..|name|], role);
      forall j | 0 <= j && Ends(rest, j) ensures MayEnter(sub, rest[..j], role) {
        EndsAbove(name, rest, j);
        AtBelow(d, name, rest[..j]);
        assert MayEnter(d, path[..|name| + 1 + j], role);
      }
    }
    if CanAccess(sub, role) && MayReach(sub, rest, role) {
      forall i | 0 <= i && Ends(path, i) ensures MayEnter(d, path[..i], role) {
        EndsBelow(name, rest, i);
        if i > |name| {
          AtBelow(d, name, rest[..i - |name| - 1]);
          assert MayEnter(sub, rest[..i - |name| - 1], role);
        }
      }
    }
  }

  lemma ReachLeaf(d: Dir, name: string, role: CheckRole)
    requires Component(name)
    ensures MayReach(d, name, role) <==> MayEnter(d, name, role)
  {
    assert Ends(name, |name|) && name[..|name|] == name;
    forall i | 0 <= i && Ends(name, i) ensures i == |name| {}
  }

  /** The directory in which the last component of the path is; None for the one that is searched. */
  ghost function Containing(d: Dir, path: string): Option<Dir>
    decreases |path|
  {
    match SplitPath(path)
    case Below(name, rest) =>
      if !HasDir(d, name) then None
      else if SplitPath(rest).Below? then Containing(d.dirs[FindDir(d.dirs, name)].dir, rest)
      else Some(d.dirs[FindDir(d.dirs, name)].dir)
    case _ => None
  }

  /** What comes after the last slash. */
  function Basename(path: string): string
    decreases |path|
  {
    if SplitPath(path).Below? then Basename(SplitPath(path).rest) else path
  }

  /**
   Resolving a path finds what is there if and only if the user has all roles of all directories on the
   way. A directory is found as itself, a file with the directory that it is in.
   */
  lemma {:induction false} ResolvedIff(d: Dir, path: string, role: CheckRole)
    requires WellFormed(d)
    ensures var p := StripSlash(path);
            Resolve(d, path, role)
            == if !MayReach(d, p, role) || (FileAt(d, p).None? && DirAt(d, p).None?) then NotFound
               else if FileAt(d, p).None? then Found(DirAt(d, p), None, None)
               else Found(Containing(d, p), FileAt(d, p), Some(Basename(p)))
    decreases |path|
  {
    var p := StripSlash(path);
    SplitParts(p);
    match SplitPath(p)
    case Bad => {}
    case Leaf(name) => {
      NotBoth(d, name);
      AtLeaf(d, name);
      ReachLeaf(d, name, role);
    }
    case Below(name, rest) => {
      if HasDir(d, name) {
        var sub := d.dirs[FindDir(d.dirs, name)].dir;
        ReachBelow(d, name, rest, role);
        AtBelow(d, name, rest);
        ResolvedIff(sub, rest, role);
        if HasFile(sub, rest) {
          FileNamesAreComponents(sub, rest);
          ReachLeaf(sub, rest, role);
          NotBoth(sub, rest);
        }
      }
    }
  }

  // ---------- what an addition changes ----------

  /** The file has the data of the item. */
  predicate IsItem(f: File, item: Item) {
    && f.realPath == item.realPath && f.length == item.length
    && f.lastModified == item.lastModified && f.mediaType == item.mediaType
  }

  /** The file at q after adding the item at p: the new file, or the one that was there before. */
  ghost predicate FileEffect(d: Dir, d': Dir, added: bool, p: string, item: Item, q: string) {
    if added && q == p then FileAt(d', q).Some? && IsItem(FileAt(d', q).value, item)
    else FileAt(d', q) == FileAt(d, q)
  }

  /** Putting a subdirectory in place changes what is found below it only. */
  lemma PutFiles(d: Dir, name: string, sub: Dir, q: string)
    requires NamesOk(d) && Component(name) && !HasFile(d, name)
    ensures var d' := d.(dirs := Put(d.dirs, name, sub));
            HasDir(d', name) && d'.dirs[FindDir(d'.dirs, name)].dir == sub
    ensures FileAt(d.(dirs := Put(d.dirs, name, sub)), q)
         == if Enters(q, name) then FileAt(sub, SplitPath(q).rest) else FileAt(d, q)
    ensures DirAt(d.(dirs := Put(d.dirs, name, sub)), q)
         == if SplitPath(q) == Leaf(name) then Some(sub)
            else if Enters(q, name) then DirAt(sub, SplitPath(q).rest)
            else DirAt(d, q)
  {
    FindPut(d.dirs, name, sub, name);
    match SplitPath(q)
    case Bad => {}
    case Leaf(other) => { FindPut(d.dirs, name, sub, other); }
    case Below(other, _) => { FindPut(d.dirs, name, sub, other); }
  }

  /** The path goes on below the directory of this name. */
  predicate Enters(path: string, name: string) {
    SplitPath(path).Below? && SplitPath(path).dir == name
  }

  function Put(dirs: seq<DirEntry>, name: string, sub: Dir): seq<DirEntry> {
    var i := FindDir(dirs, name);
    if i < |dirs| then dirs[i := DirEntry(name, sub)] else dirs + [DirEntry(name, sub)]
  }

  /** The other subdirectories are found where they were. */
  lemma FindPut(dirs: seq<DirEntry>, name: string, sub: Dir, other: string)
    ensures var after := Put(dirs, name, sub);
            && (FindDir(after, other) < |after| <==> other == name || FindDir(dirs, other) < |dirs|)
            && (FindDir(after, other) < |after| ==>
                  after[FindDir(after, other)].dir == if other == name then sub else dirs[FindDir(dirs, other)].dir)
  {
    var after := Put(dirs, name, sub);
    var i := FindDir(dirs, name);
    assert after[i] == DirEntry(name, sub);
    assert forall k :: 0 <= k < |dirs| && k != i ==> after[k] == dirs[k];
    assert forall k :: 0 <= k < |dirs| ==> after[k].name == dirs[k].name;
    if other == name {
      FindIs(after, name, i);
    } else if FindDir(dirs, other) < |dirs| {
      FindIs(after, other, FindDir(dirs, other));
    }
  }

  lemma FindIs(dirs: seq<DirEntry>, name: string, i: nat)
    requires i < |dirs| && dirs[i].name == name && forall j :: 0 <= j < i ==> dirs[j].name != name
    ensures FindDir(dirs, name) == i
  {}

  lemma AddHereFiles(d: Dir, name: string, item: Item, q: string)
    requires NamesOk(d) && Component(name)
    ensures FileEffect(d, AddHere(d, name, item).dir, AddHere(d, name, item).ok, name, item, q)
  {
    SplitLeaf(name);
    if AddHere(d, name, item).ok {
      var files := AddHere(d, name, item).dir.files;
      assert forall k :: 0 <= k < |d.files| ==> files[k] == d.files[k];
      FindFileMore(d.files, files[|d.files|], name);
      if SplitPath(q).Leaf? { FindFileMore(d.files, files[|d.files|], SplitPath(q).name); }
    }
    SplitParts(q);
  }

  lemma {:induction false} FindFileMore(files: seq<FileEntry>, e: FileEntry, name: string)
    ensures FindFile(files + [e], name)
         == if FindFile(files, name) < |files| || e.name == name then FindFile(files, name) else |files| + 1
  {
    if files == [] {
      assert files + [e] == [e];
    } else {
      assert (files + [e])[1..] == files[1..] + [e];
      FindFileMore(files[1..], e, name);
    }
  }

  /**
   If the addition of a file succeeds then its path, and no other, leads to a file with the data of the
   item afterwards. Directories, and additions that fail, leave all files as they were.
   */
  lemma {:induction false} AddFileFiles(d: Dir, path: string, item: Item, q: string)
    requires WellFormed(d)
    ensures var a := AddFile(d, path, item);
            FileEffect(d, a.dir, a.ok && item.mediaType != "directory", path, item, q)
    decreases |path|
  {
    SplitParts(path);
    SplitParts(q);
    match SplitPath(path)
    case Bad => {}
    case Leaf(name) => {
      if item.mediaType != "directory" { AddHereFiles(d, name, item, q); }
      else { AddDirectoryFiles(d, name, item, q); }
    }
    case Below(name, rest) => {
      var inside := if SplitPath(q).Below? then SplitPath(q).rest else "";
      if HasDir(d, name) || !HasFile(d, name) {
        InsideOk(d, name, rest, item);
        AddFileFiles(Inside(d, name), rest, item, inside);
        AddedInside(d, path, item, q);
      }
    }
  }

  /** The subdirectory that an addition below it goes to. */
  ghost function Inside(d: Dir, name: string): Dir {
    if HasDir(d, name) then d.dirs[FindDir(d.dirs, name)].dir else NewDir(d, name)
  }

  lemma AddedInside(d: Dir, path: string, item: Item, q: string)
    requires NamesOk(d) && SplitPath(path).Below? && !HasFile(d, SplitPath(path).dir)
    requires var sub, rest := Inside(d, SplitPath(path).dir), SplitPath(path).rest;
             var r := AddFile(sub, rest, item);
             Enters(q, SplitPath(path).dir) ==>
               FileEffect(sub, r.dir, r.ok && item.mediaType != "directory", rest, item, SplitPath(q).rest)
    ensures var a := AddFile(d, path, item);
            FileEffect(d, a.dir, a.ok && item.mediaType != "directory", path, item, q)
  {
    SplitParts(path);
    SplitParts(q);
    var name, rest := SplitPath(path).dir, SplitPath(path).rest;
    var r := AddFile(Inside(d, name), rest, item);
    assert AddFile(d, path, item) == Added(r.ok, d.(dirs := Put(d.dirs, name, r.dir)));
    PutFiles(d, name, r.dir, q);
    if !HasDir(d, name) { Empty(NewDir(d, name), if Enters(q, name) then SplitPath(q).rest else ""); }
  }

  lemma Empty(d: Dir, path: string)
    requires d.files == [] && d.dirs == []
    ensures FileAt(d, path) == None && DirAt(d, path) == None
  {}

  lemma SameInside(d: Dir, e: Dir, path: string)
    requires d.files == e.files && d.dirs == e.dirs
    ensures FileAt(d, path) == FileAt(e, path) && DirAt(d, path) == DirAt(e, path)
  {}

  lemma AddDirectoryFiles(d: Dir, name: string, item: Item, q: string)
    requires WellFormed(d) && Component(name)
    ensures FileAt(AddDirectory(d, name, item).dir, q) == FileAt(d, q)
  {
    if AddDirectory(d, name, item).ok {
      var sub := AddedDir(d, name, item);
      PutFiles(d, name, sub, q);
      if Enters(q, name) { AddedIsEmpty(d, name, sub, SplitPath(q).rest); }
    }
  }

  /** The roles of the last directory on the path that is there already. */
  ghost function NearestRoles(d: Dir, path: string): set<string>
    decreases |path|
  {
    match SplitPath(path)
    case Below(name, rest) =>
      if HasDir(d, name) then NearestRoles(d.dirs[FindDir(d.dirs, name)].dir, rest) else d.roles
    case _ => d.roles
  }

  /**
   The directory at q after the addition at p. One that was there has its real path and roles still,
   unless it is the one that was added, which had no real path. One that is new is on the way to p and
   has the roles of the nearest old one; it has a real path, and roles of its own, only if it was added.
   */
  ghost predicate DirEffect(d: Dir, d': Dir, added: bool, p: string, item: Item, q: string) {
    DirChange(DirAt(d, q), DirAt(d', q), added && q == p, OnTheWay(p, q), NearestRoles(d, p), item)
  }

  predicate OnTheWay(p: string, q: string) {
    Ends(p, |q|) && p[..|q|] == q
  }

  predicate DirChange(was: Option<Dir>, now: Option<Dir>, added: bool, onTheWay: bool, nearest: set<string>,
                      item: Item) {
    && (added ==> now.Some? && now.value.realPath == RealPath(item.realPath))
    && (was.Some? ==> now.Some?)
    && (was.Some? && added ==> was.value.realPath.None? && now.value.roles == was.value.roles + item.roles)
    && (was.Some? && !added ==> now.value.realPath == was.value.realPath && now.value.roles == was.value.roles)
    && (was.None? && now.Some? ==> onTheWay)
    && (was.None? && added ==> now.value.roles == nearest + item.roles)
    && (was.None? && now.Some? && !added ==> now.value.realPath.None? && now.value.roles == nearest)
  }

  lemma {:induction false} AddFileDirs(d: Dir, path: string, item: Item, q: string)
    requires WellFormed(d)
    ensures var a := AddFile(d, path, item);
            DirEffect(d, a.dir, a.ok && item.mediaType == "directory", path, item, q)
    decreases |path|
  {
    SplitParts(path);
    match SplitPath(path)
    case Bad => {}
    case Leaf(name) => {
      if item.mediaType != "directory" { SameDirs(d, AddHere(d, name, item).dir, q); }
      else { AddDirectoryDirs(d, name, item, q); }
    }
    case Below(name, rest) => {
      var inside := if SplitPath(q).Below? then SplitPath(q).rest else "";
      if HasDir(d, name) || !HasFile(d, name) {
        InsideOk(d, name, rest, item);
        AddFileDirs(Inside(d, name), rest, item, inside);
        DirsInside(d, path, item, q);
      }
    }
  }

  lemma InsideOk(d: Dir, name: string, rest: string, item: Item)
    requires WellFormed(d) && (HasDir(d, name) || !HasFile(d, name))
    ensures !HasFile(d, name) && WellFormed(Inside(d, name))
    ensures var sub' := AddFile(Inside(d, name), rest, item).dir;
            sub'.roles == Inside(d, name).roles && sub'.realPath == Inside(d, name).realPath
  {
    NotBoth(d, name);
    assert WellFormed(Inside(d, name));
    AddKeepsWellFormed(Inside(d, name), rest, item);
  }

  lemma SameDirs(d: Dir, e: Dir, path: string)
    requires d.dirs == e.dirs
    ensures DirAt(d, path) == DirAt(e, path)
  {}

  lemma AddDirectoryDirs(d: Dir, name: string, item: Item, q: string)
    requires WellFormed(d) && Component(name)
    ensures var a := AddDirectory(d, name, item); DirEffect(d, a.dir, a.ok, name, item, q)
  {
    AtLeaf(d, name);
    SplitParts(q);
    if AddDirectory(d, name, item).ok {
      var sub := AddedDir(d, name, item);
      PutFiles(d, name, sub, q);
      if Enters(q, name) { AddedIsEmpty(d, name, sub, SplitPath(q).rest); }
    }
  }

  /** The directory that is added or amended. */
  lemma AddedDir(d: Dir, name: string, item: Item) returns (sub: Dir)
    requires Component(name) && AddDirectory(d, name, item).ok
    ensures AddDirectory(d, name, item).dir == d.(dirs := Put(d.dirs, name, sub)) && !HasFile(d, name)
    ensures sub.files == Inside(d, name).files && sub.dirs == Inside(d, name).dirs
    ensures DirChange(DirAt(d, name), Some(sub), true, true, d.roles, item)
  {
    AtLeaf(d, name);
    sub := AddDirectory(d, name, item).dir.dirs[FindDir(d.dirs, name)].dir;
  }

  lemma AddedIsEmpty(d: Dir, name: string, sub: Dir, rest: string)
    requires sub.files == Inside(d, name).files && sub.dirs == Inside(d, name).dirs
    ensures DirAt(sub, rest) == if HasDir(d, name) then DirAt(Inside(d, name), rest) else None
    ensures FileAt(sub, rest) == if HasDir(d, name) then FileAt(Inside(d, name), rest) else None
  {
    if HasDir(d, name) { SameInside(sub, Inside(d, name), rest); } else { Empty(sub, rest); }
  }

  lemma DirsInside(d: Dir, path: string, item: Item, q: string)
    requires NamesOk(d) && SplitPath(path).Below? && !HasFile(d, SplitPath(path).dir)
    requires var sub, rest := Inside(d, SplitPath(path).dir), SplitPath(path).rest;
             AddFile(sub, rest, item).dir.roles == sub.roles && AddFile(sub, rest, item).dir.realPath == sub.realPath
    requires var sub, rest := Inside(d, SplitPath(path).dir), SplitPath(path).rest;
             var r := AddFile(sub, rest, item);
             Enters(q, SplitPath(path).dir) ==>
               DirEffect(sub, r.dir, r.ok && item.mediaType == "directory", rest, item, SplitPath(q).rest)
    ensures var a := AddFile(d, path, item);
            DirEffect(d, a.dir, a.ok && item.mediaType == "directory", path, item, q)
  {
    SplitParts(path);
    SplitParts(q);
    var name, rest := SplitPath(path).dir, SplitPath(path).rest;
    var r := AddFile(Inside(d, name), rest, item);
    assert AddFile(d, path, item) == Added(r.ok, d.(dirs := Put(d.dirs, name, r.dir)));
    PutFiles(d, name, r.dir, q);
    if Enters(q, name) {
      StepInside(d, path, q);
    } else if q == name {
      EndsAbove(name, rest, |rest|);
    }
  }

  /** Below the subdirectory everything is as for the rest of the path. */
  lemma StepInside(d: Dir, path: string, q: string)
    requires SplitPath(path).Below? && Enters(q, SplitPath(path).dir)
    ensures var sub, rest, inner := Inside(d, SplitPath(path).dir), SplitPath(path).rest, SplitPath(q).rest;
            && (OnTheWay(rest, inner) ==> OnTheWay(path, q)) && (q == path <==> inner == rest)
            && DirAt(d, q) == DirAt(sub, inner) && NearestRoles(d, path) == NearestRoles(sub, rest)
  {
    SplitParts(path);
    SplitParts(q);
    var name, rest, inner := SplitPath(path).dir, SplitPath(path).rest, SplitPath(q).rest;
    if !HasDir(d, name) { Empty(NewDir(d, name), inner); }
    SameStart(name, rest, inner);
  }

  lemma SameStart(name: string, rest: string, inner: string)
    ensures OnTheWay(rest, inner) ==> OnTheWay(name + "/" + rest, name + "/" + inner)
    ensures name + "/" + rest == name + "/" + inner <==> rest == inner
  {
    if Ends(rest, |inner|) { EndsAbove(name, rest, |inner|); }
    assert (name + "/" + rest)[|name| + 1..] == rest && (name + "/" + inner)[|name| + 1..] == inner;
  }

  // ---------- when an addition succeeds ----------

  /** No component of the path is empty. */
  predicate Proper(path: string) {
    && path != "" && path[0] != '/' && path[|path| - 1] != '/'
    && forall i :: 0 <= i < |path| - 1 && path[i] == '/' ==> path[i + 1] != '/'
  }

  /** There is no file at the path, or at any beginning of it. */
  ghost predicate NoFileOn(d: Dir, path: string) {
    forall i :: 0 <= i && Ends(path, i) ==> FileAt(d, path[..i]).None?
  }

  lemma ProperBelow(name: string, rest: string)
    requires Component(name)
    ensures Proper(name + "/" + rest) <==> Proper(rest)
  {
    var path, n := name + "/" + rest, |name| + 1;
    assert forall i :: 0 <= i < |rest| ==> path[n + i] == rest[i];
    if Proper(path) {
      assert rest != "" && path[n - 1] == '/' && path[n] != '/';
      forall i | 0 <= i < |rest| - 1 && rest[i] == '/' ensures rest[i + 1] != '/' {
        assert path[n + i] == '/' && path[n + i + 1] != '/';
      }
    }
    if Proper(rest) {
      forall i | 0 <= i < |path| - 1 && path[i] == '/' ensures path[i + 1] != '/' {
        if i >= n { assert path[i] == rest[i - n] && path[i + 1] == rest[i - n + 1]; }
      }
    }
  }

  lemma NoFileBelow(d: Dir, name: string, rest: string)
    requires NamesOk(d) && Component(name)
    ensures NoFileOn(d, name + "/" + rest) <==> !HasFile(d, name) && NoFileOn(Inside(d, name), rest)
  {
    var sub, path := Inside(d, name), name + "/" + rest;
    AtLeaf(d, name);
    EndsAbove(name, rest, |rest|);
    if NoFileOn(d, path) {
      assert FileAt(d, path[..|name|]).None?;
      forall j | 0 <= j && Ends(rest, j) ensures FileAt(sub, rest[..j]).None? {
        EndsAbove(name, rest, j);
        InsideAt(d, name, rest[..j]);
        assert FileAt(d, path[..|name| + 1 + j]).None?;
      }
    }
    if !HasFile(d, name) && NoFileOn(sub, rest) {
      forall i | 0 <= i && Ends(path, i) ensures FileAt(d, path[..i]).None? {
        EndsBelow(name, rest, i);
        if i > |name| {
          InsideAt(d, name, rest[..i - |name| - 1]);
          assert FileAt(sub, rest[..i - |name| - 1]).None?;
        }
      }
    }
  }

  lemma InsideAt(d: Dir, name: string, rest: string)
    requires Component(name)
    ensures FileAt(d, name + "/" + rest) == FileAt(Inside(d, name), rest)
    ensures DirAt(d, name + "/" + rest) == DirAt(Inside(d, name), rest)
  {
    if HasDir(d, name) {
      AtBelow(d, name, rest);
    } else {
      Empty(NewDir(d, name), rest);
      if rest != "" && !EndsWithSlash(rest) {
        SplitBelow(name, rest);
      } else {
        assert EndsWithSlash(name + "/" + rest);
      }
    }
  }

  /**
   An addition succeeds if and only if no component of the path is empty, no file is in the way, and
   there is no directory at the path, or one without a real path if a directory is added.
   */
  lemma {:induction false} AddedIff(d: Dir, path: string, item: Item)
    requires WellFormed(d)
    ensures AddFile(d, path, item).ok <==>
            && Proper(path) && NoFileOn(d, path)
            && (DirAt(d, path).None? || (item.mediaType == "directory" && DirAt(d, path).value.realPath.None?))
    decreases |path|
  {
    SplitParts(path);
    match SplitPath(path)
    case Bad => {}
    case Leaf(name) => {
      AtLeaf(d, name);
      assert name[..|name|] == name && Ends(name, |name|);
      forall i | 0 <= i && Ends(name, i) ensures i == |name| {}
    }
    case Below(name, rest) => {
      ProperBelow(name, rest);
      NoFileBelow(d, name, rest);
      InsideAt(d, name, rest);
      if HasDir(d, name) || !HasFile(d, name) {
        InsideOk(d, name, rest, item);
        AddedIff(Inside(d, name), rest, item);
      }
    }
  }

  // ---------- what is in a tree that was built ----------

  /** One of the additions put this file there. */
  ghost predicate CameFrom(adds: seq<(string, Item)>, path: string, f: File) {
    exists k :: 0 <= k < |adds| && adds[k].0 == path && adds[k].1.mediaType != "directory" && IsItem(f, adds[k].1)
  }

  /** Every file in a tree was added at its path, with the data that it has. */
  lemma {:induction false} FilesWereAdded(d: Dir, adds: seq<(string, Item)>, path: string)
    requires Built(d, adds) && FileAt(d, path).Some?
    ensures CameFrom(adds, path, FileAt(d, path).value)
    decreases |adds|
  {
    if adds == [] {
      Empty(Root, path);
    } else {
      var n := |adds| - 1;
      var before :| Built(before, adds[..n]) && d == AddFile(before, adds[n].0, adds[n].1).dir;
      BuiltWellFormed(before, adds[..n]);
      AddFileFiles(before, adds[n].0, adds[n].1, path);
      if FileAt(before, path) == FileAt(d, path) {
        FilesWereAdded(before, adds[..n], path);
        var k :| 0 <= k < n && adds[..n][k].0 == path && adds[..n][k].1.mediaType != "directory"
                 && IsItem(FileAt(d, path).value, adds[..n][k].1);
        assert adds[k] == adds[..n][k];
      }
    }
  }

  // ---------- the paths that files and directories are given ----------

  /** The path, with or without a slash in front of it. */
  predicate Names(virtualPath: string, path: string) {
    virtualPath == path || virtualPath == "/" + path
  }

  function Under(at: string, name: string): string {
    if at == "" then name else at + "/" + name
  }

  /** The directory, and all that is in it, has been given the path that leads to it. */
  ghost predicate PathsOk(d: Dir, at: string)
    decreases d
  {
    && (if at == "" then d.virtualPath == "" else Names(d.virtualPath, at))
    && (forall i :: 0 <= i < |d.files| ==> Names(d.files[i].file.virtualPath, Under(at, d.files[i].name)))
    && (forall i :: 0 <= i < |d.dirs| ==> PathsOk(d.dirs[i].dir, Under(at, d.dirs[i].name)))
  }

  lemma UnderNames(virtualPath: string, at: string, name: string)
    requires if at == "" then virtualPath == "" else Names(virtualPath, at)
    ensures Names(virtualPath + "/" + name, Under(at, name))
  {
    if at != "" { assert "/" + at + "/" + name == "/" + (at + "/" + name); }
  }

  lemma UnderUnder(at: string, name: string, rest: string)
    requires name != ""
    ensures Under(Under(at, name), rest) == Under(at, name + "/" + rest)
  {
    if at != "" { assert at + "/" + name + "/" + rest == at + "/" + (name + "/" + rest); }
  }

  lemma PutPaths(d: Dir, at: string, name: string, sub: Dir)
    requires PathsOk(d, at) && PathsOk(sub, Under(at, name))
    ensures PathsOk(d.(dirs := Put(d.dirs, name, sub)), at)
  {
    var after := Put(d.dirs, name, sub);
    forall i | 0 <= i < |after| ensures PathsOk(after[i].dir, Under(at, after[i].name)) {
      assert i < |d.dirs| && i != FindDir(d.dirs, name) ==> after[i] == d.dirs[i];
    }
  }

  lemma {:induction false} AddKeepsPaths(d: Dir, at: string, path: string, item: Item)
    requires PathsOk(d, at)
    ensures PathsOk(AddFile(d, path, item).dir, at)
    decreases |path|
  {
    SplitParts(path);
    match SplitPath(path)
    case Bad => {}
    case Leaf(name) => {
      UnderNames(d.virtualPath, at, name);
      if item.mediaType == "directory" && AddDirectory(d, name, item).ok {
        var sub := AddDirectory(d, name, item).dir.dirs[FindDir(d.dirs, name)].dir;
        if HasDir(d, name) { SamePaths(Inside(d, name), sub, Under(at, name)); }
        PutPaths(d, at, name, sub);
        assert AddDirectory(d, name, item).dir == d.(dirs := Put(d.dirs, name, sub));
      }
    }
    case Below(name, rest) => {
      UnderNames(d.virtualPath, at, name);
      if HasDir(d, name) || !HasFile(d, name) {
        AddKeepsPaths(Inside(d, name), Under(at, name), rest, item);
        PutPaths(d, at, name, AddFile(Inside(d, name), rest, item).dir);
      }
    }
  }

  lemma SamePaths(d: Dir, e: Dir, at: string)
    requires PathsOk(d, at) && e.virtualPath == d.virtualPath && e.files == d.files && e.dirs == d.dirs
    ensures PathsOk(e, at)
  {}

  lemma {:induction false} FileNamed(d: Dir, at: string, path: string)
    requires PathsOk(d, at) && FileAt(d, path).Some?
    ensures Names(FileAt(d, path).value.virtualPath, Under(at, path))
    decreases |path|
  {
    SplitParts(path);
    if SplitPath(path).Below? {
      var name, rest := SplitPath(path).dir, SplitPath(path).rest;
      FileNamed(Inside(d, name), Under(at, name), rest);
      UnderUnder(at, name, rest);
    }
  }

  lemma {:induction false} BuiltPaths(d: Dir, adds: seq<(string, Item)>)
    requires Built(d, adds)
    ensures PathsOk(d, "")
    decreases |adds|
  {
    if adds != [] {
      var n := |adds| - 1;
      var before :| Built(before, adds[..n]) && d == AddFile(before, adds[n].0, adds[n].1).dir;
      BuiltPaths(before, adds[..n]);
      AddKeepsPaths(before, "", adds[n].0, adds[n].1);
    }
  }

  /**
   Every file in a tree that was built came from an addition at its path, has the data of that item, and
   knows its path, with or without a slash in front of it.
   */
  lemma BuiltFile(d: Dir, adds: seq<(string, Item)>, path: string)
    requires Built(d, adds) && FileAt(d, path).Some?
    ensures CameFrom(adds, path, FileAt(d, path).value)
    ensures Names(FileAt(d, path).value.virtualPath, path)
  {
    FilesWereAdded(d, adds, path);
    BuiltPaths(d, adds);
    FileNamed(d, "", path);
  }
}
