/**
 The virtual directories as objects that are changed in place (virtual_directory
 VirtualDirectory.java), proved to do what VirtualTree defines.
 */
module VirtualDirectory {
  import opened Basics
  import opened Wrappers
  import opened Words
  import opened VirtualTree
  import opened VirtualTheorems

  /** The position of a name in a list, or the length of the list. */
  function IndexOf(names: seq<string>, name: string): (i: nat)
    ensures i <= |names| && (i < |names| ==> names[i] == name)
    ensures forall j :: 0 <= j < i ==> names[j] != name
  {
    if names == [] || names[0] == name then 0 else 1 + IndexOf(names[1..], name)
  }

  lemma {:induction false} IndexIsFindDir(names: seq<string>, dirs: seq<DirEntry>, name: string)
    requires |names| == |dirs| && forall i :: 0 <= i < |names| ==> names[i] == dirs[i].name
    ensures IndexOf(names, name) == FindDir(dirs, name)
  {
    if names != [] && names[0] != name { IndexIsFindDir(names[1..], dirs[1..], name); }
  }

  class VirtualDirectory {
    var virtualPath: string
    var realPath: Option<string>
    var files: seq<FileEntry>
    var names: seq<string>
    var directories: seq<VirtualDirectory>
    var requiredRoles: set<string>
    var sizeOfFiles: Long
    ghost var tree: Dir
    ghost var Repr: set<VirtualDirectory>

    ghost predicate Child(i: nat)
      requires i < |directories| == |names| == |tree.dirs|
      reads this, Repr
    {
      && directories[i] in Repr && directories[i].Repr <= Repr && this !in directories[i].Repr
      && directories[i] in directories[i].Repr
      && tree.dirs[i] == DirEntry(names[i], directories[i].tree)
    }

    /** The objects form a tree, and `tree` is its value. */
    ghost predicate Valid()
      reads this, Repr
      decreases tree
    {
      && this in Repr && |directories| == |names| == |tree.dirs|
      && tree == Dir(virtualPath, realPath, files, tree.dirs, requiredRoles, sizeOfFiles)
      && (forall i :: 0 <= i < |directories| ==> Child(i) && directories[i].Valid())
      && (forall i, j :: 0 <= i < j < |directories| ==> directories[i].Repr !! directories[j].Repr)
    }

    /** A root or a new subdirectory. */
    constructor (virtualPath: string, realPath: Option<string>, roles: set<string>)
      ensures Valid() && Repr == {this} && tree == Dir(virtualPath, realPath, [], [], roles, 0)
    {
      this.virtualPath, this.realPath := virtualPath, realPath;
      files, names, directories := [], [], [];
      requiredRoles := roles;
      sizeOfFiles := 0;
      tree := Dir(virtualPath, realPath, [], [], roles, 0);
      Repr := {this};
    }

    lemma NamesAgree(name: string)
      requires Valid()
      ensures IndexOf(names, name) == FindDir(tree.dirs, name)
    {
      forall i | 0 <= i < |directories| ensures names[i] == tree.dirs[i].name { assert Child(i); }
      IndexIsFindDir(names, tree.dirs, name);
    }

    /** Puts a new subdirectory behind the others. */
    method PutDirectory(name: string, sub: VirtualDirectory)
      requires Valid() && sub.Valid() && sub.Repr !! Repr
      modifies this
      ensures Valid() && Repr == old(Repr) + sub.Repr
      ensures tree == old(tree).(dirs := old(tree).dirs + [DirEntry(name, sub.tree)])
      ensures names == old(names) + [name] && directories == old(directories) + [sub]
      ensures realPath == old(realPath) && requiredRoles == old(requiredRoles)
    {
      names := names + [name];
      directories := directories + [sub];
      Repr := Repr + sub.Repr;
      tree := tree.(dirs := tree.dirs + [DirEntry(name, sub.tree)]);
    }

    /** addFile. The directories that are created on the way stay even if the file cannot be added. */
    method AddItem(path: string, item: Item) returns (ok: bool)
      requires Valid()
      modifies Repr
      ensures Valid() && old(Repr) <= Repr && fresh(Repr - old(Repr))
      ensures Added(ok, tree) == AddFile(old(tree), path, item)
      decreases |path|, 1
    {
      match SplitPath(path)
      case Bad => ok := false;
      case Leaf(name) =>
        if item.mediaType == "directory" { ok := AddSubdirectory(name, item); } else { ok := AddToFiles(name, item); }
      case Below(name, rest) =>
        NamesAgree(name);
        var i := IndexOf(names, name);
        if i == |names| {
          if FindFile(files, name) < |files| { return false; }
          var path := if virtualPath != "" then virtualPath + "/" + name else name;
          var sub := new VirtualDirectory(path, None, requiredRoles);
          PutDirectory(name, sub);
        }
        ok := Descend(i, rest, item);
    }

    /** Adds to one subdirectory. */
    method Descend(i: nat, rest: string, item: Item) returns (ok: bool)
      requires Valid() && i < |directories|
      modifies Repr
      ensures Valid() && old(Repr) <= Repr && fresh(Repr - old(Repr))
      ensures ok == AddFile(old(tree).dirs[i].dir, rest, item).ok
      ensures tree == old(tree).(dirs :=
                        old(tree).dirs[i := DirEntry(old(names[i]), AddFile(old(tree).dirs[i].dir, rest, item).dir)])
      decreases |rest|, 2
    {
      assert Child(i);
      ok := directories[i].AddItem(rest, item);
      Repr := Repr + directories[i].Repr;
      tree := tree.(dirs := tree.dirs[i := DirEntry(names[i], directories[i].tree)]);
    }

    /** A directory in this directory. */
    method AddSubdirectory(name: string, item: Item) returns (ok: bool)
      requires Valid()
      modifies Repr
      ensures Valid() && old(Repr) <= Repr && fresh(Repr - old(Repr))
      ensures Added(ok, tree) == AddDirectory(old(tree), name, item)
    {
      if FindFile(files, name) < |files| { return false; }
      NamesAgree(name);
      var i := IndexOf(names, name);
      if i == |names| {
        var sub := new VirtualDirectory(virtualPath + "/" + name, RealPath(item.realPath), requiredRoles + item.roles);
        PutDirectory(name, sub);
        ok := true;
      } else {
        ok := Amend(i, item);
      }
    }

    /** An existing subdirectory gets a real path, once only, and more roles. */
    method Amend(i: nat, item: Item) returns (ok: bool)
      requires Valid() && i < |directories|
      modifies Repr
      ensures Valid() && Repr == old(Repr) && names == old(names)
      ensures var sub := old(tree).dirs[i].dir;
        && ok == sub.realPath.None?
        && tree == if !ok then old(tree) else old(tree).(dirs := old(tree).dirs[i := DirEntry(names[i],
                     sub.(realPath := RealPath(item.realPath), roles := sub.roles + item.roles))])
    {
      assert Child(i);
      ok := directories[i].SetPathAndRoles(item);
      tree := tree.(dirs := tree.dirs[i := DirEntry(names[i], directories[i].tree)]);
    }

    method SetPathAndRoles(item: Item) returns (ok: bool)
      requires Valid()
      modifies this
      ensures Valid() && Repr == old(Repr) && ok == old(realPath).None?
      ensures tree == if !ok then old(tree)
                      else old(tree).(realPath := RealPath(item.realPath), roles := old(tree).roles + item.roles)
    {
      if realPath.Some? { return false; }
      realPath := RealPath(item.realPath);
      requiredRoles := requiredRoles + item.roles;
      tree := tree.(realPath := realPath, roles := requiredRoles);
      ok := true;
    }

    /** A file in this directory. */
    method AddToFiles(name: string, item: Item) returns (ok: bool)
      requires Valid()
      modifies this
      ensures Valid() && Repr == old(Repr)
      ensures Added(ok, tree) == AddHere(old(tree), name, item)
    {
      NamesAgree(name);
      if FindFile(files, name) < |files| { return false; }
      if IndexOf(names, name) < |names| { return false; }
      var file := File(virtualPath + "/" + name, item.realPath, item.length, item.lastModified, item.mediaType);
      files := files + [FileEntry(name, file)];
      sizeOfFiles := AsLong(sizeOfFiles + file.length);
      tree := tree.(files := files, size := sizeOfFiles);
      ok := true;
    }

    // ---------- queries ----------

    method MayEnter(role: CheckRole) returns (b: bool)
      requires Valid()
      ensures b == CanAccess(tree, role)
    {
      var left := requiredRoles;
      while left != {}
        invariant left <= requiredRoles && forall r :: r in requiredRoles - left ==> role(r)
        decreases |left|
      {
        var r :| r in left;
        if !role(r) { return false; }
        left := left - {r};
      }
      return true;
    }

    /** resolvePath: a directory and possibly a file in it. */
    method ResolvePath(path: string, role: CheckRole)
      returns (found: bool, dir: VirtualDirectory?, file: Option<File>, basename: Option<string>)
      requires Valid()
      ensures found <==> Resolve(tree, path, role).Found?
      ensures found ==> Resolve(tree, path, role).file == file && Resolve(tree, path, role).basename == basename
      ensures found ==> match Resolve(tree, path, role).dir
                        case None => dir == null
                        case Some(d) => dir != null && dir in Repr && dir.Valid() && dir.tree == d
      decreases |path|
    {
      found, dir, file, basename := false, null, None, None;
      var p := StripSlash(path);
      match SplitPath(p)
      case Bad => return;
      case Leaf(name) =>
        NamesAgree(name);
        var i, k := IndexOf(names, name), FindFile(files, name);
        if i == |names| && k == |files| { return; }
        if i < |names| {
          assert Child(i);
          var enter := directories[i].MayEnter(role);
          if !enter { return; }
          dir := directories[i];
        }
        found := true;
        if k < |files| { file, basename := Some(files[k].file), Some(name); }
      case Below(name, rest) =>
        NamesAgree(name);
        var i := IndexOf(names, name);
        if i == |names| { return; }
        assert Child(i);
        var sub := directories[i];
        var enter := sub.MayEnter(role);
        if !enter { return; }
        var k := FindFile(sub.files, rest);
        if k < |sub.files| { return true, sub, Some(sub.files[k].file), Some(rest); }
        found, dir, file, basename := sub.ResolvePath(rest, role);
    }

    /** getTotalSize. */
    method GetTotalSize(role: CheckRole) returns (size: Long)
      requires Valid()
      ensures size == TotalSize(tree, role)
      decreases tree
    {
      size := 0;
      var enter := MayEnter(role);
      if enter {
        size := AsLong(size + sizeOfFiles);
        var i := 0;
        while i < |directories|
          invariant 0 <= i <= |directories|
          invariant SumTo(size, tree.dirs[i..], role, TotalSize(tree, role))
        {
          assert Child(i);
          assert tree.dirs[i..][0] == tree.dirs[i] && tree.dirs[i..][1..] == tree.dirs[i + 1..];
          var more := directories[i].GetTotalSize(role);
          SumNext(size, tree.dirs[i..], role, TotalSize(tree, role), more);
          size := AsLong(size + more);
          i := i + 1;
        }
        assert tree.dirs[|directories|..] == [];
        assert SumTo(size, [], role, TotalSize(tree, role));
      }
    }

    /** getAllFilesRecursive. If all paths are different, each file gets an entry of its own, in order. */
    method GetAllFilesRecursive(path: string, role: CheckRole, result: FileMap)
      requires Valid() && KeysDiffer(result.entries + Listing(tree, path, role))
      modifies result
      ensures result.entries == old(result.entries) + Listing(tree, path, role)
      decreases tree
    {
      var enter := MayEnter(role);
      if enter {
        ghost var own, below := FileList(files, path), DirList(tree.dirs, path, role);
        assert result.entries + Listing(tree, path, role) == result.entries + own + below;
        PutFiles(path, result, below);
        var i := 0;
        while i < |directories|
          invariant 0 <= i <= |directories|
          invariant result.entries + DirList(tree.dirs[i..], path, role)
                    == old(result.entries) + Listing(tree, path, role)
        {
          assert Child(i);
          assert tree.dirs[i..][0] == tree.dirs[i] && tree.dirs[i..][1..] == tree.dirs[i + 1..];
          ghost var first := Listing(tree.dirs[i].dir, path + names[i] + "/", role);
          ghost var others := DirList(tree.dirs[i + 1..], path, role);
          Associate(result.entries, first, others);
          DifferPrefix(result.entries + first, others);
          directories[i].GetAllFilesRecursive(path + names[i] + "/", role, result);
          i := i + 1;
        }
      }
    }

    /** The files of this directory. */
    method PutFiles(path: string, result: FileMap, ghost below: seq<FileEntry>)
      requires Valid() && KeysDiffer(result.entries + FileList(files, path) + below)
      modifies result
      ensures result.entries == old(result.entries) + FileList(files, path)
    {
      ghost var own := FileList(files, path);
      var i := 0;
      while i < |files|
        invariant 0 <= i <= |files|
        invariant result.entries == old(result.entries) + own[..i]
      {
        assert own[i] == FileEntry(path + files[i].name, files[i].file);
        NewKey(old(result.entries), own, below, i);
        result.Put(path + files[i].name, files[i].file);
        assert own[..i + 1] == own[..i] + [own[i]];
        i := i + 1;
      }
      assert own[..|files|] == own;
    }

    /** getAllFiles. */
    method GetAllFiles(role: CheckRole) returns (result: FileMap)
      requires Valid() && WellFormed(tree)
      ensures fresh(result) && result.entries == Listing(tree, "", role)
    {
      result := new FileMap();
      ListingKeysDiffer(tree, "", role);
      assert [] + Listing(tree, "", role) == Listing(tree, "", role);
      GetAllFilesRecursive("", role, result);
    }
  }

  /** With what is still to be added, the sum is the total. */
  ghost predicate SumTo(size: Long, dirs: seq<DirEntry>, role: CheckRole, total: Long) {
    AsLong(size + TotalSizes(dirs, role)) == total
  }

  lemma {:induction false} SumNext(size: Long, dirs: seq<DirEntry>, role: CheckRole, total: Long, more: Long)
    requires dirs != [] && SumTo(size, dirs, role, total) && more == TotalSize(dirs[0].dir, role)
    ensures SumTo(AsLong(size + more), dirs[1..], role, total)
  {
    AddInTurn(size, more, TotalSizes(dirs[1..], role));
  }

  lemma AddInTurn(size: int, more: int, rest: int)
    ensures AsLong(size + AsLong(more + rest)) == AsLong(AsLong(size + more) + rest)
  {
    AsLongSum(size + more, rest);
    AsLongSum(more + rest, size);
    assert AsLong(more + rest) + size == size + AsLong(more + rest);
  }

  /** A map that keeps its keys in the order in which they were added. */
  class FileMap {
    var entries: seq<FileEntry>

    constructor ()
      ensures entries == []
    {
      entries := [];
    }

    method Put(name: string, file: File)
      modifies this
      ensures var i := FindFile(old(entries), name);
        entries == if i < |old(entries)| then old(entries)[i := FileEntry(name, file)]
                   else old(entries) + [FileEntry(name, file)]
    {
      var i := FindFile(entries, name);
      if i < |entries| {
        entries := entries[i := FileEntry(name, file)];
      } else {
        entries := entries + [FileEntry(name, file)];
      }
    }
  }

  lemma DifferPrefix(a: seq<FileEntry>, b: seq<FileEntry>)
    requires KeysDiffer(a + b)
    ensures KeysDiffer(a)
  {
    forall i, j | 0 <= i < j < |a| ensures a[i].name != a[j].name {
      assert (a + b)[i].name != (a + b)[j].name;
    }
  }

  /** The key of the next file is not among those put before. */
  lemma NewKey(before: seq<FileEntry>, own: seq<FileEntry>, below: seq<FileEntry>, i: nat)
    requires KeysDiffer(before + own + below) && i < |own|
    ensures FindFile(before + own[..i], own[i].name) == |before + own[..i]|
  {
    var all, done := before + own + below, before + own[..i];
    forall k | 0 <= k < |done| ensures done[k].name != own[i].name {
      assert all[k] == done[k] && all[|before| + i] == own[i];
      assert all[k].name != all[|before| + i].name;
    }
  }
}
