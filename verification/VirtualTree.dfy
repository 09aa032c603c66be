/**
 The tree of virtual directories as a value: adding files, resolving paths, listing all files and
 adding up their sizes (virtual_directory VirtualDirectory.java). Directories may require roles.
 */
module VirtualTree {
  import opened Wrappers
  import opened Words
  import Text

  datatype File = File(virtualPath: string, realPath: string, length: Long, lastModified: int, mediaType: string)

  datatype FileEntry = FileEntry(name: string, file: File)

  datatype DirEntry = DirEntry(name: string, dir: Dir)

  /** Files and subdirectories are listed in the order in which they were added. */
  datatype Dir = Dir(virtualPath: string, realPath: Option<string>, files: seq<FileEntry>, dirs: seq<DirEntry>,
                     roles: set<string>, size: Long)

  /** What is to be added. */
  datatype Item = Item(realPath: string, length: Long, lastModified: int, mediaType: string, roles: set<string>)

  /** Which roles the user has. */
  type CheckRole = string -> bool

  predicate CanAccess(d: Dir, role: CheckRole) {
    forall r :: r in d.roles ==> role(r)
  }

  // ---------- paths ----------

  datatype Split = Bad | Leaf(name: string) | Below(dir: string, rest: string)

  /** Position of the first slash, or the length of the path. */
  function FirstSlash(path: string): (i: nat)
    ensures i <= |path| && (i < |path| ==> path[i] == '/')
    ensures forall j :: 0 <= j < i ==> path[j] != '/'
  {
    if path == "" || path[0] == '/' then 0 else 1 + FirstSlash(path[1..])
  }

  predicate EndsWithSlash(path: string) {
    path != "" && path[|path| - 1] == '/'
  }

  function SplitPath(path: string): (s: Split)
    ensures s.Below? ==> |s.rest| < |path|
  {
    if path == "" || path[0] == '/' || EndsWithSlash(path) then Bad
    else if FirstSlash(path) == |path| then Leaf(path)
    else Below(path[..FirstSlash(path)], path[FirstSlash(path) + 1..])
  }

  function StripSlash(path: string): string {
    if EndsWithSlash(path) then path[..|path| - 1] else path
  }

  /** The name of one file or directory. */
  predicate Component(name: string) {
    name != "" && forall i :: 0 <= i < |name| ==> name[i] != '/'
  }

  lemma FirstSlashIs(path: string, i: nat)
    requires i <= |path| && (i < |path| ==> path[i] == '/') && forall j :: 0 <= j < i ==> path[j] != '/'
    ensures FirstSlash(path) == i
  {}

  lemma SplitLeaf(name: string)
    requires Component(name)
    ensures SplitPath(name) == Leaf(name)
  {
    FirstSlashIs(name, |name|);
  }

  lemma SplitBelow(name: string, rest: string)
    requires Component(name) && rest != "" && !EndsWithSlash(rest)
    ensures SplitPath(name + "/" + rest) == Below(name, rest)
  {
    var path := name + "/" + rest;
    FirstSlashIs(path, |name|);
    assert path[..|name|] == name && path[|name| + 1..] == rest;
  }

  /** What a path consists of. */
  lemma SplitParts(path: string)
    ensures SplitPath(path).Leaf? ==> SplitPath(path).name == path && Component(path)
    ensures SplitPath(path).Below? ==>
              && Component(SplitPath(path).dir) && path == SplitPath(path).dir + "/" + SplitPath(path).rest
              && SplitPath(path).rest != "" && !EndsWithSlash(SplitPath(path).rest)
  {
    var s := SplitPath(path);
    if s.Below? {
      var i := FirstSlash(path);
      assert path == path[..i] + [path[i]] + path[i + 1..];
      assert |path| > i + 1;
      assert s.rest[|s.rest| - 1] == path[|path| - 1];
    }
  }

  // ---------- entries ----------

  function FindFile(files: seq<FileEntry>, name: string): (i: nat)
    ensures i <= |files| && (i < |files| ==> files[i].name == name)
    ensures forall j :: 0 <= j < i ==> files[j].name != name
  {
    if files == [] || files[0].name == name then 0 else 1 + FindFile(files[1..], name)
  }

  function FindDir(dirs: seq<DirEntry>, name: string): (i: nat)
    ensures i <= |dirs| && (i < |dirs| ==> dirs[i].name == name)
    ensures forall j :: 0 <= j < i ==> dirs[j].name != name
  {
    if dirs == [] || dirs[0].name == name then 0 else 1 + FindDir(dirs[1..], name)
  }

  predicate HasFile(d: Dir, name: string) {
    FindFile(d.files, name) < |d.files|
  }

  predicate HasDir(d: Dir, name: string) {
    FindDir(d.dirs, name) < |d.dirs|
  }

  // ---------- adding ----------

  /** Nothing but white space means that there is no path. */
  function RealPath(path: string): Option<string> {
    if Text.Trim(path) == "" then None else Some(Text.Trim(path))
  }

  /** The result of adding: whether it succeeded, and the directory afterwards, which may have changed even if not. */
  datatype Added = Added(ok: bool, dir: Dir)

  function AddDirectory(d: Dir, name: string, item: Item): Added {
    var i := FindDir(d.dirs, name);
    if HasFile(d, name) then Added(false, d)
    else if i == |d.dirs| then
      var sub := Dir(d.virtualPath + "/" + name, RealPath(item.realPath), [], [], d.roles + item.roles, 0);
      Added(true, d.(dirs := d.dirs + [DirEntry(name, sub)]))
    else
      var sub := d.dirs[i].dir;
      if sub.realPath.Some? then Added(false, d)
      else
        var sub' := sub.(realPath := RealPath(item.realPath), roles := sub.roles + item.roles);
        Added(true, d.(dirs := d.dirs[i := DirEntry(name, sub')]))
  }

  function AddHere(d: Dir, name: string, item: Item): Added {
    if HasFile(d, name) || HasDir(d, name) then Added(false, d)
    else
      var file := File(d.virtualPath + "/" + name, item.realPath, item.length, item.lastModified, item.mediaType);
      Added(true, d.(files := d.files + [FileEntry(name, file)], size := AsLong(d.size + item.length)))
  }

  /** A directory created on the way to a file. */
  function NewDir(d: Dir, name: string): Dir {
    Dir(if d.virtualPath != "" then d.virtualPath + "/" + name else name, None, [], [], d.roles, 0)
  }

  function AddFile(d: Dir, path: string, item: Item): Added
    decreases |path|
  {
    match SplitPath(path)
    case Bad => Added(false, d)
    case Leaf(name) => if item.mediaType == "directory" then AddDirectory(d, name, item) else AddHere(d, name, item)
    case Below(name, rest) =>
      var i := FindDir(d.dirs, name);
      if i < |d.dirs| then
        var r := AddFile(d.dirs[i].dir, rest, item);
        Added(r.ok, d.(dirs := d.dirs[i := DirEntry(name, r.dir)]))
      else if HasFile(d, name) then Added(false, d)
      else
        var r := AddFile(NewDir(d, name), rest, item);
        Added(r.ok, d.(dirs := d.dirs + [DirEntry(name, r.dir)]))
  }

  // ---------- queries ----------

  datatype PathInfo = NotFound | Found(dir: Option<Dir>, file: Option<File>, basename: Option<string>)

  function Resolve(d: Dir, path: string, role: CheckRole): PathInfo
    decreases |path|
  {
    var p := StripSlash(path);
    match SplitPath(p)
    case Bad => NotFound
    case Leaf(name) =>
      if !HasDir(d, name) && !HasFile(d, name) then NotFound
      else if HasDir(d, name) && !CanAccess(d.dirs[FindDir(d.dirs, name)].dir, role) then NotFound
      else Found(if HasDir(d, name) then Some(d.dirs[FindDir(d.dirs, name)].dir) else None,
                 if HasFile(d, name) then Some(d.files[FindFile(d.files, name)].file) else None,
                 if HasFile(d, name) then Some(name) else None)
    case Below(name, rest) =>
      if !HasDir(d, name) then NotFound
      else
        var sub := d.dirs[FindDir(d.dirs, name)].dir;
        if !CanAccess(sub, role) then NotFound
        else if HasFile(sub, rest) then Found(Some(sub), Some(sub.files[FindFile(sub.files, rest)].file), Some(rest))
        else Resolve(sub, rest, role)
  }

  /** All files below a directory, with the paths that lead to them; none if it is not accessible. */
  function Listing(d: Dir, path: string, role: CheckRole): seq<FileEntry>
    decreases d, 1
  {
    if !CanAccess(d, role) then [] else FileList(d.files, path) + DirList(d.dirs, path, role)
  }

  function FileList(files: seq<FileEntry>, path: string): (r: seq<FileEntry>)
    ensures |r| == |files| && forall i :: 0 <= i < |r| ==> r[i] == FileEntry(path + files[i].name, files[i].file)
  {
    seq(|files|, i requires 0 <= i < |files| => FileEntry(path + files[i].name, files[i].file))
  }

  function DirList(dirs: seq<DirEntry>, path: string, role: CheckRole): seq<FileEntry>
    decreases dirs, 0
  {
    if dirs == [] then []
    else Listing(dirs[0].dir, path + dirs[0].name + "/", role) + DirList(dirs[1..], path, role)
  }

  /** The total size, added up in signed 64 bit numbers. */
  function TotalSize(d: Dir, role: CheckRole): Long
    decreases d, 1
  {
    if !CanAccess(d, role) then 0 else AsLong(d.size + TotalSizes(d.dirs, role))
  }

  function TotalSizes(dirs: seq<DirEntry>, role: CheckRole): Long
    decreases dirs, 0
  {
    if dirs == [] then 0 else AsLong(TotalSize(dirs[0].dir, role) + TotalSizes(dirs[1..], role))
  }

  function Lengths(files: seq<FileEntry>): int {
    if files == [] then 0 else files[0].file.length + Lengths(files[1..])
  }

  // ---------- what every sequence of additions keeps ----------

  ghost predicate NamesOk(d: Dir) {
    && (forall i :: 0 <= i < |d.files| ==> Component(d.files[i].name))
    && (forall i :: 0 <= i < |d.dirs| ==> Component(d.dirs[i].name))
    && (forall i, j :: 0 <= i < j < |d.files| ==> d.files[i].name != d.files[j].name)
    && (forall i, j :: 0 <= i < j < |d.dirs| ==> d.dirs[i].name != d.dirs[j].name)
    && (forall i, j :: 0 <= i < |d.files| && 0 <= j < |d.dirs| ==> d.files[i].name != d.dirs[j].name)
  }

  /** Names are proper and different, and the size is that of the files in 64 bits, at every level. */
  ghost predicate WellFormed(d: Dir)
    decreases d
  {
    && NamesOk(d) && d.size == AsLong(Lengths(d.files))
    && forall i :: 0 <= i < |d.dirs| ==> WellFormed(d.dirs[i].dir)
  }

  const Root: Dir := Dir("", None, [], [], {}, 0)

  /** A tree that results from the empty one by any additions, failed ones included. */
  ghost predicate Built(d: Dir, adds: seq<(string, Item)>)
    decreases |adds|
  {
    if adds == [] then d == Root
    else
      var last := adds[|adds| - 1];
      exists before :: Built(before, adds[..|adds| - 1]) && d == AddFile(before, last.0, last.1).dir
  }
}
