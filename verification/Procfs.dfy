/** The operations of procfs, each proved to make one of the changes of ProcfsModel or none. */
module Procfs {
  import opened LibGen
  import opened Seqs
  import opened ProcfsModel

  const EPERM: int := 1
  const ENOENT: int := 2
  const EBUSY: int := 16
  const EEXIST: int := 17
  const ENOTDIR: int := 20
  const EISDIR: int := 21
  const ENOTEMPTY: int := 39

  // A pointer that may be NULL.
  datatype Pointer = Null | To(addr: nat)

  // open flags; bitmask_check(flags, M) holds when any bit of M is set.
  datatype Flags = Flags(creat: bool, excl: bool, directory: bool, wronly: bool, rdwr: bool)

  // "/proc/" [parent "/"] name, where the parent is named by its last component only.
  function EntryPath(name: string, parent: string): string {
    "/proc/" + (if parent == "" then "" else parent + "/") + name
  }

  datatype OpenResult = Failed(error: int) | File(handle: nat)

  // When an open whose parent exists succeeds. O_CREAT alone refuses an existing entry, as
  // O_CREAT | O_EXCL is tested for any of its bits.
  ghost predicate MayOpen(s: State, path: string, flags: Flags) {
    if Exists(s, path) then
      && !flags.creat && !flags.excl
      && if flags.directory then IsDirectory(s, path) && !flags.rdwr && !flags.wronly else !IsDirectory(s, path)
    else flags.creat
  }

  // The open made h a handle of the entry with that path, which it created if there was none.
  ghost predicate OpensPath(s: State, t: State, path: string, addr: nat, h: nat) {
    if Exists(s, path) then exists a :: a in s.entry && s.entry[a].name == path && t == Opened(s, a, h)
    else addr in Created(s, addr, path, Regular).entry && t == Opened(Created(s, addr, path, Regular), addr, h)
  }

  // Somebody has the entry with that path open.
  ghost predicate Busy(s: State, path: string) {
    exists a :: a in s.entry && s.entry[a].name == path && s.entry[a].handles != []
  }

  // The entry with that path, which nobody had open, is gone and nothing else has changed.
  ghost predicate Removes(s: State, t: State, path: string, kind: Kind) {
    exists a ::
      && a in s.entry && s.entry[a].name == path && s.entry[a].kind == kind && s.entry[a].handles == []
      && t == Destroyed(s, a)
  }

  class FileSystem {
    var nfiles: int
    var files: seq<nat>
    var entry: map<nat, Entry>
    var vfs: map<nat, Handle>

    ghost function Now(): State
      reads this
    {
      State(nfiles, files, entry, vfs)
    }

    // procfs_init
    constructor ()
      ensures Now() == State(0, [], map[], map[]) && Inv(Now()) && UniqueInodes(Now()) && Rooted(Now())
    {
      nfiles, files, entry, vfs := 0, [], map[], map[];
    }

    // procfs_find_entry_path
    method FindEntryPath(path: string) returns (p: Pointer)
      requires Inv(Now())
      ensures p.Null? <==> !Exists(Now(), path)
      ensures p.To? ==> p.addr in entry && entry[p.addr].name == path
    {
      var i := 0;
      while i < |files|
        invariant i <= |files| && forall j :: 0 <= j < i ==> files[j] in entry && entry[files[j]].name != path
      {
        assert files[i] in files;
        if entry[files[i]].name == path {
          return To(files[i]);
        }
        i := i + 1;
      }
      p := Null;
      assert forall a :: a in entry ==> a in files;
    }

    // procfs_find_entry_inode
    method FindEntryInode(inode: int) returns (p: Pointer)
      requires Inv(Now())
      ensures p.Null? <==> !InodeUsed(Now(), inode)
      ensures p.To? ==> p.addr in entry && entry[p.addr].inode == inode
    {
      var i := 0;
      while i < |files|
        invariant i <= |files| && forall j :: 0 <= j < i ==> files[j] in entry && entry[files[j]].inode != inode
      {
        assert files[i] in files;
        if entry[files[i]].inode == inode {
          return To(files[i]);
        }
        i := i + 1;
      }
      p := Null;
      assert forall a :: a in entry ==> a in files;
    }

    // procfs_get_free_inode
    method GetFreeInode() returns (inode: int)
      requires Inv(Now())
      ensures inode == FreeFrom(Now(), 1)
    {
      hide Inv, InodeUsed;
      inode := 1;
      while inode < MAX_FILES
        invariant 1 <= inode <= MAX_FILES && FreeFrom(Now(), 1) == FreeFrom(Now(), inode)
      {
        var p := FindEntryInode(inode);
        if p.Null? {
          return;
        }
        inode := inode + 1;
      }
      inode := -1;
    }

    // procfs_check_if_empty, which answers 1 for a directory that is not empty
    method CheckIfEmpty(path: string) returns (r: int)
      requires Inv(Now())
      ensures r == if HasChild(Now(), path) then 1 else 0
    {
      hide Dirname;
      var i := 0;
      while i < |files|
        invariant i <= |files|
        invariant forall j :: 0 <= j < i ==>
                    files[j] in entry && (entry[files[j]].name == path || Dirname(entry[files[j]].name) != path)
      {
        assert files[i] in files;
        var name := entry[files[i]].name;
        if path != name && Dirname(name) == path {
          return 1;
        }
        i := i + 1;
      }
      r := 0;
      assert forall a :: a in entry ==> a in files;
    }

    // procfs_create_file; `addr` is the memory that kmalloc returns.
    method CreateFile(addr: nat, path: string, kind: Kind)
      requires Inv(Now()) && addr !in entry && !Exists(Now(), path)
      modifies this
      ensures Now() == Created(old(Now()), addr, path, kind) && Inv(Now())
      ensures old(UniqueInodes(Now())) ==> (UniqueInodes(Now()) <==> old(|files|) < MAX_FILES - 1)
      ensures old(Rooted(Now())) ==> (Rooted(Now()) <==> old(HasParent(Now(), path)))
    {
      hide Inv, UniqueInodes, Rooted, HasParent, Exists, FreeFrom;
      ghost var s := Now();
      CreatedKeepsInv(s, addr, path, kind);
      if UniqueInodes(s) {
        CreatedKeepsInodes(s, addr, path, kind);
      }
      if Rooted(s) {
        CreatedRooted(s, addr, path, kind);
      }
      var inode := GetFreeInode();
      entry := entry[addr := Entry(inode, kind, path, [])];
      files := files + [addr];
      nfiles := nfiles + 1;
    }

    // procfs_destroy_file
    method DestroyFile(addr: nat)
      requires Inv(Now()) && addr in entry && entry[addr].handles == []
      modifies this
      ensures Now() == Destroyed(old(Now()), addr) && Inv(Now())
      ensures old(UniqueInodes(Now())) ==> UniqueInodes(Now())
      ensures old(Rooted(Now())) ==> (Rooted(Now()) <==> old(Bare(Now(), addr)))
      ensures old(Rooted(Now()) && (entry[addr].kind == Directory ==> !HasChild(Now(), entry[addr].name))) ==>
                Rooted(Now())
    {
      hide Rooted, HasChild, Held, Distinct, Without;
      ghost var s := Now();
      DestroyedKeepsInv(s, addr);
      if Rooted(s) {
        DestroyedRooted(s, addr);
      }
      files := Without(files, addr);
      entry := entry - {addr};
      nfiles := nfiles - 1;
    }

    // procfs_create_file_struct, and its insertion into the list of the entry; `h` is the memory
    // that kmalloc returns.
    method OpenEntry(addr: nat, h: nat)
      requires Inv(Now()) && addr in entry && h !in vfs
      modifies this`entry, this`vfs
      ensures Now() == Opened(old(Now()), addr, h) && Inv(Now())
      ensures old(UniqueInodes(Now())) ==> UniqueInodes(Now())
      ensures old(Rooted(Now())) ==> Rooted(Now())
    {
      hide Inv, UniqueInodes, Rooted;
      ghost var s := Now();
      OpenedKeepsInv(s, addr, h);
      if Rooted(s) {
        OpenedSame(s, addr, h);
        SameEntriesRooted(s, Opened(s, addr, h));
      }
      vfs := vfs[h := Handle(entry[addr].inode, addr)];
      entry := entry[addr := entry[addr].(handles := entry[addr].handles + [h])];
    }

    // procfs_close
    method Close(h: nat)
      requires Inv(Now()) && h in vfs
      modifies this`entry, this`vfs
      ensures old(vfs[h].device in entry) && Now() == Closed(old(Now()), h) && Inv(Now())
      ensures old(UniqueInodes(Now())) ==> UniqueInodes(Now())
      ensures old(Rooted(Now())) ==> Rooted(Now())
    {
      hide Inv, UniqueInodes, Rooted, Without;
      ghost var s := Now();
      ClosedKeepsInv(s, h);
      if Rooted(s) {
        ClosedSame(s, h);
        SameEntriesRooted(s, Closed(s, h));
      }
      var addr := vfs[h].device;
      entry := entry[addr := entry[addr].(handles := Without(entry[addr].handles, h))];
      vfs := vfs - {h};
    }

    // The parent test of procfs_mkdir and procfs_open: 0, or the error it ends with.
    method CheckParent(path: string) returns (error: int)
      requires Inv(Now())
      ensures error == 0 || error == ENOENT || error == ENOTDIR
      ensures error == 0 <==> HasParent(Now(), path)
      ensures error == ENOENT ==> !Exists(Now(), Dirname(path))
      ensures error == ENOTDIR ==> Exists(Now(), Dirname(path))
    {
      hide Dirname;
      var parent := Dirname(path);
      error := 0;
      if parent != "." && parent != "/" {
        var p := FindEntryPath(parent);
        if p.Null? {
          return ENOENT;
        }
        if entry[p.addr].kind != Directory {
          return ENOTDIR;
        }
      }
    }

    // procfs_mkdir
    method Mkdir(path: string, addr: nat) returns (rc: int)
      requires Inv(Now()) && addr !in entry
      modifies this
      ensures Inv(Now())
      ensures rc == 0 <==> path != "." && path != ".." && old(!Exists(Now(), path) && HasParent(Now(), path))
      ensures rc == -EEXIST <==> path != "." && path != ".." && old(Exists(Now(), path))
      ensures rc == -EPERM <==> path == "." || path == ".."
      ensures rc == -ENOENT
              <==> path != "." && path != ".." && old(!Exists(Now(), path) && !HasParent(Now(), path) &&
                                                     !Exists(Now(), Dirname(path)))
      ensures rc in {0, -EPERM, -EEXIST, -ENOENT, -ENOTDIR}
      ensures rc == 0 ==> Now() == Created(old(Now()), addr, path, Directory)
      ensures rc != 0 ==> Now() == old(Now())
      ensures old(UniqueInodes(Now()) && |files| < MAX_FILES - 1) ==> UniqueInodes(Now())
      ensures old(Rooted(Now())) ==> Rooted(Now())
    {
      hide Inv, UniqueInodes, Rooted, HasParent, Exists, Created;
      if path == "." || path == ".." {
        return -EPERM;
      }
      var p := FindEntryPath(path);
      if p.To? {
        return -EEXIST;
      }
      var error := CheckParent(path);
      if error != 0 {
        return -error;
      }
      CreateFile(addr, path, Directory);
      rc := 0;
    }

    // procfs_rmdir
    method Rmdir(path: string) returns (rc: int)
      requires Inv(Now())
      modifies this
      ensures Inv(Now())
      ensures rc == 0 ==> Removes(old(Now()), Now(), path, Directory)
      ensures rc == 0 ==> path != "." && path != ".." && !old(HasChild(Now(), path))
      ensures rc == -EPERM <==> path == "." || path == ".."
      ensures rc == -ENOENT <==> path != "." && path != ".." && !old(Exists(Now(), path))
      ensures rc == -ENOTDIR <==> path != "." && path != ".." && old(Exists(Now(), path) && !IsDirectory(Now(), path))
      ensures rc == -EBUSY <==> path != "." && path != ".." && old(IsDirectory(Now(), path) && Busy(Now(), path))
      ensures rc == -ENOTEMPTY
              <==> path != "." && path != ".." &&
                   old(IsDirectory(Now(), path) && !Busy(Now(), path) && HasChild(Now(), path))
      ensures rc in {0, -EPERM, -ENOENT, -ENOTDIR, -EBUSY, -ENOTEMPTY} && (rc != 0 ==> Now() == old(Now()))
      ensures old(UniqueInodes(Now())) ==> UniqueInodes(Now())
      ensures old(Rooted(Now())) ==> Rooted(Now())
    {
      hide UniqueInodes, Rooted, HasChild, Destroyed, Held, Listed;
      if path == "." || path == ".." {
        return -EPERM;
      }
      var p := FindEntryPath(path);
      if p.Null? {
        return -ENOENT;
      }
      if entry[p.addr].kind != Directory {
        return -ENOTDIR;
      }
      if entry[p.addr].handles != [] {
        return -EBUSY;
      }
      var child := CheckIfEmpty(entry[p.addr].name);
      if child != 0 {
        return -ENOTEMPTY;
      }
      DestroyFile(p.addr);
      rc := 0;
    }

    // procfs_open
    method Open(path: string, flags: Flags, addr: nat, h: nat) returns (r: OpenResult)
      requires Inv(Now()) && addr !in entry && h !in vfs
      modifies this
      ensures Inv(Now())
      ensures r.File? <==> old(HasParent(Now(), path)) && old(MayOpen(Now(), path, flags))
      ensures r.Failed? ==> Now() == old(Now()) && r.error in {ENOENT, ENOTDIR, EEXIST, EISDIR}
      ensures r == Failed(EEXIST) <==> old(HasParent(Now(), path) && Exists(Now(), path)) && (flags.creat || flags.excl)
      ensures r == Failed(EISDIR)
              <==> old(HasParent(Now(), path) && IsDirectory(Now(), path)) && !flags.creat && !flags.excl &&
                   (flags.directory ==> flags.rdwr || flags.wronly)
      ensures r == Failed(ENOENT)
              <==> || old(!HasParent(Now(), path) && !Exists(Now(), Dirname(path)))
                   || (old(HasParent(Now(), path) && !Exists(Now(), path)) && !flags.creat)
      ensures r.File? ==> r.handle == h && OpensPath(old(Now()), Now(), path, addr, h)
      ensures old(UniqueInodes(Now()) && |files| < MAX_FILES - 1) ==> UniqueInodes(Now())
      ensures old(Rooted(Now())) ==> Rooted(Now())
    {
      hide UniqueInodes, Rooted, HasParent, Created, Opened, Held, Listed, Dirname;
      var error := CheckParent(path);
      if error != 0 {
        return Failed(error);
      }
      var p := FindEntryPath(path);
      if p.To? {
        if flags.creat || flags.excl {
          return Failed(EEXIST);
        }
        if flags.directory {
          if entry[p.addr].kind != Directory {
            return Failed(ENOTDIR);
          }
          if flags.rdwr || flags.wronly {
            return Failed(EISDIR);
          }
        } else if entry[p.addr].kind == Directory {
          return Failed(EISDIR);
        }
        OpenEntry(p.addr, h);
        return File(h);
      }
      if flags.creat {
        r := CreateAndOpen(path, addr, h);
        return;
      }
      r := Failed(ENOENT);
    }

    // The O_CREAT end of procfs_open.
    method CreateAndOpen(path: string, addr: nat, h: nat) returns (r: OpenResult)
      requires Inv(Now()) && addr !in entry && h !in vfs && !Exists(Now(), path) && HasParent(Now(), path)
      modifies this
      ensures Inv(Now()) && r == File(h)
      ensures addr in Created(old(Now()), addr, path, Regular).entry
      ensures Now() == Opened(Created(old(Now()), addr, path, Regular), addr, h)
      ensures old(UniqueInodes(Now()) && |files| < MAX_FILES - 1) ==> UniqueInodes(Now())
      ensures old(Rooted(Now())) ==> Rooted(Now())
    {
      hide Inv, UniqueInodes, Rooted, HasParent, Exists, Opened;
      CreateFile(addr, path, Regular);
      OpenEntry(addr, h);
      r := File(h);
    }

    // procfs_mount_callback
    method Mount(path: string, addr: nat, h: nat)
      requires Inv(Now()) && addr !in entry && h !in vfs && !Exists(Now(), path)
      modifies this
      ensures Inv(Now()) && addr in Created(old(Now()), addr, path, Directory).entry
      ensures Now() == Opened(Created(old(Now()), addr, path, Directory), addr, h)
      ensures old(UniqueInodes(Now()) && |files| < MAX_FILES - 1) ==> UniqueInodes(Now())
      ensures old(Rooted(Now()) && HasParent(Now(), path)) ==> Rooted(Now())
    {
      hide Inv, UniqueInodes, Rooted, HasParent, Exists, Opened;
      CreateFile(addr, path, Directory);
      OpenEntry(addr, h);
    }

    // proc_mkdir and proc_create_entry
    method ProcCreate(name: string, parent: string, kind: Kind, addr: nat) returns (p: Pointer)
      requires Inv(Now()) && addr !in entry
      modifies this
      ensures Inv(Now())
      ensures p == if old(Exists(Now(), EntryPath(name, parent))) then Null else To(addr)
      ensures p.Null? ==> Now() == old(Now())
      ensures p.To? ==> Now() == Created(old(Now()), addr, EntryPath(name, parent), kind)
      ensures old(UniqueInodes(Now()) && |files| < MAX_FILES - 1) ==> UniqueInodes(Now())
      ensures p.To? && old(Rooted(Now())) ==> (Rooted(Now()) <==> old(HasParent(Now(), EntryPath(name, parent))))
    {
      hide Inv, UniqueInodes, Rooted, HasParent, Exists, Created, EntryPath;
      var path := EntryPath(name, parent);
      p := FindEntryPath(path);
      if p.To? {
        return Null;
      }
      CreateFile(addr, path, kind);
      p := To(addr);
    }

    // proc_rmdir
    method ProcRmdir(name: string, parent: string) returns (rc: int)
      requires Inv(Now())
      modifies this
      ensures Inv(Now()) && (rc != 0 ==> Now() == old(Now()))
      ensures rc == 0 ==>
                && Removes(old(Now()), Now(), EntryPath(name, parent), Directory)
                && !old(HasChild(Now(), EntryPath(name, parent)))
      ensures rc == -ENOENT <==> !old(Exists(Now(), EntryPath(name, parent)))
      ensures rc == -ENOTDIR
              <==> old(Exists(Now(), EntryPath(name, parent)) && !IsDirectory(Now(), EntryPath(name, parent)))
      ensures rc == -ENOTEMPTY
              <==> old(IsDirectory(Now(), EntryPath(name, parent)) && HasChild(Now(), EntryPath(name, parent)))
      ensures rc == -EBUSY
              <==> old(IsDirectory(Now(), EntryPath(name, parent)) && !HasChild(Now(), EntryPath(name, parent)) &&
                       Busy(Now(), EntryPath(name, parent)))
      ensures rc in {0, -ENOENT, -ENOTDIR, -ENOTEMPTY, -EBUSY}
      ensures old(UniqueInodes(Now())) ==> UniqueInodes(Now())
      ensures old(Rooted(Now())) ==> Rooted(Now())
    {
      hide UniqueInodes, Rooted, HasChild, Destroyed, Held, Listed, EntryPath;
      var p := FindEntryPath(EntryPath(name, parent));
      if p.Null? {
        return -ENOENT;
      }
      if entry[p.addr].kind != Directory {
        return -ENOTDIR;
      }
      var child := CheckIfEmpty(entry[p.addr].name);
      if child != 0 {
        return -ENOTEMPTY;
      }
      if entry[p.addr].handles != [] {
        return -EBUSY;
      }
      DestroyFile(p.addr);
      rc := 0;
    }

    // proc_destroy_entry
    method ProcDestroyEntry(name: string, parent: string) returns (rc: int)
      requires Inv(Now())
      modifies this
      ensures Inv(Now()) && (rc != 0 ==> Now() == old(Now()))
      ensures rc == 0 ==> Removes(old(Now()), Now(), EntryPath(name, parent), Regular)
      ensures rc == -ENOENT
              <==> !old(Exists(Now(), EntryPath(name, parent)) && !IsDirectory(Now(), EntryPath(name, parent)))
      ensures rc == -EBUSY
              <==> old(Exists(Now(), EntryPath(name, parent)) && !IsDirectory(Now(), EntryPath(name, parent)) &&
                       Busy(Now(), EntryPath(name, parent)))
      ensures rc in {0, -ENOENT, -EBUSY}
      ensures old(UniqueInodes(Now())) ==> UniqueInodes(Now())
      ensures old(Rooted(Now())) ==> Rooted(Now())
    {
      hide UniqueInodes, Rooted, HasChild, Destroyed, Held, Listed, EntryPath;
      var p := FindEntryPath(EntryPath(name, parent));
      if p.Null? {
        return -ENOENT;
      }
      if entry[p.addr].kind != Regular {
        return -ENOENT;
      }
      if entry[p.addr].handles != [] {
        return -EBUSY;
      }
      DestroyFile(p.addr);
      rc := 0;
    }
  }

  lemma FlatProc()
    ensures Flat(["proc"]) == "/proc"
  {
    FlatSnoc([], "proc");
    assert [] + ["proc"] == ["proc"];
  }

  // Where an entry made by the in-kernel interface belongs.
  lemma EntryParent(name: string, parent: string)
    requires name != "" && '/' !in name
    ensures Dirname(EntryPath(name, parent)) == (if parent == "" then "/proc" else "/proc/" + parent)
    ensures Basename(EntryPath(name, parent)) == name
  {
    hide Dirname, Basename, Flat, LastSlash;
    FlatProc();
    var stack := if parent == "" then ["proc"] else ["proc"] + [parent];
    FlatSnoc(["proc"], parent);
    FlatSnoc(stack, name);
    assert EntryPath(name, parent) == Flat(stack + [name]);
    DirnameBasename(stack, name);
  }

  // A directory below another one is named by its last component, so an entry made in it is
  // placed below "/proc" directly; unless a directory of that name is there, its parent is missing.
  lemma NestedParentLost(s: State, outer: string, dir: string, name: string, addr: nat, kind: Kind)
    requires Rooted(s) && addr !in s.entry && name != "" && dir != "" && '/' !in name && '/' !in dir
    ensures Basename(Flat(["proc", outer] + [dir])) == dir
    ensures Rooted(Created(s, addr, EntryPath(name, dir), kind)) <==> IsDirectory(s, "/proc/" + dir)
  {
    hide Dirname, Basename, FreeFrom, Rooted;
    FlatSnoc(["proc"], outer);
    assert ["proc"] + [outer] == ["proc", outer];
    DirnameBasename(["proc", outer], dir);
    EntryParent(name, dir);
    CreatedRooted(s, addr, EntryPath(name, dir), kind);
  }

  // The entries that exist are those with these paths, all of them directories.
  ghost predicate Directories(s: State, paths: seq<string>) {
    forall path :: (path in paths <==> Exists(s, path)) && (path in paths <==> IsDirectory(s, path))
  }

  lemma CreatedDirectories(s: State, paths: seq<string>, addr: nat, path: string)
    requires Directories(s, paths) && addr !in s.entry
    ensures Directories(Created(s, addr, path, Directory), paths + [path])
  {
    hide FreeFrom;
    var t := Created(s, addr, path, Directory);
    assert addr in t.entry && t.entry[addr].name == path;
    forall p
      ensures p in paths + [path] <==> Exists(t, p)
      ensures p in paths + [path] <==> IsDirectory(t, p)
    {
      if Exists(s, p) {
        var a :| a in s.entry && s.entry[a].name == p && s.entry[a].kind == Directory;
        assert t.entry[a] == s.entry[a];
      }
      if Exists(t, p) && p != path {
        var a :| a in t.entry && t.entry[a].name == p;
        assert t.entry[a] == s.entry[a];
      }
    }
  }

  lemma SamePaths(s: State, t: State, paths: seq<string>)
    requires Directories(s, paths) && SameEntries(s, t)
    ensures Directories(t, paths)
  {
    forall p
      ensures Exists(t, p) <==> Exists(s, p)
      ensures IsDirectory(t, p) <==> IsDirectory(s, p)
    {
      assert forall a :: a in s.entry <==> a in s.entry.Keys;
      assert forall a :: a in t.entry <==> a in t.entry.Keys;
    }
  }

  lemma NotExempt(parent: string)
    ensures var dir := if parent == "" then "/proc" else "/proc/" + parent; dir != "." && dir != "/"
  {
    assert "/proc"[1] == 'p' && ("/proc/" + parent)[1] == 'p';
  }

  // proc_mkdir where no entry of that path exists yet.
  method MakeDirectory(fs: FileSystem, name: string, parent: string, addr: nat, ghost paths: seq<string>)
    requires Inv(fs.Now()) && Directories(fs.Now(), paths) && addr !in fs.entry && EntryPath(name, parent) !in paths
    requires name != "" && '/' !in name && Rooted(fs.Now())
    modifies fs
    ensures Inv(fs.Now()) && Directories(fs.Now(), paths + [EntryPath(name, parent)])
    ensures fs.entry.Keys == old(fs.entry.Keys) + {addr}
    ensures var dir := if parent == "" then "/proc" else "/proc/" + parent;
            Rooted(fs.Now()) <==> dir in paths
  {
    hide Inv, Rooted, EntryPath, Dirname, FreeFrom;
    ghost var s := fs.Now();
    CreatedDirectories(s, paths, addr, EntryPath(name, parent));
    EntryParent(name, parent);
    NotExempt(parent);
    var p := fs.ProcCreate(name, parent, Directory, addr);
    assert fs.entry == Created(s, addr, EntryPath(name, parent), Directory).entry;
  }

  // Mounting /proc on an empty file system.
  method MountProc(fs: FileSystem)
    requires fs.Now() == State(0, [], map[], map[]) && Inv(fs.Now()) && Rooted(fs.Now())
    modifies fs
    ensures Inv(fs.Now()) && Directories(fs.Now(), ["/proc"]) && fs.entry.Keys == {0} && Rooted(fs.Now())
  {
    hide Inv, Rooted, FreeFrom, Dirname;
    ghost var s := fs.Now();
    assert Directories(s, []);
    CreatedDirectories(s, [], 0, "/proc");
    ghost var m := Created(s, 0, "/proc", Directory);
    OpenedSame(m, 0, 0);
    SamePaths(m, Opened(m, 0, 0), ["/proc"]);
    FlatProc();
    DirnameBasename([], "proc");
    assert [] + ["proc"] == ["proc"] && [] + ["/proc"] == ["/proc"];
    fs.Mount("/proc", 0, 0);
  }

  lemma PathTexts()
    ensures EntryPath("a", "") == "/proc/a" && EntryPath("b", "a") == "/proc/a/b"
    ensures EntryPath("c", "b") == "/proc/b/c" && "/proc/" + "b" == "/proc/b" && "/proc/" + "a" == "/proc/a"
    ensures "/proc/a" != "/proc" && "/proc/a/b" !in ["/proc", "/proc/a"]
    ensures "/proc/b/c" !in ["/proc", "/proc/a", "/proc/a/b"] && "/proc/b" !in ["/proc", "/proc/a", "/proc/a/b"]
  {
    assert "/proc/a"[6] == 'a' && "/proc/a/b"[6] == 'a' && "/proc/b"[6] == 'b' && "/proc/b/c"[6] == 'b';
  }

  // A run that loses a parent: with /proc mounted and the directories a and b made one in the
  // other, an entry made in b has no directory.
  method LoseParent() returns (fs: FileSystem)
    ensures Inv(fs.Now()) && IsDirectory(fs.Now(), "/proc/a/b") && !Rooted(fs.Now())
  {
    hide Inv, Rooted, IsDirectory, Exists, EntryPath, FreeFrom;
    fs := new FileSystem();
    MountProc(fs);
    PathTexts();
    MakeDirectory(fs, "a", "", 1, ["/proc"]);
    assert ["/proc"] + ["/proc/a"] == ["/proc", "/proc/a"];
    MakeDirectory(fs, "b", "a", 2, ["/proc", "/proc/a"]);
    assert ["/proc", "/proc/a"] + ["/proc/a/b"] == ["/proc", "/proc/a", "/proc/a/b"];
    MakeDirectory(fs, "c", "b", 3, ["/proc", "/proc/a", "/proc/a/b"]);
    assert "/proc/a/b" in ["/proc", "/proc/a", "/proc/a/b"] + ["/proc/b/c"];
  }

  // ---- runs of the file system ------------------------------------------------------------

  // A call, with the memory that kmalloc would return for it.
  datatype Request =
    | MakeDir(path: string, addr: nat)
    | RemoveDir(path: string)
    | OpenPath(path: string, flags: Flags, addr: nat, h: nat)
    | CloseHandle(h: nat)
    | ProcMake(name: string, parent: string, kind: Kind, addr: nat)
    | ProcRemoveDir(name: string, parent: string)
    | ProcRemove(name: string, parent: string)

  // Every open handle but those that are closed stays on its file.
  ghost predicate HandlesKept(s: State, t: State, closed: set<nat>) {
    forall h :: h in s.vfs && h !in closed ==> SameFile(s, t, h)
  }

  ghost function ClosedBy(request: Request): set<nat> {
    if request.CloseHandle? then {request.h} else {}
  }

  lemma NothingKept(s: State)
    requires Inv(s)
    ensures HandlesKept(s, s, {})
  {
    hide Listed, UniquePaths, OwnHandles;
    forall h | h in s.vfs
      ensures SameFile(s, s, h)
    {
      assert Holds(s, h);
    }
  }

  lemma OneKept(s: State, op: Op)
    requires Inv(s) && Enabled(s, op)
    ensures HandlesKept(s, Apply(s, op), if op.Close? then {op.handle} else {})
  {
    hide Listed, UniquePaths, Held, SameFile, Apply, Enabled;
    forall h | h in s.vfs && op != Close(h)
      ensures SameFile(s, Apply(s, op), h)
    {
      StepKeepsHandle(s, op, h);
    }
  }

  lemma KeptOn(s: State, t: State, u: State, closed: set<nat>, more: set<nat>)
    requires HandlesKept(s, t, closed) && HandlesKept(t, u, more)
    ensures HandlesKept(s, u, closed + more)
  {
    forall h | h in s.vfs && h !in closed + more
      ensures SameFile(s, u, h)
    {
      assert SameFile(s, t, h) && SameFile(t, u, h);
    }
  }

  lemma RemovesKept(s: State, t: State, path: string, kind: Kind)
    requires Inv(s) && Removes(s, t, path, kind)
    ensures HandlesKept(s, t, {}) && |t.files| <= |s.files|
  {
    hide HandlesKept, Held, UniquePaths, Distinct;
    var a :| a in s.entry && s.entry[a].name == path && s.entry[a].kind == kind && s.entry[a].handles == []
             && t == Destroyed(s, a);
    OneKept(s, Destroy(a));
    assert Apply(s, Destroy(a)) == t;
    WithoutFacts(s.files, a);
  }

  lemma CreatedKept(s: State, addr: nat, path: string, kind: Kind)
    requires Inv(s) && addr !in s.entry && !Exists(s, path)
    ensures HandlesKept(s, Created(s, addr, path, kind), {})
    ensures |Created(s, addr, path, kind).files| == |s.files| + 1
  {
    hide HandlesKept, Listed, Held, UniquePaths, FreeFrom;
    OneKept(s, Create(addr, path, kind));
    assert Apply(s, Create(addr, path, kind)) == Created(s, addr, path, kind);
  }

  lemma OpensKept(s: State, t: State, path: string, addr: nat, h: nat)
    requires Inv(s) && addr !in s.entry && h !in s.vfs && OpensPath(s, t, path, addr, h)
    ensures HandlesKept(s, t, {}) && |t.files| <= |s.files| + 1
  {
    hide HandlesKept, Listed, Held, UniquePaths, FreeFrom;
    if Exists(s, path) {
      var a :| a in s.entry && s.entry[a].name == path && t == Opened(s, a, h);
      OneKept(s, ProcfsModel.Open(a, h));
      assert Apply(s, ProcfsModel.Open(a, h)) == t;
    } else {
      var m := Created(s, addr, path, Regular);
      CreatedKept(s, addr, path, Regular);
      CreatedKeepsInv(s, addr, path, Regular);
      OneKept(m, ProcfsModel.Open(addr, h));
      assert Apply(m, ProcfsModel.Open(addr, h)) == t;
      var none: set<nat> := {};
      KeptOn(s, m, t, none, none);
      assert none + none == none;
    }
  }

  lemma MoreClosed(s: State, t: State, closed: set<nat>, more: set<nat>)
    requires HandlesKept(s, t, closed) && closed <= more
    ensures HandlesKept(s, t, more)
  {
  }

  method ServeClose(fs: FileSystem, h: nat)
    requires Inv(fs.Now())
    modifies fs
    ensures Inv(fs.Now()) && |fs.files| == old(|fs.files|)
    ensures old(UniqueInodes(fs.Now())) ==> UniqueInodes(fs.Now())
    ensures old(Rooted(fs.Now())) ==> Rooted(fs.Now())
    ensures HandlesKept(old(fs.Now()), fs.Now(), {h})
  {
    hide Inv, UniqueInodes, Rooted, HandlesKept, Without;
    ghost var s := fs.Now();
    if h in fs.vfs {
      fs.Close(h);
      OneKept(s, ProcfsModel.Close(h));
      assert Apply(s, ProcfsModel.Close(h)) == fs.Now();
    } else {
      NothingKept(s);
      MoreClosed(s, s, {}, {h});
    }
  }

  // One call.  Only proc_mkdir and proc_create_entry can lose a parent.
  method Serve(fs: FileSystem, request: Request)
    requires Inv(fs.Now())
    modifies fs
    ensures Inv(fs.Now()) && |fs.files| <= old(|fs.files|) + 1
    ensures old(UniqueInodes(fs.Now()) && |fs.files| < MAX_FILES - 1) ==> UniqueInodes(fs.Now())
    ensures old(Rooted(fs.Now())) && !request.ProcMake? ==> Rooted(fs.Now())
    ensures HandlesKept(old(fs.Now()), fs.Now(), ClosedBy(request))
  {
    hide Inv, UniqueInodes, Rooted, HandlesKept, Exists, HasChild, IsDirectory, HasParent, MayOpen, Busy, EntryPath,
         OpensPath, Removes, Created, Opened;
    ghost var s := fs.Now();
    NothingKept(s);
    match request
    case MakeDir(path, addr) =>
      if addr !in fs.entry {
        var rc := fs.Mkdir(path, addr);
        if rc == 0 { CreatedKept(s, addr, path, Directory); }
      }
    case RemoveDir(path) =>
      var rc := fs.Rmdir(path);
      if rc == 0 { RemovesKept(s, fs.Now(), path, Directory); }
    case OpenPath(path, flags, addr, h) =>
      if addr !in fs.entry && h !in fs.vfs {
        var r := fs.Open(path, flags, addr, h);
        if r.File? { OpensKept(s, fs.Now(), path, addr, h); }
      }
    case CloseHandle(h) => ServeClose(fs, h);
    case ProcMake(name, parent, kind, addr) =>
      if addr !in fs.entry {
        var p := fs.ProcCreate(name, parent, kind, addr);
        if p.To? { CreatedKept(s, addr, EntryPath(name, parent), kind); }
      }
    case ProcRemoveDir(name, parent) =>
      var rc := fs.ProcRmdir(name, parent);
      if rc == 0 { RemovesKept(s, fs.Now(), EntryPath(name, parent), Directory); }
    case ProcRemove(name, parent) =>
      var rc := fs.ProcDestroyEntry(name, parent);
      if rc == 0 { RemovesKept(s, fs.Now(), EntryPath(name, parent), Regular); }
  }

  ghost function AllClosed(requests: seq<Request>): set<nat> {
    if requests == [] then {} else AllClosed(requests[..|requests| - 1]) + ClosedBy(requests[|requests| - 1])
  }

  lemma NoneClosed()
    ensures AllClosed([]) == {}
  {
  }

  lemma ClosedMore(requests: seq<Request>, n: nat)
    requires n < |requests|
    ensures AllClosed(requests[..n + 1]) == AllClosed(requests[..n]) + ClosedBy(requests[n])
  {
    assert requests[..n + 1][..n] == requests[..n];
  }

  lemma InodesLead(s: State)
    requires Inv(s) && UniqueInodes(s)
    ensures forall h, a :: h in s.vfs && a in s.entry && s.entry[a].inode == s.vfs[h].ino ==> a == s.vfs[h].device
  {
    forall h, a | h in s.vfs && a in s.entry && s.entry[a].inode == s.vfs[h].ino
      ensures a == s.vfs[h].device
    {
      assert Holds(s, h);
    }
  }

  // Any list of calls, from the kernel and from processes.  An open handle stays on its file, and its
  // inode leads to exactly that file, unless the file system comes to hold 1023 entries.
  method Session(fs: FileSystem, requests: seq<Request>)
    requires Inv(fs.Now())
    modifies fs
    ensures Inv(fs.Now()) && |fs.files| <= old(|fs.files|) + |requests|
    ensures old(Rooted(fs.Now())) && (forall k :: 0 <= k < |requests| ==> !requests[k].ProcMake?) ==> Rooted(fs.Now())
    ensures HandlesKept(old(fs.Now()), fs.Now(), AllClosed(requests))
    ensures old(UniqueInodes(fs.Now()) && |fs.files| + |requests| < MAX_FILES) ==>
              && UniqueInodes(fs.Now())
              && forall h, a :: h in fs.vfs && a in fs.entry && fs.entry[a].inode == fs.vfs[h].ino ==>
                a == fs.vfs[h].device
  {
    hide Inv, UniqueInodes, Rooted, HandlesKept, AllClosed;
    ghost var s := fs.Now();
    NothingKept(s);
    NoneClosed();
    assert requests[..0] == [];
    for n := 0 to |requests|
      invariant Inv(fs.Now()) && |fs.files| <= |s.files| + n
      invariant Rooted(s) && (forall k :: 0 <= k < n ==> !requests[k].ProcMake?) ==> Rooted(fs.Now())
      invariant UniqueInodes(s) && |s.files| + n < MAX_FILES ==> UniqueInodes(fs.Now())
      invariant HandlesKept(s, fs.Now(), AllClosed(requests[..n]))
    {
      ghost var t := fs.Now();
      Serve(fs, requests[n]);
      KeptOn(s, t, fs.Now(), AllClosed(requests[..n]), ClosedBy(requests[n]));
      ClosedMore(requests, n);
    }
    assert requests[..|requests|] == requests;
    if UniqueInodes(fs.Now()) {
      InodesLead(fs.Now());
    }
  }
}
