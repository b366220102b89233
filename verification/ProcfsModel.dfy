/**
 The procfs entry list and its open handles as a value, the four changes that the file system
 makes to it, and what holds in every run of them.
*/
module ProcfsModel {
  import opened LibGen
  import opened Seqs

  const MAX_FILES: nat := 1024

  datatype Kind = Directory | Regular

  // procfs_file_t, and vfs_file_t with its inode and the entry it was opened on.
  datatype Entry = Entry(inode: int, kind: Kind, name: string, handles: seq<nat>)
  datatype Handle = Handle(ino: int, device: nat)

  // `files` lists the addresses of the entries in the order of the list.
  datatype State = State(nfiles: int, files: seq<nat>, entry: map<nat, Entry>, vfs: map<nat, Handle>)

  lemma AppendFresh(s: seq<nat>, x: nat)
    requires Distinct(s) && x !in s
    ensures Distinct<nat>([]) && Distinct(s + [x]) && forall y :: y in s + [x] <==> y in s || y == x
  {
  }

  // ---- what every run keeps ---------------------------------------------------------------

  // The list holds each entry once, nfiles is its length.
  ghost predicate Listed(s: State) {
    s.nfiles == |s.files| && Distinct(s.files) && forall a :: a in s.files <==> a in s.entry
  }

  ghost predicate UniquePaths(s: State) {
    forall a, b :: a in s.entry && b in s.entry && s.entry[a].name == s.entry[b].name ==> a == b
  }

  // Every handle is in the list of the entry it was opened on, and carries its inode.
  ghost predicate Holds(s: State, h: nat)
    requires h in s.vfs
  {
    var a := s.vfs[h].device;
    a in s.entry && h in s.entry[a].handles && s.vfs[h].ino == s.entry[a].inode
  }

  // The handle list of an entry holds each of its handles once.
  ghost predicate OwnHandles(s: State, a: nat)
    requires a in s.entry
  {
    Distinct(s.entry[a].handles) && forall h :: h in s.entry[a].handles ==> h in s.vfs && s.vfs[h].device == a
  }

  ghost predicate Held(s: State) {
    (forall h :: h in s.vfs ==> Holds(s, h)) && forall a :: a in s.entry ==> OwnHandles(s, a)
  }

  ghost predicate Inv(s: State) {
    Listed(s) && UniquePaths(s) && Held(s)
  }

  ghost predicate UniqueInodes(s: State) {
    && (forall a :: a in s.entry ==> 1 <= s.entry[a].inode < MAX_FILES)
    && forall a, b :: a in s.entry && b in s.entry && s.entry[a].inode == s.entry[b].inode ==> a == b
  }

  ghost predicate IsDirectory(s: State, path: string) {
    exists d :: d in s.entry && s.entry[d].name == path && s.entry[d].kind == Directory
  }

  // The directory of the path exists; "." and "/" are not entries of procfs.
  ghost predicate HasParent(s: State, path: string) {
    Dirname(path) == "." || Dirname(path) == "/" || IsDirectory(s, Dirname(path))
  }

  lemma DirnameBelow(d: string, c: string)
    requires c != "" && '/' !in c && d != ""
    ensures Dirname(d + "/" + c) == d
  {
    hide Dirname;
    TakeApart(d, c);
  }

  // Top-level paths need no directory, any other path the one that it is in.
  lemma HasParentMeans(s: State, d: string, c: string)
    requires c != "" && '/' !in c
    ensures HasParent(s, c) && HasParent(s, "/" + c)
    ensures d != "" && d != "." && d != "/" ==> (HasParent(s, d + "/" + c) <==> IsDirectory(s, d))
  {
    hide Dirname, IsDirectory;
    TakeApartTop(c);
    if d != "" {
      DirnameBelow(d, c);
    }
  }

  ghost predicate Rooted(s: State) {
    forall a :: a in s.entry ==> HasParent(s, s.entry[a].name)
  }

  ghost predicate Exists(s: State, path: string) {
    exists a :: a in s.entry && s.entry[a].name == path
  }

  // An entry other than `path` itself lies in the directory `path`.
  ghost predicate HasChild(s: State, path: string) {
    exists a :: a in s.entry && s.entry[a].name != path && Dirname(s.entry[a].name) == path
  }

  // ---- free inodes ------------------------------------------------------------------------

  ghost predicate InodeUsed(s: State, i: int) {
    exists a :: a in s.entry && s.entry[a].inode == i
  }

  ghost function FreeFrom(s: State, i: int): (r: int)
    requires 1 <= i <= MAX_FILES
    ensures r == -1 || (i <= r < MAX_FILES && !InodeUsed(s, r))
    ensures r == -1 ==> forall k :: i <= k < MAX_FILES ==> InodeUsed(s, k)
    ensures r != -1 ==> forall k :: i <= k < r ==> InodeUsed(s, k)
    decreases MAX_FILES - i
  {
    if i == MAX_FILES then -1 else if !InodeUsed(s, i) then i else FreeFrom(s, i + 1)
  }

  // Numbers 1..n all occur in a list only if it has n elements.
  lemma {:induction false} Pigeons(n: nat, inodes: seq<int>)
    requires forall k :: 1 <= k <= n ==> k in inodes
    ensures n <= |inodes|
  {
    if n > 0 {
      assert n in inodes;
      var p :| 0 <= p < |inodes| && inodes[p] == n;
      var rest := inodes[..p] + inodes[p + 1..];
      forall k | 1 <= k <= n - 1
        ensures k in rest
      {
        assert k in inodes;
        var q :| 0 <= q < |inodes| && inodes[q] == k;
        assert if q < p then rest[q] == k else rest[q - 1] == k;
      }
      Pigeons(n - 1, rest);
    }
  }

  ghost function Inodes(s: State): seq<int>
    requires Listed(s)
  {
    seq(|s.files|, i requires 0 <= i < |s.files| => assert s.files[i] in s.files; s.entry[s.files[i]].inode)
  }

  lemma UsedIsListed(s: State, k: int)
    requires Listed(s) && InodeUsed(s, k)
    ensures k in Inodes(s)
  {
    var a :| a in s.entry && s.entry[a].inode == k;
    assert a in s.files;
    var i :| 0 <= i < |s.files| && s.files[i] == a;
    assert Inodes(s)[i] == k;
  }

  // As long as fewer than 1023 entries exist, one of the inodes 1..1023 is free.
  lemma SomeInodeFree(s: State)
    requires Listed(s) && |s.files| < MAX_FILES - 1
    ensures FreeFrom(s, 1) != -1
  {
    hide InodeUsed, Listed;
    if FreeFrom(s, 1) == -1 {
      forall k | 1 <= k <= MAX_FILES - 1
        ensures k in Inodes(s)
      {
        UsedIsListed(s, k);
      }
      Pigeons(MAX_FILES - 1, Inodes(s));
    }
  }

  // ---- the four changes -------------------------------------------------------------------

  ghost function Created(s: State, addr: nat, path: string, kind: Kind): State {
    State(s.nfiles + 1, s.files + [addr], s.entry[addr := Entry(FreeFrom(s, 1), kind, path, [])], s.vfs)
  }

  ghost function Destroyed(s: State, addr: nat): State {
    State(s.nfiles - 1, Without(s.files, addr), s.entry - {addr}, s.vfs)
  }

  ghost function Opened(s: State, addr: nat, h: nat): State
    requires addr in s.entry
  {
    var e := s.entry[addr];
    s.(entry := s.entry[addr := e.(handles := e.handles + [h])], vfs := s.vfs[h := Handle(e.inode, addr)])
  }

  ghost function Closed(s: State, h: nat): State
    requires h in s.vfs && s.vfs[h].device in s.entry
  {
    var addr := s.vfs[h].device;
    var e := s.entry[addr];
    s.(entry := s.entry[addr := e.(handles := Without(e.handles, h))], vfs := s.vfs - {h})
  }

  // A new entry has the path and the kind that were asked for, nobody has it open, its inode is the
  // least one from 1 on that is free, and it comes last; every other entry and handle is as it was.
  lemma CreatedMeans(s: State, addr: nat, path: string, kind: Kind)
    requires addr !in s.entry
    ensures var t := Created(s, addr, path, kind);
            && t.vfs == s.vfs && t.files == s.files + [addr] && addr in t.entry && t.entry - {addr} == s.entry
            && t.entry[addr].name == path && t.entry[addr].kind == kind && t.entry[addr].handles == []
            && var i := t.entry[addr].inode;
               && (i == -1 <==> forall k :: 1 <= k <= 1023 ==> InodeUsed(s, k))
               && (i != -1 ==> 1 <= i <= 1023 && !InodeUsed(s, i) && forall k :: 1 <= k < i ==> InodeUsed(s, k))
  {
    hide InodeUsed;
  }

  // A new handle carries the inode of its entry and comes last in its list.
  lemma OpenedMeans(s: State, addr: nat, h: nat)
    requires addr in s.entry && h !in s.vfs
    ensures var t := Opened(s, addr, h);
            && t.files == s.files && t.vfs - {h} == s.vfs && h in t.vfs && addr in t.entry
            && t.vfs[h] == Handle(s.entry[addr].inode, addr)
            && t.entry[addr] == s.entry[addr].(handles := s.entry[addr].handles + [h])
            && t.entry - {addr} == s.entry - {addr}
  {
  }

  lemma CreatedKeepsInv(s: State, addr: nat, path: string, kind: Kind)
    requires Inv(s) && addr !in s.entry && !Exists(s, path)
    ensures Inv(Created(s, addr, path, kind))
  {
    hide FreeFrom, Distinct;
    var t := Created(s, addr, path, kind);
    AppendFresh(s.files, addr);
    forall h | h in t.vfs
      ensures Holds(t, h)
    {
      assert Holds(s, h);
    }
    forall a | a in t.entry
      ensures OwnHandles(t, a)
    {
      assert a in s.entry ==> OwnHandles(s, a);
    }
  }

  lemma DestroyedKeepsInv(s: State, addr: nat)
    requires Inv(s) && addr in s.entry && s.entry[addr].handles == []
    ensures Inv(Destroyed(s, addr))
  {
    hide Distinct, Without;
    WithoutFacts(s.files, addr);
    var t := Destroyed(s, addr);
    forall h | h in t.vfs
      ensures Holds(t, h)
    {
      assert Holds(s, h);
    }
    forall a | a in t.entry
      ensures OwnHandles(t, a)
    {
      assert OwnHandles(s, a);
    }
  }

  // Only the handle lists differ.
  ghost predicate SameEntries(s: State, t: State) {
    && t.nfiles == s.nfiles && t.files == s.files && t.entry.Keys == s.entry.Keys
    && forall a :: a in s.entry ==>
         t.entry[a].name == s.entry[a].name && t.entry[a].kind == s.entry[a].kind &&
         t.entry[a].inode == s.entry[a].inode
  }

  lemma SameEntriesKeep(s: State, t: State)
    requires SameEntries(s, t)
    ensures Listed(s) ==> Listed(t)
    ensures UniquePaths(s) ==> UniquePaths(t)
    ensures UniqueInodes(s) ==> UniqueInodes(t)
  {
    hide Distinct;
    assert forall a :: a in s.entry <==> a in s.entry.Keys;
    assert forall a :: a in t.entry <==> a in t.entry.Keys;
  }

  lemma SameEntriesRooted(s: State, t: State)
    requires SameEntries(s, t) && Rooted(s)
    ensures Rooted(t)
  {
    hide Dirname;
    forall a | a in t.entry
      ensures HasParent(t, t.entry[a].name)
    {
      assert a in s.entry.Keys && HasParent(s, s.entry[a].name);
      if IsDirectory(s, Dirname(s.entry[a].name)) {
        var d :| d in s.entry && s.entry[d].name == Dirname(s.entry[a].name) && s.entry[d].kind == Directory;
        assert d in t.entry.Keys && t.entry[d].kind == Directory;
      }
    }
  }

  lemma OpenedSame(s: State, addr: nat, h: nat)
    requires addr in s.entry
    ensures SameEntries(s, Opened(s, addr, h))
  {
  }

  lemma ClosedSame(s: State, h: nat)
    requires h in s.vfs && s.vfs[h].device in s.entry
    ensures SameEntries(s, Closed(s, h))
  {
    hide Without;
  }

  lemma OpenedHeld(s: State, addr: nat, h: nat)
    requires Held(s) && addr in s.entry && h !in s.vfs
    ensures Held(Opened(s, addr, h))
  {
    hide Distinct;
    var t := Opened(s, addr, h);
    assert OwnHandles(s, addr);
    AppendFresh(s.entry[addr].handles, h);
    forall k | k in t.vfs
      ensures Holds(t, k)
    {
      assert k in s.vfs ==> Holds(s, k);
    }
    forall a | a in t.entry
      ensures OwnHandles(t, a)
    {
      assert OwnHandles(s, a);
    }
  }

  lemma ClosedHeld(s: State, h: nat)
    requires Held(s) && h in s.vfs
    ensures s.vfs[h].device in s.entry && Held(Closed(s, h))
  {
    hide Distinct, Without;
    assert Holds(s, h);
    var t, addr := Closed(s, h), s.vfs[h].device;
    assert OwnHandles(s, addr);
    WithoutFacts(s.entry[addr].handles, h);
    forall k | k in t.vfs
      ensures Holds(t, k)
    {
      assert Holds(s, k);
    }
    forall a | a in t.entry
      ensures OwnHandles(t, a)
    {
      assert OwnHandles(s, a);
    }
  }

  lemma OpenedKeepsInv(s: State, addr: nat, h: nat)
    requires Inv(s) && addr in s.entry && h !in s.vfs
    ensures Inv(Opened(s, addr, h)) && (UniqueInodes(s) ==> UniqueInodes(Opened(s, addr, h)))
  {
    hide Listed, UniquePaths, Held, UniqueInodes;
    OpenedSame(s, addr, h);
    SameEntriesKeep(s, Opened(s, addr, h));
    OpenedHeld(s, addr, h);
  }

  lemma ClosedKeepsInv(s: State, h: nat)
    requires Inv(s) && h in s.vfs
    ensures s.vfs[h].device in s.entry && Inv(Closed(s, h)) && (UniqueInodes(s) ==> UniqueInodes(Closed(s, h)))
  {
    hide Listed, UniquePaths, Held, UniqueInodes;
    ClosedHeld(s, h);
    ClosedSame(s, h);
    SameEntriesKeep(s, Closed(s, h));
  }

  // Different numbers from 1 to n are at most n.
  lemma {:induction false} AtMost(n: nat, xs: seq<int>)
    requires Distinct(xs) && forall i :: 0 <= i < |xs| ==> 1 <= xs[i] <= n
    ensures |xs| <= n
    decreases n
  {
    assert |xs| > 0 ==> n >= 1 by { if |xs| > 0 { assert 1 <= xs[0] <= n; } }
    if n > 0 && n in xs {
      WithoutFacts(xs, n);
      var rest := Without(xs, n);
      forall i | 0 <= i < |rest|
        ensures 1 <= rest[i] <= n - 1
      {
        assert rest[i] in rest;
      }
      AtMost(n - 1, rest);
    } else if n > 0 {
      assert forall i :: 0 <= i < |xs| ==> xs[i] in xs;
      AtMost(n - 1, xs);
    }
  }

  // With 1023 entries no inode is free.
  lemma NoInodeFree(s: State)
    requires Listed(s) && UniqueInodes(s) && |s.files| >= MAX_FILES - 1
    ensures FreeFrom(s, 1) == -1
  {
    var i := FreeFrom(s, 1);
    var xs := Inodes(s);
    assert forall k :: 0 <= k < |xs| ==> s.files[k] in s.files && xs[k] == s.entry[s.files[k]].inode;
    if i != -1 {
      var more := xs + [i];
      assert forall k :: 0 <= k < |xs| ==> xs[k] != i;
      AtMost(MAX_FILES - 1, more);
    }
  }

  // A new entry keeps the inodes unique exactly when fewer than 1023 entries exist.
  lemma CreatedKeepsInodes(s: State, addr: nat, path: string, kind: Kind)
    requires Inv(s) && UniqueInodes(s) && addr !in s.entry
    ensures UniqueInodes(Created(s, addr, path, kind)) <==> |s.files| < MAX_FILES - 1
  {
    hide FreeFrom, Distinct;
    if |s.files| < MAX_FILES - 1 {
      SomeInodeFree(s);
      assert !InodeUsed(s, FreeFrom(s, 1));
    } else {
      NoInodeFree(s);
      assert Created(s, addr, path, kind).entry[addr].inode == -1;
    }
  }

  // From then on every new entry gets inode -1.
  lemma InodesRunOut(s: State, addr: nat, path: string, next: nat, other: string, kind: Kind)
    requires Inv(s) && UniqueInodes(s) && |s.files| >= MAX_FILES - 1
    requires addr != next && addr !in s.entry && next !in s.entry
    ensures var t := Created(Created(s, addr, path, kind), next, other, kind);
            t.entry[addr].inode == t.entry[next].inode == -1
  {
    hide FreeFrom, Distinct;
    NoInodeFree(s);
    var m := Created(s, addr, path, kind);
    forall i | 1 <= i < MAX_FILES
      ensures InodeUsed(m, i)
    {
      assert InodeUsed(s, i);
      var a :| a in s.entry && s.entry[a].inode == i;
      assert a in m.entry && m.entry[a].inode == i;
    }
    assert FreeFrom(m, 1) == -1;
  }

  lemma DirnameIsOther(path: string)
    ensures Dirname(path) == path ==> path == "." || path == "/"
  {
  }

  lemma KeepsDirectory(s: State, t: State, path: string)
    requires forall a :: a in s.entry && s.entry[a].name == path ==>
               a in t.entry && t.entry[a].name == path && t.entry[a].kind == s.entry[a].kind
    ensures IsDirectory(s, path) ==> IsDirectory(t, path)
  {
  }

  // A new entry keeps every parent in place exactly when its own parent exists.
  lemma CreatedRooted(s: State, addr: nat, path: string, kind: Kind)
    requires addr !in s.entry && Rooted(s)
    ensures Rooted(Created(s, addr, path, kind)) <==> HasParent(s, path)
  {
    hide FreeFrom, Dirname;
    DirnameIsOther(path);
    var t := Created(s, addr, path, kind);
    assert t.entry[addr].name == path;
    forall a | a in s.entry
      ensures HasParent(t, t.entry[a].name)
    {
      assert HasParent(s, s.entry[a].name);
      KeepsDirectory(s, t, Dirname(s.entry[a].name));
    }
    KeepsDirectory(s, t, Dirname(path));
    if Dirname(path) != path {
      KeepsDirectory(t, s, Dirname(path));
    }
  }

  // No entry needs this one as its directory.
  ghost predicate Bare(s: State, addr: nat)
    requires addr in s.entry
  {
    s.entry[addr].name == "." || s.entry[addr].name == "/" || !HasChild(s, s.entry[addr].name)
  }

  // Only directories have children.
  lemma RegularIsBare(s: State, addr: nat)
    requires UniquePaths(s) && addr in s.entry && Rooted(s) && s.entry[addr].kind != Directory
    ensures Bare(s, addr)
  {
    hide Dirname;
  }

  lemma BareKeepsParent(s: State, addr: nat, a: nat)
    requires addr in s.entry && Rooted(s) && Bare(s, addr) && a in s.entry && a != addr
    ensures HasParent(Destroyed(s, addr), s.entry[a].name)
  {
    hide Dirname, Without;
    var t, parent := Destroyed(s, addr), Dirname(s.entry[a].name);
    assert HasParent(s, s.entry[a].name);
    if parent != "." && parent != "/" {
      DirnameIsOther(s.entry[a].name);
      assert HasChild(s, parent);
      var d :| d in s.entry && s.entry[d].name == parent && s.entry[d].kind == Directory;
      assert t.entry[d] == s.entry[d];
    }
  }

  // Removing an entry leaves every other parent in place exactly when it has no children.
  lemma DestroyedRooted(s: State, addr: nat)
    requires UniquePaths(s) && addr in s.entry && Rooted(s)
    ensures Rooted(Destroyed(s, addr)) <==> Bare(s, addr)
    ensures s.entry[addr].kind != Directory ==> Bare(s, addr)
  {
    hide Dirname, Without;
    var t, path := Destroyed(s, addr), s.entry[addr].name;
    if s.entry[addr].kind != Directory {
      RegularIsBare(s, addr);
    }
    if Bare(s, addr) {
      forall a | a in t.entry
        ensures HasParent(t, t.entry[a].name)
      {
        BareKeepsParent(s, addr, a);
      }
    } else {
      var a :| a in s.entry && s.entry[a].name != path && Dirname(s.entry[a].name) == path;
      assert a in t.entry && t.entry[a].name == s.entry[a].name;
      assert forall d :: d in t.entry ==> d in s.entry && d != addr && t.entry[d] == s.entry[d];
      assert !HasParent(t, t.entry[a].name);
    }
  }

  // ---- runs -------------------------------------------------------------------------------

  datatype Op =
    | Create(addr: nat, path: string, kind: Kind)
    | Destroy(addr: nat)
    | Open(addr: nat, handle: nat)
    | Close(handle: nat)

  ghost predicate Enabled(s: State, op: Op) {
    match op
    case Create(addr, path, kind) => addr !in s.entry && !Exists(s, path)
    case Destroy(addr) => addr in s.entry && s.entry[addr].handles == []
    case Open(addr, handle) => addr in s.entry && handle !in s.vfs
    case Close(handle) => handle in s.vfs && s.vfs[handle].device in s.entry
  }

  ghost function Apply(s: State, op: Op): State
    requires Enabled(s, op)
  {
    match op
    case Create(addr, path, kind) => Created(s, addr, path, kind)
    case Destroy(addr) => Destroyed(s, addr)
    case Open(addr, handle) => Opened(s, addr, handle)
    case Close(handle) => Closed(s, handle)
  }

  // Unique paths and inodes, nfiles and the handle lists survive every change.
  lemma ApplyKeeps(s: State, op: Op)
    requires Inv(s) && Enabled(s, op) && UniqueInodes(s) && (op.Create? ==> |s.files| < MAX_FILES - 1)
    ensures Inv(Apply(s, op)) && UniqueInodes(Apply(s, op))
  {
    hide Created, Opened, Closed, Listed, UniquePaths, Held;
    match op
    case Create(addr, path, kind) =>
      CreatedKeepsInv(s, addr, path, kind);
      CreatedKeepsInodes(s, addr, path, kind);
    case Destroy(addr) => DestroyedKeepsInv(s, addr);
    case Open(addr, handle) => OpenedKeepsInv(s, addr, handle);
    case Close(handle) => ClosedKeepsInv(s, handle);
  }

  ghost predicate Runnable(s: State, ops: seq<Op>)
    decreases |ops|
  {
    ops == [] ||
    (Enabled(s, ops[0]) && (ops[0].Create? ==> |s.files| < MAX_FILES - 1) && Runnable(Apply(s, ops[0]), ops[1..]))
  }

  ghost function Run(s: State, ops: seq<Op>): State
    requires Runnable(s, ops)
    decreases |ops|
  {
    if ops == [] then s else Run(Apply(s, ops[0]), ops[1..])
  }

  // The handle h is open on the same entry in both states.
  ghost predicate SameFile(s: State, t: State, h: nat) {
    && h in s.vfs && h in t.vfs && t.vfs[h] == s.vfs[h]
    && var a := s.vfs[h].device;
       && a in s.entry && a in t.entry && t.entry[a].inode == s.entry[a].inode
       && t.entry[a].name == s.entry[a].name && t.entry[a].kind == s.entry[a].kind
  }

  lemma StepKeepsHandle(s: State, op: Op, h: nat)
    requires Held(s) && Enabled(s, op) && h in s.vfs && op != Close(h)
    ensures SameFile(s, Apply(s, op), h)
  {
    hide FreeFrom, Without;
    assert Holds(s, h);
  }

  // The inode of an open handle resolves to the entry it was opened on, whatever happens to
  // other entries and handles in between.
  lemma {:induction false} HandleSafety(s: State, ops: seq<Op>, h: nat)
    requires Inv(s) && UniqueInodes(s) && Runnable(s, ops) && h in s.vfs && Close(h) !in ops
    ensures var t := Run(s, ops);
            && Inv(t) && UniqueInodes(t) && SameFile(s, t, h)
            && forall a :: a in t.entry && t.entry[a].inode == t.vfs[h].ino <==> a == s.vfs[h].device
    decreases |ops|
  {
    hide Listed, UniquePaths, Distinct, Apply, Enabled;
    assert Holds(s, h);
    if ops != [] {
      ApplyKeeps(s, ops[0]);
      StepKeepsHandle(s, ops[0], h);
      HandleSafety(Apply(s, ops[0]), ops[1..], h);
    }
  }

  // A new entry has a parent, a removed one no children.
  ghost predicate Tidy(s: State, op: Op)
    requires Enabled(s, op)
  {
    match op
    case Create(addr, path, kind) => HasParent(s, path)
    case Destroy(addr) => Bare(s, addr)
    case _ => true
  }

  lemma ApplyRooted(s: State, op: Op)
    requires Inv(s) && Rooted(s) && Enabled(s, op)
    ensures Rooted(Apply(s, op)) <==> Tidy(s, op)
  {
    hide Created, Destroyed, Opened, Closed, Listed, Held, UniquePaths, Rooted, HasParent, Bare;
    match op
    case Create(addr, path, kind) => CreatedRooted(s, addr, path, kind);
    case Destroy(addr) => DestroyedRooted(s, addr);
    case Open(addr, handle) =>
      OpenedSame(s, addr, handle);
      SameEntriesRooted(s, Opened(s, addr, handle));
    case Close(handle) =>
      ClosedSame(s, handle);
      SameEntriesRooted(s, Closed(s, handle));
  }

  ghost predicate Careful(s: State, ops: seq<Op>)
    requires Runnable(s, ops)
    decreases |ops|
  {
    ops == [] || (Tidy(s, ops[0]) && Careful(Apply(s, ops[0]), ops[1..]))
  }

  // Every entry has its directory, in every state of the run.
  ghost predicate AlwaysRooted(s: State, ops: seq<Op>)
    requires Runnable(s, ops)
    decreases |ops|
  {
    Rooted(s) && (ops == [] || AlwaysRooted(Apply(s, ops[0]), ops[1..]))
  }

  // A run never leaves an entry without its directory exactly if every new entry has a parent and
  // every removed one has no children.
  lemma {:induction false} RunRooted(s: State, ops: seq<Op>)
    requires Inv(s) && UniqueInodes(s) && Rooted(s) && Runnable(s, ops)
    ensures AlwaysRooted(s, ops) <==> Careful(s, ops)
    ensures Careful(s, ops) ==> Rooted(Run(s, ops))
    decreases |ops|
  {
    hide Listed, UniquePaths, Held, UniqueInodes, Apply, Enabled, Tidy, Rooted;
    if ops != [] {
      ApplyKeeps(s, ops[0]);
      ApplyRooted(s, ops[0]);
      if Tidy(s, ops[0]) {
        RunRooted(Apply(s, ops[0]), ops[1..]);
      }
    }
  }
}
