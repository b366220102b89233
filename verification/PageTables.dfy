/**
 Two-level 32-bit paging as a flat map from virtual pages to frames.  A directory entry names
 the frame of a page table; the table is read and written through the recursive mapping.
*/
module PageTables {
  import opened Arith
  import opened FrameBitmap

  // union PML: a 20-bit frame number and 12 flag bits.
  datatype Entry = Entry(frame: int, flags: bv12)

  // vmm_page_set_flags
  function SetFlags(flags: bv12, more: bv12): bv12 { flags | more }

  const EMPTY: Entry := Entry(0, 0)

  predicate Present(e: Entry) { e.flags & 1 != 0 }
  predicate Large(e: Entry) { e.flags & 0x80 != 0 }

  datatype Option<T> = None | Some(value: T)

  // The directory and the page tables, by the frame that holds them.
  datatype Space = Space(dir: seq<Entry>, tables: map<int, seq<Entry>>)

  // Virtual pages below the recursive slot 1023.
  predicate Page(p: int) { 0 <= p < 1023 * 1024 }

  // Present directory entries name distinct tables.
  ghost predicate Proper(s: Space) {
    && |s.dir| == 1024
    && (forall i :: 0 <= i < 1023 ==> !Large(s.dir[i]))
    && (forall i :: 0 <= i < 1023 && Present(s.dir[i]) ==>
          s.dir[i].frame in s.tables && |s.tables[s.dir[i].frame]| == 1024)
    && (forall i, j :: 0 <= i < j < 1023 && Present(s.dir[i]) && Present(s.dir[j]) ==> s.dir[i].frame != s.dir[j].frame)
  }

  // The frame that a page translates to.
  function Walk(s: Space, p: int): (r: Option<int>)
    requires Proper(s) && Page(p)
  {
    var pde := s.dir[p / 1024];
    if !Present(pde) then None
    else
      var pte := s.tables[pde.frame][p % 1024];
      if Present(pte) then Some(pte.frame) else None
  }

  // The page table entry of a page; without a table it has none.
  ghost function EntryOf(s: Space, p: int): Entry
    requires Proper(s) && Page(p)
  {
    var pde := s.dir[p / 1024];
    if Present(pde) then s.tables[pde.frame][p % 1024] else EMPTY
  }

  // A directory entry and a zeroed table for it.
  function AddTable(s: Space, i: int, e: Entry): Space
    requires 0 <= i < |s.dir|
  {
    Space(s.dir[i := e], s.tables[e.frame := seq(1024, _ => EMPTY)])
  }

  // The page table entry of `p` replaced.
  function SetEntry(s: Space, p: int, e: Entry): Space
    requires Proper(s) && Page(p) && Present(s.dir[p / 1024])
  {
    var f := s.dir[p / 1024].frame;
    s.(tables := s.tables[f := s.tables[f][p % 1024 := e]])
  }

  lemma SplitPage(p: int)
    requires Page(p)
    ensures 0 <= p / 1024 < 1023 && 0 <= p % 1024 < 1024 && p == p / 1024 * 1024 + p % 1024
  {
  }

  // Giving an absent directory entry a fresh zeroed table changes no translation.
  lemma AddTableKeepsWalk(s: Space, i: int, e: Entry)
    requires Proper(s) && 0 <= i < 1023 && !Present(s.dir[i]) && Present(e) && !Large(e)
    requires forall j :: 0 <= j < 1023 && Present(s.dir[j]) ==> s.dir[j].frame != e.frame
    ensures Proper(AddTable(s, i, e))
    ensures forall p :: Page(p) ==> Walk(AddTable(s, i, e), p) == Walk(s, p)
    ensures forall p :: Page(p) ==> EntryOf(AddTable(s, i, e), p) == EntryOf(s, p)
  {
    var s' := AddTable(s, i, e);
    assert Proper(s');
    forall p | Page(p)
      ensures Walk(s', p) == Walk(s, p) && EntryOf(s', p) == EntryOf(s, p)
    {
      SplitPage(p);
      assert p / 1024 != i ==> s'.dir[p / 1024] == s.dir[p / 1024];
    }
  }

  // Replacing one entry changes the translation of its page and no other.
  lemma SetEntryUpdatesWalk(s: Space, p: int, e: Entry)
    requires Proper(s) && Page(p) && Present(s.dir[p / 1024])
    ensures Proper(SetEntry(s, p, e))
    ensures Walk(SetEntry(s, p, e), p) == (if Present(e) then Some(e.frame) else None)
    ensures forall q :: Page(q) && q != p ==> Walk(SetEntry(s, p, e), q) == Walk(s, q)
    ensures forall q :: Page(q) ==> EntryOf(SetEntry(s, p, e), q) == if q == p then e else EntryOf(s, q)
  {
    var s' := SetEntry(s, p, e);
    SplitPage(p);
    forall q | Page(q) && q != p
      ensures Walk(s', q) == Walk(s, q) && EntryOf(s', q) == EntryOf(s, q)
    {
      SplitPage(q);
      var i, j := p / 1024, q / 1024;
      if i == j {
        assert p % 1024 != q % 1024;
      } else if Present(s.dir[j]) {
        assert s.dir[i].frame != s.dir[j].frame;
      }
    }
  }

  // The access flags that callers pass: present, and not a large page.
  predicate AccessFlags(flags: bv12) { flags & 1 != 0 && flags & 0x80 == 0 }

  // vmm_page_set_flags only adds flags: any mask meets the result if it meets what was there or what
  // is added.
  lemma FlagsAdded(flags: bv12, more: bv12, mask: bv12)
    ensures SetFlags(flags, more) & mask != 0 <==> flags & mask != 0 || more & mask != 0
  {
    assert (flags | more) & mask == (flags & mask) | (more & mask);
  }

  lemma OrEntry(old': Entry, frame: int, flags: bv12)
    requires AccessFlags(flags)
    ensures Present(Entry(frame, SetFlags(old'.flags, flags)))
    ensures !Large(old') ==> !Large(Entry(frame, SetFlags(old'.flags, flags)))
  {
  }

  // The entries of `count` pages from `first` on hold the frames from `frame` on, and the flags that
  // they had together with those given; every other entry is as it was.
  ghost predicate Written(s: Space, s': Space, first: int, count: int, frame: int, flags: bv12)
    requires Proper(s) && Proper(s')
  {
    forall p :: Page(p) ==>
      EntryOf(s', p) == if first <= p < first + count
                        then Entry(frame + (p - first), SetFlags(EntryOf(s, p).flags, flags))
                        else EntryOf(s, p)
  }

  ghost predicate SameEntries(s: Space, s': Space)
    requires Proper(s) && Proper(s')
  {
    forall p :: Page(p) ==> EntryOf(s', p) == EntryOf(s, p)
  }

  // Directory entry i has got a table in a frame that was free.
  ghost predicate Added(s: Space, s': Space, i: int, flags: bv12, used: seq<bool>, used': seq<bool>)
    requires Proper(s) && Proper(s') && 0 <= i < 1023
  {
    var f := s'.dir[i].frame;
    && Present(s'.dir[i]) && s'.dir == s.dir[i := Entry(f, SetFlags(s.dir[i].flags, flags))]
    && 0 <= f < |used| && !used[f] && used' == used[f := true]
    && SameEntries(s, s')
  }

  // Directory entry i covers one of the pages.
  predicate Covers(i: int, first: int, count: int) {
    count > 0 && first < 1024 * (i + 1) && 1024 * i < first + count
  }

  // Directory entries that were absent and cover one of the pages have got a table, with the flags
  // that they had together with those given; every other one is as it was.
  ghost predicate Opened(s: Space, s': Space, first: int, count: int, flags: bv12)
    requires Proper(s) && Proper(s')
  {
    && s'.dir[1023] == s.dir[1023]
    && forall i :: 0 <= i < 1023 ==>
         if Present(s.dir[i]) || !Covers(i, first, count) then s'.dir[i] == s.dir[i]
         else Present(s'.dir[i]) && s'.dir[i].flags == SetFlags(s.dir[i].flags, flags)
  }

  // A page table has been put into this frame.
  ghost predicate NewTable(s: Space, s': Space, f: int) {
    exists i :: 0 <= i < 1023 && i < |s.dir| && i < |s'.dir| &&
      !Present(s.dir[i]) && Present(s'.dir[i]) && s'.dir[i].frame == f
  }

  // Exactly these frames and those of new page tables have become used.
  ghost predicate Marks(s: Space, s': Space, used: seq<bool>, used': seq<bool>, frame: int, count: int) {
    && |used'| == |used|
    && forall f :: 0 <= f < |used| ==> (used'[f] <==> used[f] || frame <= f < frame + count || NewTable(s, s', f))
  }

  // The entries of `count` pages from `first` on have been cleared if they were present; every other
  // entry and the directory are as they were.
  ghost predicate Cleared(s: Space, s': Space, first: int, count: int)
    requires Proper(s) && Proper(s')
  {
    && s'.dir == s.dir
    && forall p :: Page(p) ==>
         EntryOf(s', p) == if first <= p < first + count && Present(EntryOf(s, p)) then EMPTY else EntryOf(s, p)
  }

  // The flat map with `count` pages from `first` on mapped to frames from `frame` on.
  ghost predicate Mapped(s: Space, s': Space, first: int, count: int, frame: int)
    requires Proper(s) && Proper(s')
  {
    forall p :: Page(p) ==>
      Walk(s', p) == if first <= p < first + count then Some(frame + (p - first)) else Walk(s, p)
  }

  // The flat map with `count` pages from `first` on removed.
  ghost predicate Unmapped(s: Space, s': Space, first: int, count: int)
    requires Proper(s) && Proper(s')
  {
    forall p :: Page(p) ==> Walk(s', p) == if first <= p < first + count then None else Walk(s, p)
  }

  // Page tables live in frames that are marked as used.
  ghost predicate TablesUsed(s: Space, used: seq<bool>) {
    forall i :: 0 <= i < 1023 && i < |s.dir| && Present(s.dir[i]) ==>
      0 <= s.dir[i].frame < |used| && used[s.dir[i].frame]
  }

  ghost predicate SameWalk(s: Space, s': Space)
    requires Proper(s) && Proper(s')
  {
    forall p :: Page(p) ==> Walk(s', p) == Walk(s, p)
  }

  // A table in a frame that was free until now.
  lemma InstallFacts(s: Space, i: int, frame: nat, flags: bv12, used: seq<bool>)
    requires Proper(s) && TablesUsed(s, used) && 0 <= i < 1023 && !Present(s.dir[i]) && AccessFlags(flags)
    requires frame < |used| && !used[frame]
    ensures var s' := AddTable(s, i, Entry(frame, SetFlags(s.dir[i].flags, flags)));
            && Proper(s') && SameWalk(s, s') && Present(s'.dir[i])
            && TablesUsed(s', used[frame := true])
            && Added(s, s', i, flags, used, used[frame := true])
  {
    hide SetFlags;
    OrEntry(s.dir[i], frame, flags);
    AddTableKeepsWalk(s, i, Entry(frame, SetFlags(s.dir[i].flags, flags)));
  }

  lemma OneWritten(s: Space, s': Space, p: int, frame: int, flags: bv12, e: Entry)
    requires Proper(s) && Proper(s') && Page(p) && e == Entry(frame, SetFlags(EntryOf(s, p).flags, flags))
    requires forall q :: Page(q) ==> EntryOf(s', q) == if q == p then e else EntryOf(s, q)
    ensures Written(s, s', p, 1, frame, flags)
  {
    hide SetFlags, EntryOf, Proper;
  }

  lemma EntryIsThere(s: Space, p: int)
    requires Proper(s) && Page(p) && Present(s.dir[p / 1024])
    ensures s.dir[p / 1024].frame in s.tables && |s.tables[s.dir[p / 1024].frame]| == 1024 && 0 <= p % 1024 < 1024
    ensures EntryOf(s, p) == s.tables[s.dir[p / 1024].frame][p % 1024]
  {
    SplitPage(p);
  }

  lemma EntryReplaced(s: Space, p: int, e: Entry, used: seq<bool>)
    requires Proper(s) && TablesUsed(s, used) && Page(p) && Present(s.dir[p / 1024]) && Present(e)
    ensures var s' := SetEntry(s, p, e);
            && Proper(s') && Mapped(s, s', p, 1, e.frame) && TablesUsed(s', used) && s'.dir == s.dir
            && forall q :: Page(q) ==> EntryOf(s', q) == if q == p then e else EntryOf(s, q)
  {
    hide SetFlags, Walk, EntryOf, Present, Proper;
    SetEntryUpdatesWalk(s, p, e);
  }

  // An entry of a table rewritten: only its own page is translated differently.
  lemma EntryFacts(s: Space, p: int, flags: bv12, frame: int, used: seq<bool>)
    requires Proper(s) && TablesUsed(s, used) && Page(p) && Present(s.dir[p / 1024]) && AccessFlags(flags)
    ensures s.dir[p / 1024].frame in s.tables && |s.tables[s.dir[p / 1024].frame]| == 1024
    ensures var s' := SetEntry(s, p, Entry(frame, SetFlags(s.tables[s.dir[p / 1024].frame][p % 1024].flags, flags)));
            && Proper(s') && Mapped(s, s', p, 1, frame) && TablesUsed(s', used)
            && Written(s, s', p, 1, frame, flags) && s'.dir == s.dir
  {
    hide SetFlags, Walk, EntryOf, Written, Present, AccessFlags, Mapped, TablesUsed, SetEntry, Proper;
    EntryIsThere(s, p);
    OrEntry(EntryOf(s, p), frame, flags);
    var e := Entry(frame, SetFlags(EntryOf(s, p).flags, flags));
    EntryReplaced(s, p, e, used);
    OneWritten(s, SetEntry(s, p, e), p, frame, flags, e);
  }

  // Frames only become used.
  ghost predicate OnlyMarks(used: seq<bool>, used': seq<bool>) {
    |used'| == |used| && forall f :: 0 <= f < |used| && used[f] ==> used'[f]
  }

  lemma UnmapFacts(s: Space, p: int, used: seq<bool>)
    requires Proper(s) && TablesUsed(s, used) && Page(p)
    ensures var s' := if Walk(s, p) == None then s else SetEntry(s, p, EMPTY);
            Proper(s') && Unmapped(s, s', p, 1) && Cleared(s, s', p, 1) && TablesUsed(s', used)
  {
    SplitPage(p);
    if Walk(s, p) != None {
      SetEntryUpdatesWalk(s, p, EMPTY);
    }
  }

  // Mapping one more page extends the mapped range.
  lemma MappedExtends(s: Space, m: Space, s': Space, first: int, count: nat, frame: int)
    requires Proper(s) && Proper(m) && Proper(s')
    requires Mapped(s, m, first, count, frame) && Mapped(m, s', first + count, 1, frame + count)
    ensures Mapped(s, s', first, count + 1, frame)
  {
  }

  lemma WrittenExtends(s: Space, m: Space, s': Space, first: int, count: nat, frame: int, flags: bv12)
    requires Proper(s) && Proper(m) && Proper(s')
    requires Written(s, m, first, count, frame, flags) && Written(m, s', first + count, 1, frame + count, flags)
    ensures Written(s, s', first, count + 1, frame, flags)
  {
    hide SetFlags, EntryOf;
  }

  lemma TablesExtend(s: Space, m: Space, s': Space, first: int, count: nat, flags: bv12, f: int)
    requires Proper(s) && Proper(m) && Proper(s')
    requires Opened(s, m, first, count, flags) && Opened(m, s', first + count, 1, flags)
    ensures NewTable(s, s', f) <==> NewTable(s, m, f) || NewTable(m, s', f)
  {
    hide SetFlags, Present, Covers;
    assert forall i :: 0 <= i < 1023 && Present(s.dir[i]) ==> m.dir[i] == s.dir[i];
    assert forall i :: 0 <= i < 1023 && Present(m.dir[i]) ==> s'.dir[i] == m.dir[i];
    if NewTable(s, m, f) {
      var i :| 0 <= i < 1023 && !Present(s.dir[i]) && Present(m.dir[i]) && m.dir[i].frame == f;
      assert s'.dir[i] == m.dir[i];
    }
    if NewTable(m, s', f) {
      var i :| 0 <= i < 1023 && !Present(m.dir[i]) && Present(s'.dir[i]) && s'.dir[i].frame == f;
      assert !Present(s.dir[i]);
    }
    if NewTable(s, s', f) {
      var i :| 0 <= i < 1023 && !Present(s.dir[i]) && Present(s'.dir[i]) && s'.dir[i].frame == f;
      assert Present(m.dir[i]) ==> NewTable(s, m, f);
    }
  }

  lemma OpenedExtends(s: Space, m: Space, s': Space, first: int, count: nat, flags: bv12)
    requires Proper(s) && Proper(m) && Proper(s')
    requires Opened(s, m, first, count, flags) && Opened(m, s', first + count, 1, flags)
    ensures Opened(s, s', first, count + 1, flags)
    ensures forall f :: NewTable(s, s', f) <==> NewTable(s, m, f) || NewTable(m, s', f)
  {
    hide SetFlags, Present;
    forall i | 0 <= i < 1023
      ensures Covers(i, first, count + 1) <==> Covers(i, first, count) || Covers(i, first + count, 1)
    {
    }
    forall f
      ensures NewTable(s, s', f) <==> NewTable(s, m, f) || NewTable(m, s', f)
    {
      TablesExtend(s, m, s', first, count, flags, f);
    }
  }

  lemma MarksExtend(s: Space, m: Space, s': Space, used: seq<bool>, used1: seq<bool>, used2: seq<bool>,
                    frame: int, count: nat)
    requires Marks(s, m, used, used1, frame, count) && Marks(m, s', used1, used2, frame + count, 1)
    requires forall f :: NewTable(s, s', f) <==> NewTable(s, m, f) || NewTable(m, s', f)
    ensures Marks(s, s', used, used2, frame, count + 1)
  {
    hide NewTable;
  }

  lemma ClearedExtends(s: Space, m: Space, s': Space, first: int, count: nat)
    requires Proper(s) && Proper(m) && Proper(s')
    requires Cleared(s, m, first, count) && Cleared(m, s', first + count, 1)
    ensures Cleared(s, s', first, count + 1)
  {
    hide EntryOf, Present;
  }

  lemma WrittenFrom(s: Space, m: Space, s': Space, page: int, frame: int, flags: bv12)
    requires Proper(s) && Proper(m) && Proper(s') && SameEntries(s, m) && Written(m, s', page, 1, frame, flags)
    ensures Written(s, s', page, 1, frame, flags)
  {
    hide SetFlags, EntryOf, Proper;
  }

  lemma CoversOne(i: int, page: int)
    ensures Covers(i, page, 1) <==> i == page / 1024
  {
  }

  // The directory after one page, with or without a table for it.
  lemma OpenedOne(s: Space, s': Space, page: int, flags: bv12)
    requires Proper(s) && Proper(s') && Page(page) && Present(s'.dir[page / 1024])
    requires var i := page / 1024;
             if Present(s.dir[i]) then s'.dir == s.dir
             else s'.dir == s.dir[i := s'.dir[i]] && s'.dir[i].flags == SetFlags(s.dir[i].flags, flags)
    ensures Opened(s, s', page, 1, flags)
  {
    hide SetFlags, Present, Covers;
    SplitPage(page);
    forall i | 0 <= i < 1023
      ensures Covers(i, page, 1) <==> i == page / 1024
    {
      CoversOne(i, page);
    }
  }

  lemma SameWalkAt(s: Space, s': Space, p: int)
    requires Proper(s) && Proper(s') && Page(p) && SameWalk(s, s')
    ensures Walk(s', p) == Walk(s, p)
  {
  }

  lemma SameAsItself(s: Space)
    requires Proper(s)
    ensures SameEntries(s, s) && SameWalk(s, s)
  {
  }

  lemma MappedFrom(s: Space, m: Space, s': Space, page: int, frame: int)
    requires Proper(s) && Proper(m) && Proper(s') && SameWalk(s, m) && Mapped(m, s', page, 1, frame)
    ensures Mapped(s, s', page, 1, frame)
  {
  }

  lemma UnmappedExtends(s: Space, m: Space, s': Space, first: int, count: nat)
    requires Proper(s) && Proper(m) && Proper(s')
    requires Unmapped(s, m, first, count) && Unmapped(m, s', first + count, 1)
    ensures Unmapped(s, s', first, count + 1)
  {
  }

  // A range that was empty is empty again after it was mapped and unmapped.
  lemma UnmapUndoesMap(s: Space, m: Space, s': Space, first: int, count: nat, frame: int)
    requires Proper(s) && Proper(m) && Proper(s')
    requires Mapped(s, m, first, count, frame) && Unmapped(m, s', first, count)
    requires forall p :: Page(p) && first <= p < first + count ==> Walk(s, p) == None
    ensures SameWalk(s, s')
  {
  }

  lemma ClearedAgain(s: Space, m: Space, s': Space, first: int, count: nat, frame: int, flags: bv12)
    requires Proper(s) && Proper(m) && Proper(s') && AccessFlags(flags)
    requires Written(s, m, first, count, frame, flags) && Cleared(m, s', first, count)
    ensures forall p :: Page(p) ==> EntryOf(s', p) == if first <= p < first + count then EMPTY else EntryOf(s, p)
  {
    hide SetFlags, EntryOf, Proper;
    forall p | Page(p)
      ensures EntryOf(s', p) == if first <= p < first + count then EMPTY else EntryOf(s, p)
    {
      OrEntry(EntryOf(s, p), frame + (p - first), flags);
    }
  }

  // The frames that one page has marked, with or without a table for it.
  lemma TableMarked(s: Space, m: Space, s': Space, i: int, used: seq<bool>, used': seq<bool>, frame: int, count: nat)
    requires 0 <= i < 1023 && |s.dir| == |m.dir| == 1024 && s'.dir == m.dir && count <= 1
    requires m.dir == s.dir || (!Present(s.dir[i]) && Present(m.dir[i]) && m.dir == s.dir[i := m.dir[i]] &&
                                0 <= m.dir[i].frame < |used|)
    requires count == 1 ==> 0 <= frame < |used|
    requires var marked := if m.dir == s.dir then used else used[m.dir[i].frame := true];
             used' == if count == 1 then marked[frame := true] else marked
    ensures Marks(s, s', used, used', frame, count)
  {
    hide SetFlags, Present;
    forall f
      ensures NewTable(s, s', f) <==> m.dir != s.dir && f == m.dir[i].frame
    {
      if m.dir != s.dir && f == m.dir[i].frame {
        assert 0 <= i < 1023 && !Present(s.dir[i]) && Present(s'.dir[i]) && s'.dir[i].frame == f;
      }
    }
  }

  // The number of pages that a loop from ALIGN_DOWN(virt) to ALIGN_UP(virt + size) visits.
  function PagesTouched(virtAddr: int, size: int): int {
    (virtAddr + size + 4095) / 4096 - virtAddr / 4096
  }

  // The number of pages that a loop from ALIGN_UP(virt) to ALIGN_DOWN(virt + size) visits, if
  // positive.
  function PagesInside(virtAddr: int, size: int): int {
    (virtAddr + size) / 4096 - (virtAddr + 4095) / 4096
  }

  lemma PageOf(p: int)
    ensures p * 4096 / 4096 == p
  {
    DivModShift(0, 4096, p);
  }

  lemma AlignedRange(virtAddr: int, size: int)
    requires virtAddr % 4096 == 0 && size % 4096 == 0
    ensures (virtAddr + 4095) / 4096 == virtAddr / 4096
    ensures PagesTouched(virtAddr, size) == PagesInside(virtAddr, size) == size / 4096
  {
    var a, n := virtAddr / 4096, size / 4096;
    DivModUnique(virtAddr + 4095, 4096, a, 4095);
    DivModUnique(virtAddr + size, 4096, a + n, 0);
    DivModUnique(virtAddr + size + 4095, 4096, a + n, 4095);
  }

  lemma NothingMapped(s: Space, first: int, frame: int)
    requires Proper(s)
    ensures Mapped(s, s, first, 0, frame)
  {
  }

  lemma NothingUnmapped(s: Space, first: int)
    requires Proper(s)
    ensures Unmapped(s, s, first, 0)
  {
  }

  lemma NothingWritten(s: Space, used: seq<bool>, first: int, frame: int, flags: bv12)
    requires Proper(s)
    ensures Written(s, s, first, 0, frame, flags) && Opened(s, s, first, 0, flags) && Marks(s, s, used, used, frame, 0)
    ensures Cleared(s, s, first, 0)
  {
  }

  // A range of bytes touches the pages that hold one of its bytes or the place of an empty one.
  lemma TouchedMeans(virtAddr: int, size: int, p: int)
    requires 0 <= size
    ensures virtAddr / 4096 <= p < virtAddr / 4096 + PagesTouched(virtAddr, size)
            <==> p * 4096 < virtAddr + size && virtAddr < (p + 1) * 4096
  {
    var a, b := virtAddr / 4096, (virtAddr + size + 4095) / 4096;
    assert a * 4096 <= virtAddr < (a + 1) * 4096;
    assert b * 4096 <= virtAddr + size + 4095 < (b + 1) * 4096;
  }

  // A range of bytes holds the pages all of whose bytes are in it.
  lemma InsideMeans(virtAddr: int, size: int, p: int)
    ensures (virtAddr + 4095) / 4096 <= p < (virtAddr + 4095) / 4096 + PagesInside(virtAddr, size)
            <==> virtAddr <= p * 4096 && (p + 1) * 4096 <= virtAddr + size
  {
    var a, b := (virtAddr + 4095) / 4096, (virtAddr + size) / 4096;
    assert a * 4096 <= virtAddr + 4095 < (a + 1) * 4096;
    assert b * 4096 <= virtAddr + size < (b + 1) * 4096;
  }

  lemma EmptyRange(s: Space, s': Space, first: int, count: int, count': int)
    requires Proper(s) && Proper(s') && Unmapped(s, s', first, count)
    requires Cleared(s, s', first, count)
    requires count == count' || (count == 0 && count' <= 0)
    ensures Unmapped(s, s', first, count') && Cleared(s, s', first, count')
  {
    hide EntryOf, Walk;
  }

  class AddressSpace {
    const frames: Frames
    const directory: array<Entry>
    var tables: map<int, seq<Entry>>
    ghost var space: Space

    ghost predicate Valid()
      reads this, directory, frames, frames.bitmap
    {
      && frames.Sound() && frames.maxFrames <= 0x10_0000
      && directory.Length == 1024 && directory[..] == space.dir && tables == space.tables
      && Proper(space) && TablesUsed(space, frames.used)
    }

    // A directory with no mapping yet.
    constructor (pmm: Frames)
      requires pmm.Sound() && pmm.maxFrames <= 0x10_0000
      ensures Valid() && frames == pmm && fresh(directory)
      ensures forall p :: Page(p) ==> Walk(space, p) == None
      ensures forall i :: 0 <= i < 1024 ==> space.dir[i] == EMPTY
    {
      frames := pmm;
      directory := new Entry[1024](_ => EMPTY);
      tables := map[];
      space := Space(seq(1024, _ => EMPTY), map[]);
      new;
      assert Proper(space);
      forall p | Page(p)
        ensures Walk(space, p) == None
      {
        SplitPage(p);
      }
    }

    // vmm_pde_allocate, followed by the clearing of the new table.  False when the machine
    // halts because no frame is left.
    method AllocateTable(i: int, flags: bv12) returns (ok: bool)
      requires Valid() && 0 <= i < 1023 && !Present(directory[i]) && AccessFlags(flags)
      modifies this`tables, this`space, directory, frames, frames.bitmap
      ensures OnlyMarks(old(frames.used), frames.used)
      ensures ok ==> Valid() && Present(directory[i]) && SameWalk(old(space), space)
      ensures ok ==> Added(old(space), space, i, flags, old(frames.used), frames.used)
      ensures !ok ==> frames.Exhausted()
    {
      hide SetFlags, Proper, TablesUsed, SameWalk, Present, AccessFlags, Added;
      ghost var used := frames.used;
      var frame := frames.AllocateFrame();
      if frame == 0 {
        return false;
      }
      InstallFacts(space, i, frame, flags, used);
      assert directory[i] == space.dir[i];
      var e := Entry(frame, SetFlags(directory[i].flags, flags));
      tables := tables[frame := seq(1024, _ => EMPTY)];
      assert Space(space.dir[i := e], tables) == AddTable(space, i, e);
      space := Space(space.dir[i := e], tables);
      directory[i] := e;
      ok := true;
    }

    // vmm_map_page.
    method MapPage(virtAddr: int, physAddr: int, flags: bv12) returns (ok: bool)
      requires Valid() && 0 <= virtAddr < 0xFFC0_0000 && 0 <= physAddr && physAddr / 4096 < |frames.used|
      requires AccessFlags(flags)
      modifies this`tables, this`space, directory, frames, frames.bitmap
      ensures |frames.used| == |old(frames.used)|
      ensures ok ==> Valid() && Mapped(old(space), space, virtAddr / 4096, 1, physAddr / 4096)
      ensures ok ==> Written(old(space), space, virtAddr / 4096, 1, physAddr / 4096, flags)
      ensures ok ==> Opened(old(space), space, virtAddr / 4096, 1, flags)
      ensures ok ==> Marks(old(space), space, old(frames.used), frames.used, physAddr / 4096, 1)
      ensures !ok ==> frames.Exhausted()
    {
      hide SetFlags, Present, AccessFlags, Walk, EntryOf, Written, Opened, Mapped, SameWalk, SameEntries, TablesUsed,
           Marks;
      ghost var s, used := space, frames.used;
      var page := virtAddr / 4096;
      var pdEntry := page / 1024 % 1024;
      SplitPage(page);
      if !Present(directory[pdEntry]) {
        ok := AllocateTable(pdEntry, flags);
        if !ok {
          return;
        }
      }
      ghost var m := space;
      SameAsItself(s);
      MapAddr(page, flags, physAddr);
      WrittenFrom(s, m, space, page, physAddr / 4096, flags);
      OpenedOne(s, space, page, flags);
      MappedFrom(s, m, space, page, physAddr / 4096);
      TableMarked(s, m, space, page / 1024, used, frames.used, physAddr / 4096, 1);
      ok := true;
    }

    // vmm_page_map_addr, on the table entry of `page`.
    method MapAddr(page: int, flags: bv12, physAddr: int)
      requires Valid() && Page(page) && Present(directory[page / 1024])
      requires 0 <= physAddr && physAddr / 4096 < |frames.used| && AccessFlags(flags)
      modifies this`tables, this`space, frames, frames.bitmap
      ensures Valid() && |frames.used| == |old(frames.used)|
      ensures Mapped(old(space), space, page, 1, physAddr / 4096)
      ensures Written(old(space), space, page, 1, physAddr / 4096, flags) && space.dir == old(space).dir
      ensures frames.used == old(frames.used)[physAddr / 4096 := true]
    {
      hide SetFlags, Proper, Mapped, Written, Present, AccessFlags;
      frames.FrameSet(physAddr / 4096);
      WriteEntry(page, physAddr / 4096, flags);
    }

    // Writes the frame number and adds the flags to the table entry of `page`.
    method WriteEntry(page: int, frame: int, flags: bv12)
      requires Valid() && Page(page) && Present(directory[page / 1024]) && AccessFlags(flags)
      modifies this`tables, this`space
      ensures Valid() && Mapped(old(space), space, page, 1, frame)
      ensures Written(old(space), space, page, 1, frame, flags) && space.dir == old(space).dir
    {
      hide SetFlags, Proper, TablesUsed, Mapped, Written, Present, AccessFlags, Frames.Sound;
      SplitPage(page);
      EntryFacts(space, page, flags, frame, frames.used);
      var f, ptEntry := directory[page / 1024].frame, page % 1024;
      assert f == space.dir[page / 1024].frame;
      var e := Entry(frame, SetFlags(tables[f][ptEntry].flags, flags));
      tables := tables[f := tables[f][ptEntry := e]];
      assert space.(tables := tables) == SetEntry(space, page, e);
      space := space.(tables := tables);
    }

    // vmm_unmap_page; the TLB entry is not modelled.
    method UnmapPage(virtAddr: int)
      requires Valid() && 0 <= virtAddr < 0xFFC0_0000
      modifies this`tables, this`space
      ensures Valid() && Unmapped(old(space), space, virtAddr / 4096, 1)
      ensures Cleared(old(space), space, virtAddr / 4096, 1)
    {
      hide TablesUsed, Unmapped, Cleared;
      var page := virtAddr / 4096;
      var pdEntry, ptEntry := page / 1024 % 1024, page % 1024;
      SplitPage(page);
      UnmapFacts(space, page, frames.used);
      if !Present(directory[pdEntry]) {
        return;
      }
      var f := directory[pdEntry].frame;
      if !Present(tables[f][ptEntry]) {
        return;
      }
      tables := tables[f := tables[f][ptEntry := EMPTY]];
      assert space.(tables := tables) == SetEntry(space, page, EMPTY);
      space := space.(tables := tables);
    }

    // vmm_map_range: every page that the byte range touches.
    method MapRange(virtAddr: int, physAddr: int, size: int, flags: bv12) returns (ok: bool)
      requires Valid() && AccessFlags(flags)
      requires 0 <= virtAddr && 0 <= size && virtAddr + size <= 0xFFC0_0000
      requires 0 <= physAddr && physAddr / 4096 + PagesTouched(virtAddr, size) <= |frames.used|
      modifies this`tables, this`space, directory, frames, frames.bitmap
      ensures ok ==>
                Valid() && Mapped(old(space), space, virtAddr / 4096, PagesTouched(virtAddr, size), physAddr / 4096)
      ensures ok ==>
                var first, count, frame := virtAddr / 4096, PagesTouched(virtAddr, size), physAddr / 4096;
                && Written(old(space), space, first, count, frame, flags)
                && Opened(old(space), space, first, count, flags)
                && Marks(old(space), space, old(frames.used), frames.used, frame, count)
      ensures !ok ==> frames.Exhausted()
    {
      hide SetFlags, Frames.Sound, TablesUsed, Mapped, AccessFlags, Written, Opened, Marks, NewTable;
      var startAddr := virtAddr / 4096 * 4096;
      var endAddr := (virtAddr + size + 4095) / 4096 * 4096;
      var phys := physAddr / 4096 * 4096;
      ghost var count := 0;
      NothingMapped(space, virtAddr / 4096, physAddr / 4096);
      NothingWritten(space, frames.used, virtAddr / 4096, physAddr / 4096, flags);
      while startAddr < endAddr
        invariant 0 <= count <= PagesTouched(virtAddr, size)
        invariant startAddr == (virtAddr / 4096 + count) * 4096 && phys == (physAddr / 4096 + count) * 4096
        invariant Valid() && |frames.used| == |old(frames.used)|
        invariant Mapped(old(space), space, virtAddr / 4096, count, physAddr / 4096)
        invariant Written(old(space), space, virtAddr / 4096, count, physAddr / 4096, flags)
        invariant Opened(old(space), space, virtAddr / 4096, count, flags)
        invariant Marks(old(space), space, old(frames.used), frames.used, physAddr / 4096, count)
        decreases PagesTouched(virtAddr, size) - count
      {
        ghost var before, used := space, frames.used;
        PageOf(virtAddr / 4096 + count);
        PageOf(physAddr / 4096 + count);
        ok := MapPage(startAddr, phys, flags);
        if !ok {
          return;
        }
        MappedExtends(old(space), before, space, virtAddr / 4096, count, physAddr / 4096);
        WrittenExtends(old(space), before, space, virtAddr / 4096, count, physAddr / 4096, flags);
        OpenedExtends(old(space), before, space, virtAddr / 4096, count, flags);
        MarksExtend(old(space), before, space, old(frames.used), used, frames.used, physAddr / 4096, count);
        startAddr := startAddr + 4096;
        phys := phys + 4096;
        count := count + 1;
      }
      ok := true;
    }

    // vmm_unmap_range: every page that lies inside the byte range.
    method UnmapRange(virtAddr: int, size: int)
      requires Valid()
      requires 0 <= virtAddr && 0 <= size && virtAddr + size <= 0xFFC0_0000
      modifies this`tables, this`space
      ensures Valid() && Unmapped(old(space), space, (virtAddr + 4095) / 4096, PagesInside(virtAddr, size))
      ensures Cleared(old(space), space, (virtAddr + 4095) / 4096, PagesInside(virtAddr, size))
    {
      hide Frames.Sound, TablesUsed, Unmapped, Cleared;
      var startAddr := (virtAddr + 4095) / 4096 * 4096;
      var endAddr := (virtAddr + size) / 4096 * 4096;
      ghost var first, count := (virtAddr + 4095) / 4096, 0;
      NothingUnmapped(space, first);
      NothingWritten(space, frames.used, first, 0, 0);
      while startAddr < endAddr
        invariant 0 <= count && (count == 0 || count <= PagesInside(virtAddr, size))
        invariant startAddr == (first + count) * 4096
        invariant Valid() && Unmapped(old(space), space, first, count) && Cleared(old(space), space, first, count)
        decreases PagesInside(virtAddr, size) - count
      {
        ghost var before := space;
        PageOf(first + count);
        UnmapPage(startAddr);
        UnmappedExtends(old(space), before, space, first, count);
        ClearedExtends(old(space), before, space, first, count);
        startAddr := startAddr + 4096;
        count := count + 1;
      }
      EmptyRange(old(space), space, first, count, PagesInside(virtAddr, size));
    }

    // Mapping a page-aligned range that was empty and unmapping it leaves every translation as
    // it was.
    method MapThenUnmap(virtAddr: int, physAddr: int, size: int, flags: bv12) returns (ok: bool)
      requires Valid() && AccessFlags(flags)
      requires 0 <= virtAddr && 0 <= size && virtAddr + size <= 0xFFC0_0000
      requires virtAddr % 4096 == 0 && size % 4096 == 0
      requires 0 <= physAddr && physAddr / 4096 + size / 4096 <= |frames.used|
      requires forall p :: Page(p) && virtAddr / 4096 <= p < virtAddr / 4096 + size / 4096 ==> Walk(space, p) == None
      modifies this`tables, this`space, directory, frames, frames.bitmap
      ensures ok ==> Valid() && SameWalk(old(space), space)
      ensures ok ==>
                forall p :: Page(p) ==>
                  EntryOf(space, p) == if virtAddr / 4096 <= p < virtAddr / 4096 + size / 4096 then EMPTY
                                       else EntryOf(old(space), p)
      ensures !ok ==> frames.Exhausted()
    {
      hide SetFlags, Frames.Sound, TablesUsed, Mapped, Unmapped, AccessFlags, Proper, Written, Cleared, Opened, Marks;
      AlignedRange(virtAddr, size);
      ok := MapRange(virtAddr, physAddr, size, flags);
      if ok {
        ghost var m := space;
        UnmapRange(virtAddr, size);
        UnmapUndoesMap(old(space), m, space, virtAddr / 4096, size / 4096, physAddr / 4096);
        ClearedAgain(old(space), m, space, virtAddr / 4096, size / 4096, physAddr / 4096, flags);
      }
    }

    // vmm_create_page: a page that has no frame yet gets a free one.
    method CreatePage(virtAddr: int, flags: bv12) returns (ok: bool, frame: int)
      requires Valid() && 0 <= virtAddr < 0xFFC0_0000 && AccessFlags(flags)
      modifies this`tables, this`space, directory, frames, frames.bitmap
      ensures ok ==> Valid() && Mapped(old(space), space, virtAddr / 4096, 1, frame)
      ensures ok ==> Written(old(space), space, virtAddr / 4096, 1, frame, flags)
      ensures ok ==> Opened(old(space), space, virtAddr / 4096, 1, flags)
      ensures ok ==>
                var n := if Walk(old(space), virtAddr / 4096) == None then 1 else 0;
                Marks(old(space), space, old(frames.used), frames.used, frame, n)
      ensures !ok ==> frames.Exhausted()
      ensures ok && Walk(old(space), virtAddr / 4096) == None ==>
                0 <= frame < |old(frames.used)| && !old(frames.used)[frame]
      ensures ok && Walk(old(space), virtAddr / 4096) != None ==> Walk(old(space), virtAddr / 4096) == Some(frame)
    {
      hide SetFlags, Present, AccessFlags, Mapped, EntryOf, Written, Opened, Marks, SameEntries, SameWalk, TablesUsed,
           Walk;
      ghost var s0, used := space, frames.used;
      var page := virtAddr / 4096;
      var pdEntry := page / 1024 % 1024;
      SplitPage(page);
      ok, frame := true, 0;
      if !Present(directory[pdEntry]) {
        ok := AllocateTable(pdEntry, flags);
      }
      if ok {
        ghost var s := space;
        SameAsItself(s0);
        SameWalkAt(s0, s, page);
        ok, frame := FillEntry(page, flags);
        if ok {
          MappedFrom(old(space), s, space, page, frame);
          WrittenFrom(s0, s, space, page, frame, flags);
          OpenedOne(s0, space, page, flags);
          TableMarked(s0, s, space, page / 1024, used, frames.used, frame, if Walk(s, page) == None then 1 else 0);
        }
      }
    }

    // The page table entry gets a free frame if it has none, and the flags.
    method FillEntry(page: int, flags: bv12) returns (ok: bool, frame: int)
      requires Valid() && Page(page) && Present(directory[page / 1024]) && AccessFlags(flags)
      modifies this`tables, this`space, frames, frames.bitmap
      ensures ok ==> Valid() && Mapped(old(space), space, page, 1, frame)
      ensures ok ==> Written(old(space), space, page, 1, frame, flags) && space.dir == old(space).dir
      ensures !ok ==> frames.Exhausted()
      ensures ok && Walk(old(space), page) == None ==> 0 <= frame < |old(frames.used)| && !old(frames.used)[frame]
      ensures ok && Walk(old(space), page) != None ==> Walk(old(space), page) == Some(frame)
      ensures ok && Walk(old(space), page) == None ==> frames.used == old(frames.used)[frame := true]
      ensures ok && Walk(old(space), page) != None ==> frames.used == old(frames.used)
    {
      hide SetFlags, Mapped, Written, Present, AccessFlags;
      SplitPage(page);
      var pte := tables[directory[page / 1024].frame][page % 1024];
      frame := pte.frame;
      if !Present(pte) {
        frame := frames.AllocateFrame();
        if frame == 0 {
          return false, 0;
        }
      }
      WriteEntry(page, frame, flags);
      ok := true;
    }

    // vmm_r_get_phy_addr
    method PhysicalAddress(virtAddr: int) returns (physAddr: int)
      requires Valid() && 0 <= virtAddr < 0xFFC0_0000 && Walk(space, virtAddr / 4096) != None
      ensures physAddr == Walk(space, virtAddr / 4096).value * 4096 + virtAddr % 4096
    {
      SplitPage(virtAddr / 4096);
      var table := tables[directory[virtAddr / 4096 / 1024].frame];
      physAddr := table[virtAddr / 4096 % 1024].frame * 4096 + virtAddr % 4096;
    }
  }
}
