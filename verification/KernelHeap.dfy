/**
 The kernel heap over its headers: block_t records in memory, linked by `next` in address
 order and by `nextfree` through the free blocks.  Addresses are integers and 0 is NULL.
*/
module KernelHeap {
  import opened Arith
  import opened Seqs
  import opened HeapModel

  // block_t: the low bit of `size` is the state, set for a free block.
  datatype Header = Header(size: nat, nextfree: int, next: int)

  type Memory = map<int, Header>

  function RealSize(size: nat): nat {
    size / 2 * 2
  }

  // The state bit of a size word.
  function StateBit(size: nat): nat {
    size % 2
  }

  function Raw(t: Tile): int {
    if t.free then t.size + 1 else t.size
  }

  lemma RawParts(t: Tile)
    requires t.size >= 0 && t.size % 4 == 0
    ensures RealSize(Raw(t)) == t.size && (StateBit(Raw(t)) == 1 <==> t.free)
  {
    var q := t.size / 4;
    DivModUnique(t.size, 2, 2 * q, 0);
    DivModUnique(t.size + 1, 2, 2 * q, 1);
  }

  predicate IsFree(m: Memory, block: int) {
    block != 0 && block in m && StateBit(m[block].size) == 1
  }

  // The payload bytes that a header announces.
  function Room(m: Memory, block: int): nat {
    if block in m then RealSize(m[block].size) else 0
  }

  // ---- linked lists in memory ------------------------------------------------------------

  // The `next` pointers lead from `first` through `tiles` to `last`, and the headers say what
  // the tiles say.
  ghost predicate Linked(m: Memory, first: int, tiles: seq<Tile>, last: int)
    decreases |tiles|
  {
    if tiles == [] then first == last
    else first == tiles[0].addr && first in m && m[first].size == Raw(tiles[0])
         && Linked(m, m[first].next, tiles[1..], last)
  }

  // The `nextfree` pointers lead from `first` through `frees` to `last`.
  ghost predicate Chained(m: Memory, first: int, frees: seq<int>, last: int)
    decreases |frees|
  {
    if frees == [] then first == last
    else first == frees[0] && first in m && Chained(m, m[first].nextfree, frees[1..], last)
  }

  ghost function Head(tiles: seq<Tile>, last: int): int {
    if tiles == [] then last else tiles[0].addr
  }

  lemma {:induction false} LinkedConcat(m: Memory, first: int, a: seq<Tile>, b: seq<Tile>, last: int)
    ensures Linked(m, first, a + b, last) <==> Linked(m, first, a, Head(b, last)) && Linked(m, Head(b, last), b, last)
    decreases |a|
  {
    if a == [] {
      assert a + b == b;
    } else {
      assert (a + b)[1..] == a[1..] + b;
      if first in m {
        LinkedConcat(m, m[first].next, a[1..], b, last);
      }
    }
  }

  lemma {:induction false} ChainedConcat(m: Memory, first: int, a: seq<int>, b: seq<int>, last: int)
    ensures Chained(m, first, a + b, last) <==>
              var mid := if b == [] then last else b[0];
              Chained(m, first, a, mid) && Chained(m, mid, b, last)
    decreases |a|
  {
    if a == [] {
      assert a + b == b;
    } else {
      assert (a + b)[1..] == a[1..] + b;
      if first in m {
        ChainedConcat(m, m[first].nextfree, a[1..], b, last);
      }
    }
  }

  // Writes to other headers, or to other fields, leave a list alone.
  lemma {:induction false} LinkedFrame(m: Memory, m': Memory, first: int, tiles: seq<Tile>, last: int)
    requires Linked(m, first, tiles, last)
    requires forall t :: t in tiles && t.addr in m ==>
               t.addr in m' && m'[t.addr].size == m[t.addr].size && m'[t.addr].next == m[t.addr].next
    ensures Linked(m', first, tiles, last)
    decreases |tiles|
  {
    if tiles != [] {
      assert tiles[0] in tiles && forall t :: t in tiles[1..] ==> t in tiles;
      LinkedFrame(m, m', m[first].next, tiles[1..], last);
    }
  }

  lemma {:induction false} ChainedFrame(m: Memory, m': Memory, first: int, frees: seq<int>, last: int)
    requires Chained(m, first, frees, last)
    requires forall a :: a in frees && a in m ==> a in m' && m'[a].nextfree == m[a].nextfree
    ensures Chained(m', first, frees, last)
    decreases |frees|
  {
    if frees != [] {
      assert frees[0] in frees && forall a :: a in frees[1..] ==> a in frees;
      ChainedFrame(m, m', m[first].nextfree, frees[1..], last);
    }
  }

  lemma {:induction false} LinkedAt(m: Memory, first: int, tiles: seq<Tile>, last: int, i: nat)
    requires Linked(m, first, tiles, last) && i < |tiles|
    ensures tiles[i].addr in m && m[tiles[i].addr].size == Raw(tiles[i])
    ensures m[tiles[i].addr].next == (if i + 1 < |tiles| then tiles[i + 1].addr else last)
    decreases |tiles|
  {
    if i > 0 {
      LinkedAt(m, m[first].next, tiles[1..], last, i - 1);
    }
  }

  lemma {:induction false} ChainedIn(m: Memory, first: int, frees: seq<int>, last: int)
    requires Chained(m, first, frees, last)
    ensures forall a :: a in frees ==> a in m
    decreases |frees|
  {
    if frees != [] {
      assert frees == [frees[0]] + frees[1..];
      ChainedIn(m, m[first].nextfree, frees[1..], last);
    }
  }

  function SetNextfree(m: Memory, a: int, x: int): Memory
    requires a in m
  {
    m[a := m[a].(nextfree := x)]
  }

  // Only `nextfree` fields differ.
  ghost predicate SameBlocks(m: Memory, m': Memory) {
    && m'.Keys == m.Keys
    && forall a :: a in m ==> m'[a].size == m[a].size && m'[a].next == m[a].next
  }

  lemma DistinctParts(a: seq<int>, prev: int, block: int, b: seq<int>)
    requires Distinct(a + [prev] + ([block] + b))
    ensures prev != block && prev !in a && block !in a && prev !in b && block !in b
  {
    var s := a + [prev] + ([block] + b);
    assert s[|a|] == prev && s[|a| + 1] == block;
    assert forall k :: 0 <= k < |a| ==> s[k] == a[k];
    assert forall k :: 0 <= k < |b| ==> s[|a| + 2 + k] == b[k];
  }

  // Unlinking a free block that has a predecessor in the free list.
  lemma UnchainAfter(m: Memory, first: int, a: seq<int>, prev: int, block: int, b: seq<int>)
    requires Chained(m, first, a + [prev] + ([block] + b), 0)
    requires Distinct(a + [prev] + ([block] + b))
    requires block in m && prev in m
    ensures var m' := SetNextfree(SetNextfree(m, prev, m[block].nextfree), block, 0);
            Chained(m', first, a + [prev] + b, 0)
  {
    var m' := SetNextfree(SetNextfree(m, prev, m[block].nextfree), block, 0);
    DistinctParts(a, prev, block, b);
    hide Distinct;
    Assoc(a, [prev], [block] + b);
    ChainedConcat(m, first, a, [prev] + ([block] + b), 0);
    assert ([prev] + ([block] + b))[1..] == [block] + b && ([block] + b)[1..] == b;
    ChainedFrame(m, m', first, a, prev);
    ChainedFrame(m, m', m[block].nextfree, b, 0);
    assert ([prev] + b)[1..] == b;
    Assoc(a, [prev], b);
    ChainedConcat(m', first, a, [prev] + b, 0);
  }

  lemma InTheRest(frees: seq<int>, k: nat, block: int)
    requires k < |frees| && block in frees && block !in frees[..k + 1]
    ensures block in frees[k + 1..]
  {
    assert frees == frees[..k + 1] + frees[k + 1..];
  }

  // A free list that block `a` can be unlinked from.
  ghost predicate ListFacts(frees: seq<int>, a: int) {
    a in frees && 0 !in frees && Distinct(frees)
  }

  lemma UnchainFound(m: Memory, first: int, frees: seq<int>, k: nat, block: int)
    requires Chained(m, first, frees, 0) && ListFacts(frees, block)
    requires k < |frees| && block !in frees[..k + 1]
    requires frees[k] in m && m[frees[k]].nextfree == block
    requires Chained(m, frees[k], frees[k..], 0)
    ensures block in m
    ensures var m' := SetNextfree(SetNextfree(m, frees[k], m[block].nextfree), block, 0);
            Chained(m', first, Without(frees, block), 0)
  {
    var rest := frees[k + 1..];
    assert frees[k..][1..] == rest;
    ChainedIn(m, first, frees, 0);
    InTheRest(frees, k, block);
    assert rest[0] == block;
    Neighbours(frees, k);
    UnchainAfter(m, first, frees[..k], frees[k], block, frees[k + 2..]);
    hide Without;
    WithoutSplit(frees[..k + 1], rest);
    assert rest[1..] == frees[k + 2..];
  }

  // Headers of the blocks outside the part that is replaced keep their size and `next`.
  ghost predicate KeepsHeaders(m: Memory, m': Memory, tiles: seq<Tile>) {
    forall t :: t in tiles && t.addr in m ==>
      t.addr in m' && m'[t.addr].size == m[t.addr].size && m'[t.addr].next == m[t.addr].next
  }

  // The address of the last block, as the `tail` word holds it.
  ghost function TailOf(tiles: seq<Tile>): int {
    if tiles == [] then 0 else tiles[|tiles| - 1].addr
  }

  lemma TailIsLast(h: Heap, i: nat)
    requires Inv(h) && i < |h.tiles|
    ensures h.tiles[i].addr == TailOf(h.tiles) <==> i == |h.tiles| - 1
    ensures forall k :: 0 <= k < i ==> h.tiles[k].addr != h.tiles[i].addr
    ensures 0 < h.tiles[i].addr
  {
    TiledWithin(h.start, h.tiles, h.top, h.tiles[i]);
    if i < |h.tiles| - 1 {
      BeforeInHeap(h, i, |h.tiles| - 1);
    }
    forall k | 0 <= k < i
      ensures h.tiles[k].addr != h.tiles[i].addr
    {
      BeforeInHeap(h, k, i);
    }
  }

  // Replacing blocks in the middle of the list, in place of blocks that start at the same address.
  lemma ReplaceLinked(m: Memory, m': Memory, first: int, a: seq<Tile>, mid: seq<Tile>, mid': seq<Tile>, b: seq<Tile>)
    requires Linked(m, first, a + mid + b, 0)
    requires mid != [] && mid' != [] && mid[0].addr == mid'[0].addr
    requires Linked(m', mid'[0].addr, mid', Head(b, 0))
    requires KeepsHeaders(m, m', a) && KeepsHeaders(m, m', b)
    ensures Linked(m', first, a + mid' + b, 0)
  {
    Assoc(a, mid, b);
    LinkedConcat(m, first, a, mid + b, 0);
    LinkedConcat(m, mid[0].addr, mid, b, 0);
    LinkedFrame(m, m', first, a, mid[0].addr);
    LinkedFrame(m, m', Head(b, 0), b, 0);
    LinkedConcat(m', mid'[0].addr, mid', b, 0);
    Assoc(a, mid', b);
    LinkedConcat(m', first, a, mid' + b, 0);
  }

  // Only the headers at `xs` may have another size or `next` pointer.
  ghost predicate WroteOnly(m: Memory, m': Memory, xs: set<int>) {
    forall a :: a in m && a !in xs ==> a in m' && m'[a].size == m[a].size && m'[a].next == m[a].next
  }

  lemma WroteThen(m: Memory, m': Memory, m'': Memory, xs: set<int>)
    requires WroteOnly(m, m', xs) && SameBlocks(m', m'')
    ensures WroteOnly(m, m'', xs)
  {
  }

  lemma FreesAreAddresses(h: Heap)
    requires Inv(h)
    ensures 0 !in h.frees && Distinct(h.frees)
    ensures forall a :: a in h.frees ==> exists i :: 0 <= i < |h.tiles| && h.tiles[i].addr == a && h.tiles[i].free
  {
    forall a | a in h.frees
      ensures a > 0
      ensures exists i :: 0 <= i < |h.tiles| && h.tiles[i].addr == a && h.tiles[i].free
    {
      var t :| t in h.tiles && t.free && t.addr == a;
      TiledWithin(h.start, h.tiles, h.top, t);
    }
  }

  // The block after a free block, if there is one, is not free.
  lemma NextNotFree(h: Heap, m: Memory, first: int, i: nat)
    requires Inv(h) && Linked(m, first, h.tiles, 0) && i < |h.tiles| && h.tiles[i].free
    ensures !IsFree(m, Head(h.tiles[i + 1..], 0))
    ensures Head(h.tiles[i + 1..], 0) != h.tiles[i].addr
  {
    TailIsLast(h, i);
    if i + 1 < |h.tiles| {
      LinkedAt(m, first, h.tiles, 0, i + 1);
      assert !(h.tiles[i].free && h.tiles[i + 1].free);
      BeforeInHeap(h, i, i + 1);
      SizeAt(h, i + 1);
      RawParts(h.tiles[i + 1]);
    }
  }

  // Writes to headers in a part of the heap leave the headers of the rest.
  lemma KeepsOutside(h: Heap, m: Memory, m': Memory, a: seq<Tile>, mid: seq<Tile>, b: seq<Tile>, xs: set<int>)
    requires Inv(h) && h.tiles == a + mid + b && mid != [] && WroteOnly(m, m', xs)
    requires forall x :: x in xs ==> mid[0].addr <= x < mid[|mid| - 1].End()
    ensures KeepsHeaders(m, m', a) && KeepsHeaders(m, m', b)
  {
    var lo, hi := mid[0], mid[|mid| - 1];
    forall t | t in a
      ensures t.addr !in xs
    {
      Assoc(a, mid, b);
      assert (mid + b)[0] == lo;
      TiledOrder(h.start, a, mid + b, h.top, t, lo);
      assert t in h.tiles;
      TiledWithin(h.start, h.tiles, h.top, t);
    }
    forall t | t in b
      ensures t.addr !in xs
    {
      assert hi in a + mid by { assert (a + mid)[|a| + |mid| - 1] == hi; }
      TiledOrder(h.start, a + mid, b, h.top, hi, t);
    }
  }

  // The headers after block `i` was carved describe the carved heap.
  lemma CarveLinked(h: Heap, m: Memory, m': Memory, first: int, i: nat, need: int)
    requires Inv(h) && Linked(m, first, h.tiles, 0) && i < |h.tiles| && 0 <= need <= h.tiles[i].size
    requires WroteOnly(m, m', {h.tiles[i].addr} + (set r | r in Remainder(h.tiles[i], need) :: r.addr))
    requires h.tiles[i].addr in m' && m'[h.tiles[i].addr].size == Taken(h.tiles[i], need).size
    requires Linked(m', m'[h.tiles[i].addr].next, Remainder(h.tiles[i], need), Head(h.tiles[i + 1..], 0))
    ensures Linked(m', first, Carve(h, i, need).tiles, 0)
  {
    var t, a, b := h.tiles[i], h.tiles[..i], h.tiles[i + 1..];
    var k, rest := Taken(t, need), Remainder(t, need);
    SplitAt(h.tiles, i);
    assert ([k] + rest)[1..] == rest;
    KeepsOutside(h, m, m', a, [t], b, {t.addr} + (set r | r in rest :: r.addr));
    ReplaceLinked(m, m', first, a, [t], [k] + rest, b);
  }

  // Without a split only the size word of the block changes.
  lemma CarvedWhole(h: Heap, m: Memory, m': Memory, first: int, i: nat, need: int)
    requires Inv(h) && Linked(m, first, h.tiles, 0) && i < |h.tiles| && 0 <= need <= h.tiles[i].size
    requires Remainder(h.tiles[i], need) == []
    requires WroteOnly(m, m', {h.tiles[i].addr}) && h.tiles[i].addr in m && h.tiles[i].addr in m'
    requires m'[h.tiles[i].addr].size == h.tiles[i].size && m'[h.tiles[i].addr].next == m[h.tiles[i].addr].next
    ensures Linked(m', first, Carve(h, i, need).tiles, 0)
  {
    LinkedAt(m, first, h.tiles, 0, i);
    CarveLinked(h, m, m', first, i, need);
  }

  lemma CarvedSplit(h: Heap, m: Memory, m': Memory, first: int, i: nat, need: int, rest: int)
    requires Inv(h) && Linked(m, first, h.tiles, 0) && i < |h.tiles| && 0 <= need <= h.tiles[i].size
    requires Remainder(h.tiles[i], need) != [] && rest == h.tiles[i].addr + OVERHEAD + need
    requires WroteOnly(m, m', {h.tiles[i].addr, rest}) && h.tiles[i].addr in m' && rest in m'
    requires m'[h.tiles[i].addr].size == need && m'[h.tiles[i].addr].next == rest
    requires m'[rest].size == h.tiles[i].size - need - OVERHEAD + 1
    requires m'[rest].next == Head(h.tiles[i + 1..], 0)
    ensures Linked(m', first, Carve(h, i, need).tiles, 0)
  {
    var r := Remainder(h.tiles[i], need);
    assert r == [r[0]] && r[1..] == [] && r[0] in r;
    assert {h.tiles[i].addr} + (set x | x in r :: x.addr) == {h.tiles[i].addr, rest};
    CarveLinked(h, m, m', first, i, need);
  }

  lemma CarveTail(h: Heap, i: nat, need: int)
    requires i < |h.tiles|
    ensures var rest := Remainder(h.tiles[i], need);
            TailOf(Carve(h, i, need).tiles)
            == if i == |h.tiles| - 1 && rest != [] then rest[0].addr else TailOf(h.tiles)
    ensures Carve(h, i, need).start == h.start && Carve(h, i, need).top == h.top
    ensures var rest := Remainder(h.tiles[i], need);
            Carve(h, i, need).frees
            == Without(if rest == [] then h.frees else [rest[0].addr] + h.frees, h.tiles[i].addr)
  {
    var t, a, b := h.tiles[i], h.tiles[..i], h.tiles[i + 1..];
    var mid := [Taken(t, need)] + Remainder(t, need);
    var tiles := a + mid + b;
    assert b == [] ==> tiles[|tiles| - 1] == mid[|mid| - 1];
    assert b != [] ==> tiles[|tiles| - 1] == b[|b| - 1];
    assert [] + h.frees == h.frees;
  }

  // What __do_malloc relies on when it takes block `i`.
  lemma CarveFacts(h: Heap, m: Memory, first: int, i: nat, need: int)
    requires Inv(h) && Linked(m, first, h.tiles, 0) && i < |h.tiles| && h.tiles[i].free
    requires 0 <= need <= h.tiles[i].size
    ensures var t, rest, b := h.tiles[i], Remainder(h.tiles[i], need), h.tiles[i + 1..];
            && t.addr > 0 && t.size % 4 == 0 && (t.addr == TailOf(h.tiles) <==> i == |h.tiles| - 1)
            && t.addr in m && RealSize(m[t.addr].size) == t.size
            && (if t.addr == TailOf(h.tiles) then 0 else m[t.addr].next) == Head(b, 0) == m[t.addr].next
            && !IsFree(m, Head(b, 0)) && Head(b, 0) != t.addr
            && (rest != [] ==>
              rest[0].addr > 0 && ListFacts([rest[0].addr] + h.frees, t.addr) && rest[0].addr !in h.frees)
            && ListFacts(h.frees, t.addr)
  {
    hide RealSize, StateBit, Raw, Lists, NoAdjacentFree;
    LinkedAt(m, first, h.tiles, 0, i);
    TailIsLast(h, i);
    SizeAt(h, i);
    RawParts(h.tiles[i]);
    FreesAreAddresses(h);
    ListedIffFree(h, i);
    RemainderIsNew(h, i, need);
    assert Remainder(h.tiles[i], need) != [] ==> Remainder(h.tiles[i], need)[0] in Remainder(h.tiles[i], need);
    NextNotFree(h, m, first, i);
  }

  // Some free block can hold `need` bytes.
  ghost predicate Fits(h: Heap, need: int) {
    exists i :: 0 <= i < |h.tiles| && h.tiles[i].free && need <= h.tiles[i].size
  }

  // Block `i` is a smallest one among the free blocks that can hold `need` bytes, and the first of
  // those on the free list.
  ghost predicate BestFit(h: Heap, i: int, need: int) {
    && 0 <= i < |h.tiles| && h.tiles[i].free && need <= h.tiles[i].size
    && (forall j :: 0 <= j < |h.tiles| && h.tiles[j].free && need <= h.tiles[j].size ==>
          h.tiles[i].size <= h.tiles[j].size)
    && forall j :: 0 <= j < |h.tiles| && h.tiles[j].free && h.tiles[j].size == h.tiles[i].size && j != i ==>
         Before(h.frees, h.tiles[i].addr, h.tiles[j].addr)
  }

  lemma JoinedAddr(h: Heap, i: nat)
    requires i < |h.tiles| && !JoinsPrev(h.tiles, i)
    ensures Joined(h.tiles, i).addr == h.tiles[i].addr && Joined(h.tiles, i).free
  {
  }

  // A block that was just given back and joined no block before it is the first choice for a
  // request of its size.
  lemma FreedIsReused(h: Heap, i: nat, j: int)
    requires Inv(h) && i < |h.tiles| && !h.tiles[i].free && !JoinsPrev(h.tiles, i)
    requires BestFit(Release(h, i), j, Joined(h.tiles, i).size)
    ensures Release(h, i).tiles[j] == Tile(h.tiles[i].addr, Joined(h.tiles, i).size, true)
  {
    var h', t := Release(h, i), Joined(h.tiles, i);
    hide Joined;
    ReleaseKeepsInv(h, i);
    ReleaseNewFirst(h, i);
    ListedIffFree(h, i);
    assert h'.tiles[i] == t;
    JoinedAddr(h, i);
    if j != i {
      ListedIffFree(h', i);
      ListedIffFree(h', j);
      assert Before(h'.frees, h'.tiles[j].addr, t.addr);
      BeforeOneWay(h'.frees, h'.tiles[j].addr, t.addr);
      BeforeOneWay(h.frees, h'.tiles[j].addr, t.addr);
    }
  }

  lemma RoomOf(h: Heap, m: Memory, first: int, j: nat)
    requires Inv(h) && Linked(m, first, h.tiles, 0) && j < |h.tiles|
    ensures Room(m, h.tiles[j].addr) == h.tiles[j].size
    ensures IsFree(m, h.tiles[j].addr) <==> h.tiles[j].free
    ensures h.tiles[j].free <==> h.tiles[j].addr in h.frees
  {
    hide RealSize, StateBit, Raw, Lists, NoAdjacentFree;
    LinkedAt(m, first, h.tiles, 0, j);
    SizeAt(h, j);
    RawParts(h.tiles[j]);
    TailIsLast(h, j);
    ListedIffFree(h, j);
  }

  // What the free list says about the blocks, for the search.
  lemma SearchFacts(h: Heap, m: Memory, first: int)
    requires Inv(h) && Linked(m, first, h.tiles, 0)
    ensures 0 !in h.frees && Distinct(h.frees)
    ensures forall a :: a in h.frees ==> IsFree(m, a)
  {
    FreesAreAddresses(h);
    forall a | a in h.frees
      ensures IsFree(m, a)
    {
      var i :| 0 <= i < |h.tiles| && h.tiles[i].addr == a && h.tiles[i].free;
      RoomOf(h, m, first, i);
    }
  }

  // The free list names the free blocks, by different addresses.
  lemma ListedBlocks(h: Heap, m: Memory, first: int)
    requires Inv(h) && Linked(m, first, h.tiles, 0)
    ensures forall j :: 0 <= j < |h.tiles| ==>
              Room(m, h.tiles[j].addr) == h.tiles[j].size && (h.tiles[j].free <==> h.tiles[j].addr in h.frees)
    ensures forall a :: a in h.frees ==> exists j :: 0 <= j < |h.tiles| && h.tiles[j].addr == a && h.tiles[j].free
    ensures forall i, j :: 0 <= i < j < |h.tiles| ==> h.tiles[i].addr != h.tiles[j].addr
    ensures 0 !in h.frees
  {
    hide Room, Inv, Linked;
    forall j | 0 <= j < |h.tiles|
      ensures Room(m, h.tiles[j].addr) == h.tiles[j].size && (h.tiles[j].free <==> h.tiles[j].addr in h.frees)
    {
      RoomOf(h, m, first, j);
    }
    FreesAreAddresses(h);
    forall i, j | 0 <= i < j < |h.tiles|
      ensures h.tiles[i].addr != h.tiles[j].addr
    {
      BeforeInHeap(h, i, j);
    }
  }

  // A search result, told in terms of blocks.
  lemma SearchResult(h: Heap, m: Memory, first: int, need: nat, best: int) returns (i: int)
    requires Inv(h) && Linked(m, first, h.tiles, 0)
    requires best == 0 <==> forall a :: a in h.frees ==> Room(m, a) < need
    requires best != 0 ==> best in h.frees && need <= Room(m, best)
    requires best != 0 ==> forall a :: a in h.frees && need <= Room(m, a) ==> Room(m, best) <= Room(m, a)
    requires best != 0 ==>
               forall a :: a in h.frees && a != best && Room(m, a) == Room(m, best) ==> Before(h.frees, best, a)
    ensures best == 0 <==> !Fits(h, need)
    ensures best != 0 ==> BestFit(h, i, need) && h.tiles[i].addr == best
    ensures best != 0 ==> 0 <= i < |h.tiles| && h.tiles[i].free && need <= h.tiles[i].size
  {
    hide Room, Inv, Linked, Before;
    ListedBlocks(h, m, first);
    i := 0;
    if best != 0 {
      i :| 0 <= i < |h.tiles| && h.tiles[i].addr == best && h.tiles[i].free;
    }
  }

  lemma BelowLast(h: Heap, a: seq<Tile>, z: Tile)
    requires Inv(h) && h.tiles == a + [z]
    ensures forall u :: u in a ==> u.addr != z.addr && u.addr != h.top
  {
    forall u | u in a
      ensures u.addr != z.addr && u.addr != h.top
    {
      TiledOrder(h.start, a, [z], h.top, u, z);
      assert u in h.tiles && z in h.tiles;
      TiledWithin(h.start, h.tiles, h.top, u);
      TiledWithin(h.start, h.tiles, h.top, z);
    }
  }

  // Appending a block: the last block's `next` is redirected to it.
  lemma OneLinked(m: Memory, t: Tile, next: int)
    requires t.addr in m && m[t.addr].size == Raw(t) && m[t.addr].next == next
    ensures Linked(m, t.addr, [t], next)
  {
    assert [t][1..] == [];
  }

  lemma GrowLinked(h: Heap, m: Memory, m': Memory, first: int, need: int)
    requires Inv(h) && Linked(m, first, h.tiles, 0) && h.tiles != [] && need >= 0
    requires WroteOnly(m, m', {TailOf(h.tiles), h.top})
    requires TailOf(h.tiles) in m && TailOf(h.tiles) in m'
    requires m'[TailOf(h.tiles)].size == m[TailOf(h.tiles)].size && m'[TailOf(h.tiles)].next == h.top
    requires h.top in m' && m'[h.top].size == need && m'[h.top].next == 0
    ensures Linked(m', first, Grow(h, need).tiles, 0)
  {
    var n := |h.tiles| - 1;
    var a, z, t := h.tiles[..n], h.tiles[n], Tile(h.top, need, false);
    assert h.tiles == a + [z];
    LinkedConcat(m, first, a, [z], 0);
    LinkedAt(m, first, h.tiles, 0, n);
    BelowLast(h, a, z);
    hide Inv, Linked;
    LinkedFrame(m, m', first, a, z.addr);
    OneLinked(m', z, h.top);
    OneLinked(m', t, 0);
    LinkedConcat(m', z.addr, [z], [t], 0);
    LinkedConcat(m', first, a, [z] + [t], 0);
    assert a + ([z] + [t]) == h.tiles + [t];
  }

  lemma GrowFacts(h: Heap, m: Memory, first: int, free: int)
    requires Inv(h) && Linked(m, first, h.tiles, 0) && Chained(m, free, h.frees, 0)
    ensures first == 0 <==> h.tiles == []
    ensures h.tiles != [] ==> TailOf(h.tiles) in m && 0 < TailOf(h.tiles) < h.top
    ensures 0 <= h.top && 0 < h.top && h.top !in h.frees
  {
    TiledBytes(h.start, h.tiles, h.top);
    if h.tiles != [] {
      LinkedAt(m, first, h.tiles, 0, |h.tiles| - 1);
      TailIsLast(h, |h.tiles| - 1);
      TailIsLast(h, 0);
      TiledWithin(h.start, h.tiles, h.top, h.tiles[|h.tiles| - 1]);
    }
    if h.top in h.frees {
      var t :| t in h.tiles && t.free && t.addr == h.top;
      TiledWithin(h.start, h.tiles, h.top, t);
    }
  }

  lemma GrowFields(h: Heap, need: int)
    ensures Grow(h, need).start == h.start && Grow(h, need).frees == h.frees
    ensures Grow(h, need).top == h.top + OVERHEAD + need
  {
  }

  lemma GrowMemory(h: Heap, m: Memory, m': Memory, first: int, first': int, need: int)
    requires Inv(h) && Linked(m, first, h.tiles, 0) && need >= 0
    requires h.tiles == [] ==> first' == h.top && m' == m[h.top := Header(need, 0, 0)]
    requires h.tiles != [] ==> TailOf(h.tiles) in m && TailOf(h.tiles) != h.top
    requires h.tiles != [] ==>
               first' == first &&
               m' == m[TailOf(h.tiles) := m[TailOf(h.tiles)].(next := h.top)][h.top := Header(need, 0, 0)]
    ensures Linked(m', first', Grow(h, need).tiles, 0)
    ensures TailOf(Grow(h, need).tiles) == h.top
  {
    var t := Tile(h.top, need, false);
    if h.tiles == [] {
      assert h.tiles + [t] == [t] && [t][1..] == [];
    } else {
      GrowLinked(h, m, m', first, need);
    }
  }

  // A span of blocks is replaced by one, whose header has been written.
  lemma RelinkedSpan(h: Heap, m: Memory, m': Memory, first: int, lo: nat, hi: nat, t: Tile)
    requires Inv(h) && Linked(m, first, h.tiles, 0) && lo <= hi < |h.tiles|
    requires h.tiles[lo].addr == t.addr < h.tiles[hi].End() && WroteOnly(m, m', {t.addr})
    requires t.addr in m' && m'[t.addr].size == Raw(t) && m'[t.addr].next == Head(h.tiles[hi + 1..], 0)
    ensures Linked(m', first, h.tiles[..lo] + [t] + h.tiles[hi + 1..], 0)
  {
    hide Linked, Inv, Raw, WroteOnly, Head, KeepsHeaders;
    var a, mid, b := h.tiles[..lo], h.tiles[lo..hi + 1], h.tiles[hi + 1..];
    SplitRange(h.tiles, lo, hi);
    OneLinked(m', t, Head(b, 0));
    KeepsOutside(h, m, m', a, mid, b, {t.addr});
    ReplaceLinked(m, m', first, a, mid, [t], b);
  }

  // The blocks that are joined, and the block that they become.
  lemma ReleaseSpan(h: Heap, i: nat)
    requires Inv(h) && i < |h.tiles|
    ensures var lo, hi, t := First(h.tiles, i), Last(h.tiles, i), Joined(h.tiles, i);
            lo <= hi < |h.tiles| && h.tiles[lo].addr == t.addr < h.tiles[hi].End() && Raw(t) == t.size + 1
  {
    hide Inv;
    var lo, hi := First(h.tiles, i), Last(h.tiles, i);
    SizeAt(h, hi);
    if lo < hi { BeforeInHeap(h, lo, hi); }
  }

  // The header of the joined block has been written, and no other size or `next`.
  ghost predicate JoinWritten(h: Heap, m: Memory, m': Memory, i: nat)
    requires i < |h.tiles|
  {
    var t := Joined(h.tiles, i);
    && WroteOnly(m, m', {t.addr}) && t.addr in m'
    && m'[t.addr].size == t.size + 1
    && m'[t.addr].next == Head(h.tiles[Last(h.tiles, i) + 1..], 0)
  }

  // The headers after block `i` was given back describe the released heap.
  lemma ReleaseLinked(h: Heap, m: Memory, m': Memory, first: int, i: nat)
    requires Inv(h) && Linked(m, first, h.tiles, 0) && i < |h.tiles|
    requires JoinWritten(h, m, m', i)
    ensures Linked(m', first, Release(h, i).tiles, 0)
  {
    hide Linked, Inv, Raw, First, Last, Joined, WroteOnly, Head, ReleasedFrees, JoinsPrev, JoinsNext;
    ReleaseSpan(h, i);
    var lo, hi := First(h.tiles, i), Last(h.tiles, i);
    RelinkedSpan(h, m, m', first, lo, hi, Joined(h.tiles, i));
  }

  lemma ReleaseTail(h: Heap, i: nat)
    requires i < |h.tiles|
    ensures TailOf(Release(h, i).tiles)
            == if Last(h.tiles, i) == |h.tiles| - 1 then Joined(h.tiles, i).addr else TailOf(h.tiles)
    ensures Release(h, i).start == h.start && Release(h, i).top == h.top
    ensures Release(h, i).frees == ReleasedFrees(h, i)
  {
    var a, t, b := h.tiles[..First(h.tiles, i)], Joined(h.tiles, i), h.tiles[Last(h.tiles, i) + 1..];
    var tiles := a + [t] + b;
    assert b == [] ==> tiles[|tiles| - 1] == t;
    assert b != [] ==> tiles[|tiles| - 1] == b[|b| - 1];
  }

  // What the headers and the free list say about block `j`.
  lemma BlockFacts(h: Heap, m: Memory, first: int, j: nat)
    requires Inv(h) && Linked(m, first, h.tiles, 0) && j < |h.tiles|
    ensures var t := h.tiles[j];
            && t.addr > 0 && t.addr in m && RealSize(m[t.addr].size) == t.size
            && (IsFree(m, t.addr) <==> t.free)
            && (t.addr == TailOf(h.tiles) <==> j == |h.tiles| - 1)
            && (if t.addr == TailOf(h.tiles) then 0 else m[t.addr].next) == Head(h.tiles[j + 1..], 0) == m[t.addr].next
            && (forall k :: 0 <= k < j ==> h.tiles[k].addr != t.addr)
    ensures if h.tiles[j].free then ListFacts(h.frees, h.tiles[j].addr) else h.tiles[j].addr !in h.frees
  {
    hide RealSize, StateBit, Raw, Lists, NoAdjacentFree;
    LinkedAt(m, first, h.tiles, 0, j);
    SizeAt(h, j);
    RawParts(h.tiles[j]);
    TailIsLast(h, j);
    ListedIffFree(h, j);
    FreesAreAddresses(h);
  }

  lemma NullIsNotFree(m: Memory)
    ensures !IsFree(m, 0)
  {
  }

  // Which neighbours of block i are free.
  lemma NeighbourFacts(h: Heap, m: Memory, first: int, i: nat)
    requires Inv(h) && Linked(m, first, h.tiles, 0) && i < |h.tiles|
    ensures forall k :: 0 <= k < i ==> h.tiles[k].addr != h.tiles[i].addr
    ensures IsFree(m, if i == 0 then 0 else h.tiles[i - 1].addr) <==> JoinsPrev(h.tiles, i)
    ensures IsFree(m, if i + 1 < |h.tiles| then h.tiles[i + 1].addr else 0) <==> JoinsNext(h.tiles, i)
    ensures JoinsPrev(h.tiles, i) ==> i > 0
    ensures JoinsNext(h.tiles, i) ==> i + 1 < |h.tiles|
  {
    hide Linked, Inv, IsFree, RealSize, ListFacts, TailOf;
    BlockFacts(h, m, first, i);
    if i > 0 { BlockFacts(h, m, first, i - 1); }
    if i + 1 < |h.tiles| { BlockFacts(h, m, first, i + 1); }
    NullIsNotFree(m);
  }

  lemma StaysOut(frees: seq<int>, next: int, curr: int)
    requires ListFacts(frees, next) && curr !in frees
    ensures curr !in Without(frees, next)
  {
    WithoutFacts(frees, next);
  }

  // Whether __do_brk extends the heap: the sum of the top and the increment is a 32-bit one.
  predicate BrkGrants(top: int, vmEnd: int, increment: int) {
    increment > 0 && (top + increment) % WORD <= vmEnd
  }

  // The boundary check keeps the heap below vm_end exactly when the sum does not wrap.
  lemma BrkKeepsBound(top: int, vmEnd: int, increment: int)
    requires 0 <= top <= vmEnd < WORD && 0 < increment < 0x8000_0000
    ensures (BrkGrants(top, vmEnd, increment) ==> top + increment <= vmEnd)
            <==> top + increment < WORD
  {
    if top + increment >= WORD {
      assert (top + increment) % WORD == top + increment - WORD;
    }
  }

  // A request that wraps is granted: 1 GiB from a heap whose top is at 0xD0001000.
  lemma BrkWraps()
    ensures BrkGrants(0xD000_1000, 0xF000_0000, 0x4000_0000) && 0xD000_1000 + 0x4000_0000 > 0xF000_0000
  {
  }

  // `need` bytes were taken out of block i: all of it if fewer than 20 bytes would be left over,
  // otherwise the rest becomes a free block of its own, behind a header of 12 bytes.
  ghost predicate Carved(h: Heap, h': Heap, i: nat, need: int)
    requires i < |h.tiles|
  {
    var t := h.tiles[i];
    && NewFirst(h.frees, h'.frees)
    && if t.size < need + 20 then h'.tiles == h.tiles[i := Tile(t.addr, t.size, false)]
       else h'.tiles == h.tiles[..i] + [Tile(t.addr, need, false),
                                        Tile(t.addr + 12 + need, t.size - need - 12, true)] + h.tiles[i + 1..]
  }

  class Allocator {
    const vmStart: int
    const vmEnd: int
    var head: int
    var tail: int
    var freelist: int
    var heapTop: int
    var memory: Memory
    ghost var heap: Heap

    ghost predicate Agrees()
      reads this
    {
      && heap.start == vmStart + 12 && heapTop == heap.top
      && Linked(memory, head, heap.tiles, 0)
      && Chained(memory, freelist, heap.frees, 0)
      && tail == TailOf(heap.tiles)
    }

    ghost predicate Valid()
      reads this
    {
      Agrees() && Inv(heap) && heapTop <= vmEnd < WORD
    }

    // kheap_init
    constructor (heapStart: int, heapEnd: int)
      requires 0 <= heapStart && heapStart % 4 == 0 && heapStart + 12 <= heapEnd < WORD
      ensures Valid() && heap == Heap(heapStart + 12, [], [], heapStart + 12)
      ensures vmStart == heapStart && vmEnd == heapEnd
    {
      vmStart, vmEnd := heapStart, heapEnd;
      head, tail, freelist := 0, 0, 0;
      heapTop := heapStart + 12;
      memory := map[];
      heap := Heap(heapStart + 12, [], [], heapStart + 12);
      EmptySets();
    }

    // block_remove_from_freelist
    method RemoveFromFreelist(block: int, ghost frees: seq<int>)
      requires Chained(memory, freelist, frees, 0) && ListFacts(frees, block)
      modifies this`memory, this`freelist
      ensures Chained(memory, freelist, Without(frees, block), 0)
      ensures SameBlocks(old(memory), memory)
    {
      ChainedIn(memory, freelist, frees, 0);
      if block == freelist {
        freelist := memory[block].nextfree;
        ChainedFrame(memory, SetNextfree(memory, block, 0), freelist, frees[1..], 0);
      } else {
        var prev := freelist;
        ghost var k := 0;
        while prev != 0 && memory[prev].nextfree != block
          invariant 0 <= k < |frees| && prev == frees[k] && block !in frees[..k + 1]
          invariant Chained(memory, prev, frees[k..], 0)
          decreases |frees| - k
        {
          prev := memory[prev].nextfree;
          k := k + 1;
        }
        UnchainFound(memory, freelist, frees, k, block);
        if prev != 0 {
          memory := SetNextfree(memory, prev, memory[block].nextfree);
        }
      }
      memory := SetNextfree(memory, block, 0);
    }

    // block_add_to_freelist
    method AddToFreelist(block: int, ghost frees: seq<int>)
      requires Chained(memory, freelist, frees, 0) && block in memory && block !in frees
      modifies this`memory, this`freelist
      ensures Chained(memory, freelist, [block] + frees, 0)
      ensures SameBlocks(old(memory), memory)
    {
      ChainedFrame(memory, SetNextfree(memory, block, freelist), freelist, frees, 0);
      memory := SetNextfree(memory, block, freelist);
      freelist := block;
      assert ([block] + frees)[1..] == frees;
    }

    // block_find_best_fitting.  Sizes are compared as stored, state bit included.
    method FindBestFitting(size: nat, ghost frees: seq<int>) returns (best: int)
      requires size % 2 == 0
      requires Chained(memory, freelist, frees, 0) && 0 !in frees
      requires forall a :: a in frees ==> IsFree(memory, a)
      ensures best == 0 <==> forall a :: a in frees ==> Room(memory, a) < size
      ensures best != 0 ==> best in frees && size <= Room(memory, best)
      ensures best != 0 ==>
                forall a :: a in frees && size <= Room(memory, a) ==> Room(memory, best) <= Room(memory, a)
      ensures best != 0 ==>
                forall a :: a in frees && a != best && Room(memory, a) == Room(memory, best) ==> Before(frees, best, a)
    {
      ghost var b := 0;
      best := 0;
      var current := freelist;
      ghost var k := 0;
      while current != 0
        invariant 0 <= k <= |frees| && Chained(memory, current, frees[k..], 0)
        invariant best == 0 ==> forall a :: a in frees[..k] ==> Room(memory, a) < size
        invariant best != 0 ==> best in frees && size <= Room(memory, best)
        invariant best != 0 ==>
                    forall a :: a in frees[..k] && size <= Room(memory, a) ==> Room(memory, best) <= Room(memory, a)
        invariant best != 0 ==> 0 <= b < k && frees[b] == best
        invariant best != 0 ==> forall j :: 0 <= j < b ==> Room(memory, frees[j]) != Room(memory, best)
        decreases |frees| - k
      {
        assert frees[..k + 1] == frees[..k] + [current];
        assert current in frees;
        if memory[current].size >= RealSize(size) && IsFree(memory, current) {
          if best == 0 || memory[current].size < memory[best].size {
            best, b := current, k;
          }
        }
        current := memory[current].nextfree;
        k := k + 1;
      }
      assert frees[..k] == frees;
    }

    // block_get_previous_block; 0 for the first block.
    method PreviousBlock(block: int, ghost tiles: seq<Tile>, ghost i: nat) returns (prev: int)
      requires Linked(memory, head, tiles, 0) && i < |tiles| && block == tiles[i].addr
      requires forall k :: 0 <= k < i ==> tiles[k].addr != block
      ensures prev == if i == 0 then 0 else tiles[i - 1].addr
    {
      if block == head {
        return 0;
      }
      prev := head;
      ghost var k := 0;
      LinkedAt(memory, head, tiles, 0, 0);
      while memory[prev].next != block
        invariant 0 <= k < i && prev == tiles[k].addr && prev in memory
        invariant memory[prev].next == tiles[k + 1].addr
        decreases i - k
      {
        prev := memory[prev].next;
        k := k + 1;
        LinkedAt(memory, head, tiles, 0, k);
      }
    }

    // block_get_next_block: the block behind block i in address order, 0 for the last one.
    method NextBlock(block: int, ghost i: nat) returns (next: int)
      requires Inv(heap) && Linked(memory, head, heap.tiles, 0) && tail == TailOf(heap.tiles)
      requires i < |heap.tiles| && block == heap.tiles[i].addr
      ensures next == if i + 1 < |heap.tiles| then heap.tiles[i + 1].addr else 0
    {
      hide Inv, Linked, TailOf, RealSize, IsFree, ListFacts;
      BlockFacts(heap, memory, head, i);
      if block == tail {
        return 0;
      }
      return memory[block].next;
    }

    // __do_brk for the kernel heap, mapping of pages aside; 0 stands for NULL.  A sum that does not
    // wrap is granted exactly when it stays below the end, and the heap then ends there.  One that
    // wraps is granted always, and the heap ends before where it did.
    method Sbrk(increment: int) returns (base: int)
      requires 0 < heapTop <= vmEnd < WORD && increment < 0x8000_0000
      modifies this`heapTop
      ensures base == 0 ==> heapTop == old(heapTop)
      ensures base != 0 ==> base == old(heapTop) && 0 < increment && 0 <= heapTop <= vmEnd
      ensures 0 < increment && old(heapTop) + increment < WORD ==>
                && (base != 0 <==> old(heapTop) + increment <= vmEnd)
                && (base != 0 ==> heapTop == old(heapTop) + increment)
      ensures 0 < increment && WORD <= old(heapTop) + increment ==> base != 0 && heapTop < old(heapTop)
    {
      if BrkGrants(heapTop, vmEnd, increment) {
        base := heapTop;
        heapTop := (heapTop + increment) % WORD;
        return;
      }
      return 0;
    }

    // The part of __do_malloc that takes a block from the free list, splitting it if the rest
    // is big enough for a block of its own.
    method TakeBlock(best: int, need: int, ghost i: nat) returns (ptr: int)
      requires Valid() && i < |heap.tiles| && heap.tiles[i].free && best == heap.tiles[i].addr
      requires 0 <= need <= heap.tiles[i].size && need % 4 == 0
      modifies this
      ensures Valid() && heap == Carve(old(heap), i, need)
      ensures ptr == best + OVERHEAD
    {
      hide Linked, Chained, Carve, ListFacts, RealSize, Lists;
      CarveFacts(heap, memory, head, i, need);
      var stored := NextBlock(best, i);
      var chunkSize := RealSize(memory[best].size) + OVERHEAD;
      var remaining := chunkSize - (need + OVERHEAD);
      var realSize := if remaining < 8 + OVERHEAD then chunkSize else need + OVERHEAD;
      ghost var m := memory;
      memory := memory[best := memory[best].(size := realSize - OVERHEAD)];
      if remaining >= 8 + OVERHEAD {
        if IsFree(memory, stored) {
          assert false;
        }
        TakeSplit(best, best + realSize, remaining - OVERHEAD, stored, m, need, i);
      } else {
        TakeWhole(best, m, need, i);
      }
      ptr := best + OVERHEAD;
    }

    method TakeWhole(best: int, ghost m: Memory, ghost need: int, ghost i: nat)
      requires Inv(heap) && heapTop <= vmEnd < WORD && heap.start == vmStart + 12 && heapTop == heap.top
      requires Linked(m, head, heap.tiles, 0) && Chained(m, freelist, heap.frees, 0) && tail == TailOf(heap.tiles)
      requires i < |heap.tiles| && heap.tiles[i].free && best == heap.tiles[i].addr
      requires 0 <= need <= heap.tiles[i].size && need % 4 == 0 && Remainder(heap.tiles[i], need) == []
      requires best in m && memory == m[best := m[best].(size := heap.tiles[i].size)]
      modifies this
      ensures Valid() && heap == Carve(old(heap), i, need)
    {
      hide Linked, Chained, Carve, ListFacts;
      CarveFacts(heap, m, head, i, need);
      CarveTail(heap, i, need);
      ChainedFrame(m, memory, freelist, heap.frees, 0);
      ghost var marked := memory;
      RemoveFromFreelist(best, heap.frees);
      WroteThen(m, marked, memory, {best});
      CarvedWhole(heap, m, memory, head, i, need);
      CarveKeepsInv(heap, i, need);
      heap := Carve(heap, i, need);
    }

    method TakeSplit(best: int, rest: int, size: nat, stored: int, ghost m: Memory, ghost need: int, ghost i: nat)
      requires Inv(heap) && heapTop <= vmEnd < WORD && heap.start == vmStart + 12 && heapTop == heap.top
      requires Linked(m, head, heap.tiles, 0) && Chained(m, freelist, heap.frees, 0) && tail == TailOf(heap.tiles)
      requires i < |heap.tiles| && heap.tiles[i].free && best == heap.tiles[i].addr
      requires 0 <= need <= heap.tiles[i].size && need % 4 == 0
      requires Remainder(heap.tiles[i], need) == [Tile(rest, size, true)]
      requires stored == Head(heap.tiles[i + 1..], 0)
      requires best in m && memory == m[best := m[best].(size := need)]
      modifies this
      ensures Valid() && heap == Carve(old(heap), i, need)
    {
      hide Linked, Chained, Carve, ListFacts;
      CarveFacts(heap, m, head, i, need);
      CarveTail(heap, i, need);
      ChainedFrame(m, memory, freelist, heap.frees, 0);
      SplitOff(best, rest, size, stored, heap.frees);
      ghost var split := memory;
      RemoveFromFreelist(best, [rest] + heap.frees);
      WroteThen(m, split, memory, {best, rest});
      CarvedSplit(heap, m, memory, head, i, need, rest);
      CarveKeepsInv(heap, i, need);
      heap := Carve(heap, i, need);
    }

    // Makes the rest of a block that is being split a free block of its own.
    method SplitOff(best: int, rest: int, size: nat, stored: int, ghost frees: seq<int>)
      requires Chained(memory, freelist, frees, 0) && best in memory && rest != best && rest !in frees
      modifies this`memory, this`tail, this`freelist
      ensures Chained(memory, freelist, [rest] + frees, 0)
      ensures WroteOnly(old(memory), memory, {best, rest})
      ensures best in memory && memory[best].size == old(memory)[best].size && memory[best].next == rest
      ensures rest in memory && memory[rest].size == size + 1 && memory[rest].next == stored
      ensures tail == if best == old(tail) then rest else old(tail)
    {
      memory := memory[rest := Header(size + 1, 0, stored)];
      ChainedFrame(old(memory), memory, freelist, frees, 0);
      if best == tail {
        tail := rest;
      }
      AddToFreelist(rest, frees);
      ChainedFrame(memory, memory[best := memory[best].(next := rest)], freelist, [rest] + frees, 0);
      memory := memory[best := memory[best].(next := rest)];
    }

    // The part of __do_malloc that extends the heap.
    method Extend(need: int) returns (ptr: int)
      requires Valid() && 0 <= need && need % 4 == 0
      requires need + OVERHEAD < 0x8000_0000 && heapTop + OVERHEAD + need <= vmEnd
      modifies this
      ensures Valid() && heap == Grow(old(heap), need)
      ensures ptr == old(heap).top + OVERHEAD
    {
      hide Linked, Chained, Lists, NoAdjacentFree, BrkGrants, TailOf, Grow;
      GrowFacts(heap, memory, head, freelist);
      var ret := Sbrk(need + OVERHEAD);
      Append(ret, need);
      GrowKeepsInv(heap, need);
      GrowFields(heap, need);
      heap := Grow(heap, need);
      ptr := ret + OVERHEAD;
    }

    // Links a new allocated block behind the last one.
    method Append(ret: int, need: nat)
      requires Inv(heap) && Linked(memory, head, heap.tiles, 0) && Chained(memory, freelist, heap.frees, 0)
      requires tail == TailOf(heap.tiles) && ret == heap.top
      modifies this`memory, this`head, this`tail
      ensures Linked(memory, head, Grow(heap, need).tiles, 0) && Chained(memory, freelist, heap.frees, 0)
      ensures tail == TailOf(Grow(heap, need).tiles)
    {
      hide Linked, Chained, Lists, NoAdjacentFree, TailOf, Grow;
      ghost var m, first := memory, head;
      GrowFacts(heap, m, head, freelist);
      if head == 0 {
        head := ret;
      } else {
        memory := memory[tail := memory[tail].(next := ret)];
      }
      memory := memory[ret := Header(need, 0, 0)];
      tail := ret;
      GrowMemory(heap, m, memory, first, head, need);
      ChainedFrame(m, memory, freelist, heap.frees, 0);
    }

    // __do_malloc.  Extending the heap must be possible when no free block fits: the code does
    // not handle a refusal.
    method Malloc(size: word) returns (ptr: int, ghost i: int)
      requires Valid()
      requires size != 0 && !Fits(heap, Rounded(size)) ==>
                 && Rounded(size) + OVERHEAD < 0x8000_0000
                 && heapTop + OVERHEAD + Rounded(size) <= vmEnd
      modifies this
      ensures Valid()
      ensures size == 0 ==> ptr == 0 && heap == old(heap)
      ensures size != 0 && Fits(old(heap), Rounded(size)) ==>
                && BestFit(old(heap), i, Rounded(size))
                && heap == Carve(old(heap), i, Rounded(size))
                && ptr == old(heap).tiles[i].addr + OVERHEAD
                && Carved(old(heap), heap, i, Rounded(size))
      ensures size != 0 && !Fits(old(heap), Rounded(size)) ==>
                heap == Grow(old(heap), Rounded(size)) && ptr == old(heap).top + OVERHEAD
    {
      hide Linked, Chained, Carve, NewFirst, Grow, Fits, BestFit, Rounded, Room, Inv, IsFree, Distinct, TailOf;
      i := 0;
      if size == 0 {
        return 0, i;
      }
      var need := Rounded(size);
      SearchFacts(heap, memory, head);
      var best := FindBestFitting(need, heap.frees);
      i := SearchResult(heap, memory, head, need, best);
      if best != 0 {
        CarveExact(heap, i, need);
        CarveNewFirst(heap, i, need);
        ptr := TakeBlock(best, need, i);
      } else {
        ptr := Extend(need);
      }
    }

    // __do_free, of a block that was handed out and not given back.
    method Free(ptr: int, ghost i: nat)
      requires Valid() && i < |heap.tiles| && !heap.tiles[i].free && ptr == heap.tiles[i].addr + OVERHEAD
      modifies this
      ensures Valid() && heap == Release(old(heap), i) && NewFirst(old(heap).frees, heap.frees)
    {
      hide Linked, Chained, Release, NewFirst, JoinWritten, ReleasedFrees, Last, Joined, IsFree, Inv, TailOf;
      var curr := ptr - OVERHEAD;
      NeighbourFacts(heap, memory, head, i);
      ReleaseNewFirst(heap, i);
      ReleaseTail(heap, i);
      ghost var m := memory;
      var prev := PreviousBlock(curr, heap.tiles, i);
      var next := NextBlock(curr, i);
      if IsFree(memory, prev) && IsFree(memory, next) {
        JoinBoth(prev, curr, next, i);
      } else if IsFree(memory, prev) {
        JoinPrevious(prev, curr, next, i);
      } else if IsFree(memory, next) {
        JoinFollowing(curr, next, i);
      } else {
        MarkFree(curr, i);
      }
      ReleaseLinked(heap, m, memory, head, i);
      ReleaseKeepsInv(heap, i);
      heap := Release(heap, i);
    }

    method JoinBoth(prev: int, curr: int, next: int, ghost i: nat)
      requires Inv(heap) && Linked(memory, head, heap.tiles, 0) && Chained(memory, freelist, heap.frees, 0)
      requires tail == TailOf(heap.tiles) && i < |heap.tiles| && !heap.tiles[i].free
      requires JoinsPrev(heap.tiles, i) && JoinsNext(heap.tiles, i)
      requires prev == heap.tiles[i - 1].addr && curr == heap.tiles[i].addr && next == heap.tiles[i + 1].addr
      modifies this`memory, this`tail, this`freelist
      ensures JoinWritten(heap, old(memory), memory, i)
      ensures Chained(memory, freelist, ReleasedFrees(heap, i), 0)
      ensures tail == if Last(heap.tiles, i) == |heap.tiles| - 1 then Joined(heap.tiles, i).addr else old(tail)
    {
      hide Linked, Chained, ListFacts, RealSize, Lists, NoAdjacentFree, IsFree;
      JoinedSize(heap, i);
      BlockFacts(heap, memory, head, i - 1);
      BlockFacts(heap, memory, head, i);
      BlockFacts(heap, memory, head, i + 1);
      ghost var m := memory;
      var after := NextBlock(next, i + 1);
      memory := memory[prev := memory[prev].(
          size := RealSize(memory[prev].size) + 2 * OVERHEAD + RealSize(memory[curr].size) +
                  RealSize(memory[next].size) + 1,
          next := after)];
      if tail == next {
        tail := prev;
      }
      ChainedFrame(m, memory, freelist, heap.frees, 0);
      ghost var joined := memory;
      RemoveFromFreelist(next, heap.frees);
      WroteThen(m, joined, memory, {prev});
    }

    method JoinPrevious(prev: int, curr: int, next: int, ghost i: nat)
      requires Inv(heap) && Linked(memory, head, heap.tiles, 0) && Chained(memory, freelist, heap.frees, 0)
      requires tail == TailOf(heap.tiles) && i < |heap.tiles| && !heap.tiles[i].free
      requires JoinsPrev(heap.tiles, i) && !JoinsNext(heap.tiles, i)
      requires prev == heap.tiles[i - 1].addr && curr == heap.tiles[i].addr && next == Head(heap.tiles[i + 1..], 0)
      modifies this`memory, this`tail, this`freelist
      ensures JoinWritten(heap, old(memory), memory, i)
      ensures Chained(memory, freelist, ReleasedFrees(heap, i), 0)
      ensures tail == if Last(heap.tiles, i) == |heap.tiles| - 1 then Joined(heap.tiles, i).addr else old(tail)
    {
      hide Linked, Chained, ListFacts, RealSize, Lists, NoAdjacentFree, IsFree;
      JoinedSize(heap, i);
      BlockFacts(heap, memory, head, i - 1);
      BlockFacts(heap, memory, head, i);
      ghost var m := memory;
      memory := memory[prev := memory[prev].(
          size := RealSize(memory[prev].size) + OVERHEAD + RealSize(memory[curr].size) + 1,
          next := next)];
      if tail == curr {
        tail := prev;
      }
      ChainedFrame(m, memory, freelist, heap.frees, 0);
    }

    method JoinFollowing(curr: int, next: int, ghost i: nat)
      requires Inv(heap) && Linked(memory, head, heap.tiles, 0) && Chained(memory, freelist, heap.frees, 0)
      requires tail == TailOf(heap.tiles) && i < |heap.tiles| && !heap.tiles[i].free
      requires !JoinsPrev(heap.tiles, i) && JoinsNext(heap.tiles, i)
      requires curr == heap.tiles[i].addr && next == heap.tiles[i + 1].addr
      modifies this`memory, this`tail, this`freelist
      ensures JoinWritten(heap, old(memory), memory, i)
      ensures Chained(memory, freelist, ReleasedFrees(heap, i), 0)
      ensures tail == if Last(heap.tiles, i) == |heap.tiles| - 1 then Joined(heap.tiles, i).addr else old(tail)
    {
      hide Linked, Chained, ListFacts, RealSize, Lists, NoAdjacentFree, IsFree;
      JoinedSize(heap, i);
      BlockFacts(heap, memory, head, i);
      BlockFacts(heap, memory, head, i + 1);
      StaysOut(heap.frees, next, curr);
      ghost var m := memory;
      var after := NextBlock(next, i + 1);
      memory := memory[curr := memory[curr].(
          size := RealSize(memory[curr].size) + OVERHEAD + RealSize(memory[next].size) + 1,
          next := after)];
      if tail == next {
        tail := curr;
      }
      ChainedFrame(m, memory, freelist, heap.frees, 0);
      ghost var joined := memory;
      RemoveFromFreelist(next, heap.frees);
      WroteThen(m, joined, memory, {curr});
      joined := memory;
      AddToFreelist(curr, Without(heap.frees, next));
      WroteThen(m, joined, memory, {curr});
    }

    method MarkFree(curr: int, ghost i: nat)
      requires Inv(heap) && Linked(memory, head, heap.tiles, 0) && Chained(memory, freelist, heap.frees, 0)
      requires tail == TailOf(heap.tiles) && i < |heap.tiles| && !heap.tiles[i].free
      requires !JoinsPrev(heap.tiles, i) && !JoinsNext(heap.tiles, i) && curr == heap.tiles[i].addr
      modifies this`memory, this`tail, this`freelist
      ensures JoinWritten(heap, old(memory), memory, i)
      ensures Chained(memory, freelist, ReleasedFrees(heap, i), 0)
      ensures tail == if Last(heap.tiles, i) == |heap.tiles| - 1 then Joined(heap.tiles, i).addr else old(tail)
    {
      hide Linked, Chained, ListFacts, Lists, NoAdjacentFree, IsFree;
      JoinedSize(heap, i);
      BlockFacts(heap, memory, head, i);
      ghost var m := memory;
      memory := memory[curr := memory[curr].(size := RealSize(memory[curr].size) + 1)];
      ChainedFrame(m, memory, freelist, heap.frees, 0);
      ghost var marked := memory;
      AddToFreelist(curr, heap.frees);
      WroteThen(m, marked, memory, {curr});
    }
  }
}
