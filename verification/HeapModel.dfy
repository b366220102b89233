/**
 The kernel heap as a value: the blocks in address order, the free list, and the three ways
 in which malloc and free change them.
*/
module HeapModel {
  import opened Arith
  import opened Seqs

  // sizeof(block_t)
  const OVERHEAD: int := 12

  // A block: the address of its header, the bytes after the header, and its state bit.
  datatype Tile = Tile(addr: int, size: int, free: bool) {
    function End(): int { addr + OVERHEAD + size }
  }

  // `start` is the first address after the three list words, `top` is heap_top.
  datatype Heap = Heap(start: int, tiles: seq<Tile>, frees: seq<int>, top: int)

  lemma Times16(q: int)
    ensures q * 16 % 16 == 0 && q * 16 % 4 == 0 && q * 16 % 2 == 0
  {
    DivModShift(0, 16, q);
    DivModShift(0, 4, q * 4);
    DivModShift(0, 2, q * 8);
  }

  // CEIL(size, 16) in 32-bit arithmetic.
  function Rounded(size: word): (r: word)
    ensures r % 16 == 0 && r % 4 == 0 && r % 2 == 0
  {
    var q := (size + 15) % WORD / 16;
    Times16(q);
    q * 16
  }

  // The rounded size holds the request exactly when the rounding does not wrap.
  lemma RoundedHolds(size: word)
    ensures size <= Rounded(size) <==> size <= 0xFFFF_FFF0
    ensures size <= 0xFFFF_FFF0 ==> Rounded(size) < size + 16
    ensures size > 0xFFFF_FFF0 ==> Rounded(size) == 0
  {
    if size <= 0xFFFF_FFF0 {
      assert (size + 15) % WORD == size + 15;
    } else {
      assert (size + 15) % WORD == size + 15 - WORD;
    }
  }

  // ---- tiling ------------------------------------------------------------------------

  ghost predicate Tiled(start: int, tiles: seq<Tile>, top: int)
    decreases |tiles|
  {
    if tiles == [] then start == top
    else tiles[0].addr == start && tiles[0].size >= 0 && tiles[0].size % 4 == 0
         && Tiled(tiles[0].End(), tiles[1..], top)
  }

  // Header plus payload bytes of a list of blocks.
  function Bytes(tiles: seq<Tile>): int {
    if tiles == [] then 0 else OVERHEAD + tiles[0].size + Bytes(tiles[1..])
  }

  lemma {:induction false} TiledConcat(start: int, a: seq<Tile>, b: seq<Tile>, top: int)
    ensures Tiled(start, a + b, top) <==> Tiled(start, a, start + Bytes(a)) && Tiled(start + Bytes(a), b, top)
    ensures Bytes(a + b) == Bytes(a) + Bytes(b)
    decreases |a|
  {
    if a == [] {
      assert a + b == b;
    } else {
      assert (a + b)[1..] == a[1..] + b;
      TiledConcat(a[0].End(), a[1..], b, top);
    }
  }

  // Conservation: the blocks account for every byte of the heap.
  lemma {:induction false} TiledBytes(start: int, tiles: seq<Tile>, top: int)
    requires Tiled(start, tiles, top)
    ensures top == start + Bytes(tiles) && start <= top
    ensures (start - top) % 4 == 0
    decreases |tiles|
  {
    if tiles != [] {
      TiledBytes(tiles[0].End(), tiles[1..], top);
      Multiples(tiles[0].End() - top, tiles[0].size, 4);
      Multiples(tiles[0].End() - top - tiles[0].size, OVERHEAD, 4);
    }
  }

  // Every block lies inside the heap, on a 4-byte boundary of it.
  lemma {:induction false} TiledWithin(start: int, tiles: seq<Tile>, top: int, t: Tile)
    requires Tiled(start, tiles, top) && t in tiles
    ensures start <= t.addr && t.End() <= top && t.size >= 0 && t.size % 4 == 0
    ensures (t.addr - start) % 4 == 0
    decreases |tiles|
  {
    if t == tiles[0] {
      TiledBytes(t.End(), tiles[1..], top);
    } else {
      assert tiles == [tiles[0]] + tiles[1..];
      TiledWithin(tiles[0].End(), tiles[1..], top, t);
      Multiples(t.addr - tiles[0].End(), tiles[0].size, 4);
      Multiples(t.addr - tiles[0].End() + tiles[0].size, OVERHEAD, 4);
    }
  }

  // Blocks before a position end before the blocks after it begin.
  lemma TiledOrder(start: int, a: seq<Tile>, b: seq<Tile>, top: int, s: Tile, t: Tile)
    requires Tiled(start, a + b, top) && s in a && t in b
    ensures s.End() <= t.addr
  {
    TiledConcat(start, a, b, top);
    TiledWithin(start, a, start + Bytes(a), s);
    TiledWithin(start + Bytes(a), b, top, t);
  }

  // Any two distinct blocks are disjoint, headers included.
  lemma TiledDisjoint(start: int, tiles: seq<Tile>, top: int, i: nat, j: nat)
    requires Tiled(start, tiles, top) && i < j < |tiles|
    ensures tiles[i].End() <= tiles[j].addr
  {
    assert tiles == tiles[..j] + tiles[j..];
    assert tiles[..j][i] == tiles[i] && tiles[j..][0] == tiles[j];
    TiledOrder(start, tiles[..j], tiles[j..], top, tiles[i], tiles[j]);
  }

  // ---- the invariant -----------------------------------------------------------------

  function FreeAddrs(tiles: seq<Tile>): set<int> {
    set t | t in tiles && t.free :: t.addr
  }

  // The blocks handed out and not yet given back.
  function Live(tiles: seq<Tile>): set<Tile> {
    set t | t in tiles && !t.free
  }

  ghost predicate NoAdjacentFree(tiles: seq<Tile>) {
    forall i :: 0 <= i < |tiles| - 1 ==> !(tiles[i].free && tiles[i + 1].free)
  }

  ghost predicate Lists(tiles: seq<Tile>, frees: seq<int>) {
    Distinct(frees) && forall a :: a in frees <==> a in FreeAddrs(tiles)
  }

  ghost predicate Inv(h: Heap) {
    && 0 < h.start && h.start % 4 == 0
    && Tiled(h.start, h.tiles, h.top)
    && Lists(h.tiles, h.frees)
    && NoAdjacentFree(h.tiles)
  }

  lemma FreeAddrsConcat(a: seq<Tile>, b: seq<Tile>)
    ensures FreeAddrs(a + b) == FreeAddrs(a) + FreeAddrs(b)
    ensures Live(a + b) == Live(a) + Live(b)
  {
    assert forall t :: t in a + b <==> t in a || t in b;
  }

  lemma SingleSets(t: Tile)
    ensures FreeAddrs([t]) == (if t.free then {t.addr} else {})
    ensures Live([t]) == (if t.free then {} else {t})
  {
    assert t in [t];
  }

  lemma EmptySets()
    ensures FreeAddrs([]) == {} && Live([]) == {}
  {
  }

  // The lists of `a + m + b`, told part by part.
  lemma ThreeParts(start: int, a: seq<Tile>, m: seq<Tile>, b: seq<Tile>, top: int)
    ensures Tiled(start, a + m + b, top) <==>
              && Tiled(start, a, start + Bytes(a))
              && Tiled(start + Bytes(a), m, start + Bytes(a) + Bytes(m))
              && Tiled(start + Bytes(a) + Bytes(m), b, top)
    ensures FreeAddrs(a + m + b) == FreeAddrs(a) + FreeAddrs(m) + FreeAddrs(b)
    ensures Live(a + m + b) == Live(a) + Live(m) + Live(b)
  {
    TiledConcat(start, a + m, b, top);
    TiledConcat(start, a, m, start + Bytes(a + m));
    FreeAddrsConcat(a + m, b);
    FreeAddrsConcat(a, m);
  }

  // A block's address is not the address of a block before or after it.
  lemma PartsApart(start: int, a: seq<Tile>, m: seq<Tile>, b: seq<Tile>, top: int, t: Tile)
    requires Tiled(start, a + m + b, top) && t in m
    ensures t.addr !in FreeAddrs(a) && t.addr !in FreeAddrs(b)
    ensures t !in a && t !in b
  {
    forall s | s in a
      ensures s.addr < t.addr
    {
      Assoc(a, m, b);
      assert t in m + b;
      TiledConcat(start, a + m, b, top);
      TiledWithin(start, a + m, start + Bytes(a + m), s);
      TiledOrder(start, a, m + b, top, s, t);
      TiledConcat(start, a, m + b, top);
      TiledWithin(start, a, start + Bytes(a), s);
    }
    forall s | s in b
      ensures t.addr < s.addr
    {
      assert t in a + m;
      TiledOrder(start, a + m, b, top, t, s);
      TiledConcat(start, a + m, b, top);
      TiledWithin(start, a + m, start + Bytes(a + m), t);
    }
  }

  // ---- replacing blocks in the middle of the list --------------------------------------

  lemma ReplaceTiled(start: int, a: seq<Tile>, m: seq<Tile>, m': seq<Tile>, b: seq<Tile>, top: int)
    requires Tiled(start, a + m + b, top)
    requires Tiled(start + Bytes(a), m', start + Bytes(a) + Bytes(m))
    ensures Tiled(start, a + m' + b, top)
  {
    ThreeParts(start, a, m, b, top);
    TiledBytes(start + Bytes(a), m', start + Bytes(a) + Bytes(m));
    ThreeParts(start, a, m', b, top);
  }

  lemma ReplaceSets(start: int, a: seq<Tile>, m: seq<Tile>, m': seq<Tile>, b: seq<Tile>, top: int)
    requires Tiled(start, a + m + b, top)
    ensures FreeAddrs(a + m' + b) == FreeAddrs(a + m + b) - FreeAddrs(m) + FreeAddrs(m')
    ensures Live(a + m' + b) == Live(a + m + b) - Live(m) + Live(m')
  {
    ThreeParts(start, a, m, b, top);
    ThreeParts(start, a, m', b, top);
    forall t | t in m
      ensures t.addr !in FreeAddrs(a) && t.addr !in FreeAddrs(b) && t !in a && t !in b
    {
      PartsApart(start, a, m, b, top, t);
    }
  }

  // The block before `m` and the block after it, if they exist, are in these states.
  predicate EndsFree(a: seq<Tile>) { a != [] && a[|a| - 1].free }
  predicate StartsFree(b: seq<Tile>) { b != [] && b[0].free }

  lemma ReplaceGaps(a: seq<Tile>, m: seq<Tile>, m': seq<Tile>, b: seq<Tile>)
    requires NoAdjacentFree(a + m + b) && NoAdjacentFree(m') && m' != []
    requires EndsFree(a) ==> !m'[0].free
    requires StartsFree(b) ==> !m'[|m'| - 1].free
    ensures NoAdjacentFree(a + m' + b)
  {
    var s, s' := a + m + b, a + m' + b;
    forall i | 0 <= i < |s'| - 1
      ensures !(s'[i].free && s'[i + 1].free)
    {
      if i + 1 < |a| {
        assert s[i] == s'[i] && s[i + 1] == s'[i + 1];
      } else if i >= |a| + |m'| {
        var j := i - |m'| + |m|;
        assert s[j] == s'[i] && s[j + 1] == s'[i + 1];
      }
    }
  }

  lemma ReplaceKeepsInv(h: Heap, a: seq<Tile>, m: seq<Tile>, m': seq<Tile>, b: seq<Tile>, frees': seq<int>)
    requires Inv(h) && h.tiles == a + m + b && m' != []
    requires Tiled(h.start + Bytes(a), m', h.start + Bytes(a) + Bytes(m))
    requires NoAdjacentFree(m')
    requires EndsFree(a) ==> !m'[0].free
    requires StartsFree(b) ==> !m'[|m'| - 1].free
    requires Distinct(frees')
    requires forall x :: x in frees' <==> (x in h.frees && x !in FreeAddrs(m)) || x in FreeAddrs(m')
    ensures Inv(h.(tiles := a + m' + b, frees := frees'))
    ensures Live(a + m' + b) == Live(h.tiles) - Live(m) + Live(m')
  {
    ReplaceTiled(h.start, a, m, m', b, h.top);
    ReplaceSets(h.start, a, m, m', b, h.top);
    ReplaceGaps(a, m, m', b);
  }

  lemma {:induction false} LastEnd(start: int, m: seq<Tile>, end: int)
    requires Tiled(start, m, end) && m != []
    ensures m[|m| - 1].End() == end
    decreases |m|
  {
    if |m| > 1 {
      LastEnd(m[0].End(), m[1..], end);
    }
  }

  // In a list that is tiled, the part after `a` starts `Bytes(a)` further on.
  lemma PartStart(start: int, a: seq<Tile>, m: seq<Tile>, b: seq<Tile>, top: int)
    requires Tiled(start, a + m + b, top) && m != []
    ensures start + Bytes(a) == m[0].addr
    ensures start + Bytes(a) + Bytes(m) == m[|m| - 1].End()
  {
    ThreeParts(start, a, m, b, top);
    LastEnd(start + Bytes(a), m, start + Bytes(a) + Bytes(m));
  }

  // ---- malloc ------------------------------------------------------------------------

  // What is split off when `need` bytes are carved out of a block: nothing, if the rest could
  // not hold a header and 8 more bytes.
  function Remainder(t: Tile, need: int): seq<Tile> {
    if t.size - need < 8 + OVERHEAD then []
    else [Tile(t.addr + OVERHEAD + need, t.size - need - OVERHEAD, true)]
  }

  function Taken(t: Tile, need: int): Tile {
    Tile(t.addr, if Remainder(t, need) == [] then t.size else need, false)
  }

  function CarvedFrees(frees: seq<int>, t: Tile, need: int): seq<int> {
    var rest := Remainder(t, need);
    Without((if rest == [] then [] else [rest[0].addr]) + frees, t.addr)
  }

  function Carve(h: Heap, i: nat, need: int): Heap
    requires i < |h.tiles|
  {
    var t := h.tiles[i];
    h.(tiles := h.tiles[..i] + ([Taken(t, need)] + Remainder(t, need)) + h.tiles[i + 1..],
       frees := CarvedFrees(h.frees, t, need))
  }

  // The heap grown by one block of `need` bytes (sbrk).
  function Grow(h: Heap, need: int): Heap {
    h.(tiles := h.tiles + [Tile(h.top, need, false)], top := h.top + OVERHEAD + need)
  }

  lemma SplitAt(tiles: seq<Tile>, i: nat)
    requires i < |tiles|
    ensures tiles == tiles[..i] + [tiles[i]] + tiles[i + 1..]
  {
  }

  lemma CarveTiles(t: Tile, need: int)
    requires 0 <= need <= t.size && need % 4 == 0 && t.size % 4 == 0
    ensures var m := [Taken(t, need)] + Remainder(t, need);
            && Tiled(t.addr, m, t.End())
            && Bytes([t]) == OVERHEAD + t.size
            && Live(m) == {Taken(t, need)}
            && FreeAddrs(m) == (set r | r in Remainder(t, need) :: r.addr)
  {
    var k, rest := Taken(t, need), Remainder(t, need);
    FreeAddrsConcat([k], rest);
    SingleSets(k);
    if rest != [] {
      SingleSets(rest[0]);
      assert rest == [rest[0]];
      assert ([k] + rest)[1..] == rest && rest[1..] == [];
    } else {
      assert [k] + rest == [k] && [k][1..] == [];
    }
    assert [t][1..] == [];
  }

  lemma CarveLists(frees: seq<int>, t: Tile, need: int)
    requires Distinct(frees) && t.addr in frees && 0 <= need <= t.size
    requires forall r :: r in Remainder(t, need) ==> r.addr !in frees
    ensures Distinct(CarvedFrees(frees, t, need))
    ensures forall x :: x in CarvedFrees(frees, t, need) <==>
              (x in frees && x != t.addr) || x in (set r | r in Remainder(t, need) :: r.addr)
  {
    var rest := Remainder(t, need);
    var longer := (if rest == [] then [] else [rest[0].addr]) + frees;
    assert rest != [] ==> rest[0] in rest;
    assert forall x :: x in longer <==> x in frees || (rest != [] && x == rest[0].addr);
    WithoutFacts(longer, t.addr);
  }

  // Where the remainder would start there is no free block: that address is inside the block.
  lemma RemainderIsNew(h: Heap, i: nat, need: int)
    requires Inv(h) && i < |h.tiles| && 0 <= need <= h.tiles[i].size
    ensures forall r :: r in Remainder(h.tiles[i], need) ==> r.addr !in h.frees
  {
    var t := h.tiles[i];
    forall r | r in Remainder(t, need)
      ensures r.addr !in FreeAddrs(h.tiles)
    {
      if r.addr in FreeAddrs(h.tiles) {
        var u :| u in h.tiles && u.free && u.addr == r.addr;
        var j :| 0 <= j < |h.tiles| && h.tiles[j] == u;
        TiledWithin(h.start, h.tiles, h.top, u);
        if i < j {
          TiledDisjoint(h.start, h.tiles, h.top, i, j);
        } else if j < i {
          TiledDisjoint(h.start, h.tiles, h.top, j, i);
        }
      }
    }
  }

  lemma CarveKeepsInv(h: Heap, i: nat, need: int)
    requires Inv(h) && i < |h.tiles| && h.tiles[i].free
    requires 0 <= need <= h.tiles[i].size && need % 4 == 0
    ensures Inv(Carve(h, i, need))
    ensures Live(Carve(h, i, need).tiles) == Live(h.tiles) + {Taken(h.tiles[i], need)}
  {
    var t, a, b := h.tiles[i], h.tiles[..i], h.tiles[i + 1..];
    var m, m' := [t], [Taken(t, need)] + Remainder(t, need);
    SplitAt(h.tiles, i);
    assert t in h.tiles;
    TiledWithin(h.start, h.tiles, h.top, t);
    CarveTiles(t, need);
    PartStart(h.start, a, m, b, h.top);
    SingleSets(t);
    RemainderIsNew(h, i, need);
    CarveLists(h.frees, t, need);
    assert b != [] ==> b[0] == h.tiles[i + 1];
    ReplaceKeepsInv(h, a, m, m', b, CarvedFrees(h.frees, t, need));
  }

  // A block is split exactly if at least 20 bytes would be left over, for a header of 12 and 8 more.
  lemma CarveExact(h: Heap, i: nat, need: int)
    requires i < |h.tiles| && 0 <= need <= h.tiles[i].size
    ensures var t, h' := h.tiles[i], Carve(h, i, need);
            && h'.start == h.start && h'.top == h.top
            && if t.size < need + 20 then h'.tiles == h.tiles[i := Tile(t.addr, t.size, false)]
               else h'.tiles == h.tiles[..i] + [Tile(t.addr, need, false),
                                                Tile(t.addr + 12 + need, t.size - need - 12, true)] + h.tiles[i + 1..]
    ensures var t := h.tiles[i];
            Taken(t, need) == Tile(t.addr, if t.size < need + 20 then t.size else need, false)
  {
    var t := h.tiles[i];
    SplitAt(h.tiles, i);
    if t.size < need + 20 {
      assert [Taken(t, need)] + Remainder(t, need) == [Tile(t.addr, t.size, false)];
    } else {
      assert [Taken(t, need)] + Remainder(t, need)
          == [Tile(t.addr, need, false), Tile(t.addr + 12 + need, t.size - need - 12, true)];
    }
  }

  // The free list is in order of recency: what is new on it stands first, and the rest as before.
  ghost predicate NewFirst(frees: seq<int>, frees': seq<int>) {
    forall x, y :: x in frees' && y in frees' && x != y ==>
      (Before(frees', x, y) <==> (x !in frees && y in frees) || Before(frees, x, y))
  }

  lemma NewOrder(frees: seq<int>, new': seq<int>, gone: int, x: int, y: int)
    requires Distinct(frees) && |new'| <= 1 && (new' != [] ==> new'[0] !in frees && new'[0] != gone) && x != y
    requires x in new' + Without(frees, gone) && y in new' + Without(frees, gone)
    ensures Before(new' + Without(frees, gone), x, y) <==> (x !in frees && y in frees) || Before(frees, x, y)
  {
    if gone in frees {
      WithoutFacts(frees, gone);
    } else {
      WithoutOther(frees, gone);
    }
    hide Before, Distinct, Without;
    assert x != gone && y != gone;
    WithoutOrder(frees, gone, x, y);
    WithoutOrder(frees, gone, y, x);
    BeforeOneWay(frees, x, y);
    if new' != [] {
      assert new' == [new'[0]];
      BeforeCons(new'[0], Without(frees, gone), x, y);
    } else {
      assert new' + Without(frees, gone) == Without(frees, gone);
    }
  }

  lemma ListChange(frees: seq<int>, new': seq<int>, gone: int)
    requires Distinct(frees) && |new'| <= 1 && (new' != [] ==> new'[0] !in frees && new'[0] != gone)
    ensures NewFirst(frees, new' + Without(frees, gone))
    ensures Without(new' + frees, gone) == new' + Without(frees, gone)
  {
    hide Distinct;
    var frees' := new' + Without(frees, gone);
    if new' != [] {
      assert new' == [new'[0]];
      assert (new' + frees)[1..] == frees;
    } else {
      assert new' + frees == frees && frees' == Without(frees, gone);
    }
    forall x, y | x in frees' && y in frees' && x != y
      ensures Before(frees', x, y) <==> (x !in frees && y in frees) || Before(frees, x, y)
    {
      NewOrder(frees, new', gone, x, y);
    }
  }

  lemma ReleaseAlone(frees: seq<int>, new': seq<int>, addr: int)
    requires Distinct(frees) && addr !in frees && (new' == [] || new' == [addr])
    ensures NewFirst(frees, new' + frees)
  {
    hide Distinct;
    forall x, y | x in new' + frees && y in new' + frees && x != y
      ensures Before(new' + frees, x, y) <==> (x !in frees && y in frees) || Before(frees, x, y)
    {
      BeforeOneWay(frees, x, y);
      if new' == [] {
        assert new' + frees == frees;
      } else {
        BeforeCons(addr, frees, x, y);
      }
    }
  }

  lemma CarveNewFirst(h: Heap, i: nat, need: int)
    requires Inv(h) && i < |h.tiles| && 0 <= need <= h.tiles[i].size
    ensures NewFirst(h.frees, Carve(h, i, need).frees)
  {
    hide NewFirst, Without;
    var t := h.tiles[i];
    var rest := Remainder(t, need);
    RemainderIsNew(h, i, need);
    assert rest != [] ==> rest[0] in rest;
    ListChange(h.frees, if rest == [] then [] else [rest[0].addr], t.addr);
  }

  lemma GrowKeepsInv(h: Heap, need: int)
    requires Inv(h) && 0 <= need && need % 4 == 0
    ensures Inv(Grow(h, need))
    ensures Live(Grow(h, need).tiles) == Live(h.tiles) + {Tile(h.top, need, false)}
  {
    var t := Tile(h.top, need, false);
    TiledBytes(h.start, h.tiles, h.top);
    assert [t][1..] == [];
    TiledConcat(h.start, h.tiles, [], h.top);
    assert h.tiles + [] == h.tiles;
    TiledConcat(h.start, h.tiles, [t], t.End());
    FreeAddrsConcat(h.tiles, [t]);
    SingleSets(t);
  }

  // ---- free --------------------------------------------------------------------------

  // The free block that results when block `i` is given back: it absorbs a free neighbour on
  // either side.
  predicate JoinsPrev(tiles: seq<Tile>, i: nat) { 0 < i < |tiles| && tiles[i - 1].free }
  predicate JoinsNext(tiles: seq<Tile>, i: nat) { i + 1 < |tiles| && tiles[i + 1].free }

  function First(tiles: seq<Tile>, i: nat): (lo: nat)
    requires i < |tiles|
    ensures i - 1 <= lo <= i
  {
    if JoinsPrev(tiles, i) then i - 1 else i
  }

  function Last(tiles: seq<Tile>, i: nat): (hi: nat)
    requires i < |tiles|
    ensures i <= hi <= i + 1 && hi < |tiles|
  {
    if JoinsNext(tiles, i) then i + 1 else i
  }

  function Joined(tiles: seq<Tile>, i: nat): Tile
    requires i < |tiles|
  {
    var lo, hi := tiles[First(tiles, i)], tiles[Last(tiles, i)];
    Tile(lo.addr, hi.End() - lo.addr - OVERHEAD, true)
  }

  function ReleasedFrees(h: Heap, i: nat): seq<int>
    requires i < |h.tiles|
  {
    var frees := if JoinsNext(h.tiles, i) then Without(h.frees, h.tiles[i + 1].addr) else h.frees;
    if JoinsPrev(h.tiles, i) then frees else [h.tiles[i].addr] + frees
  }

  function Release(h: Heap, i: nat): Heap
    requires i < |h.tiles|
  {
    h.(tiles := h.tiles[..First(h.tiles, i)] + [Joined(h.tiles, i)] + h.tiles[Last(h.tiles, i) + 1..],
       frees := ReleasedFrees(h, i))
  }

  lemma {:induction false} Adjacent(start: int, tiles: seq<Tile>, top: int, i: nat)
    requires Tiled(start, tiles, top) && i + 1 < |tiles|
    ensures tiles[i].End() == tiles[i + 1].addr
    decreases |tiles|
  {
    if i > 0 {
      Adjacent(tiles[0].End(), tiles[1..], top, i - 1);
    }
  }

  // The size that __do_free writes, in each of its four cases.
  lemma JoinedSize(h: Heap, i: nat)
    requires Inv(h) && i < |h.tiles|
    ensures Joined(h.tiles, i).size
         == h.tiles[i].size
            + (if JoinsPrev(h.tiles, i) then OVERHEAD + h.tiles[i - 1].size else 0)
            + (if JoinsNext(h.tiles, i) then OVERHEAD + h.tiles[i + 1].size else 0)
  {
    if JoinsPrev(h.tiles, i) { Adjacent(h.start, h.tiles, h.top, i - 1); }
    if JoinsNext(h.tiles, i) { Adjacent(h.start, h.tiles, h.top, i); }
  }

  lemma SplitRange(tiles: seq<Tile>, lo: nat, hi: nat)
    requires lo <= hi < |tiles|
    ensures tiles == tiles[..lo] + tiles[lo..hi + 1] + tiles[hi + 1..]
    ensures tiles[lo..hi + 1][0] == tiles[lo] && tiles[lo..hi + 1][hi - lo] == tiles[hi]
  {
  }

  // A block with the one before it, the one behind it, both or neither.
  lemma RangeParts(tiles: seq<Tile>, lo: nat, i: nat, hi: nat, p: seq<Tile>, n: seq<Tile>)
    requires lo <= i <= lo + 1 && i <= hi <= i + 1 && hi < |tiles|
    requires p == (if lo < i then [tiles[lo]] else []) && n == if i < hi then [tiles[hi]] else []
    ensures tiles[lo..hi + 1] == p + [tiles[i]] + n
  {
  }

  lemma ThreeSets(a: seq<Tile>, b: seq<Tile>, c: seq<Tile>)
    ensures FreeAddrs(a + b + c) == FreeAddrs(a) + FreeAddrs(b) + FreeAddrs(c)
    ensures Live(a + b + c) == Live(a) + Live(b) + Live(c)
  {
    FreeAddrsConcat(a + b, c);
    FreeAddrsConcat(a, b);
  }

  lemma RangeSets(tiles: seq<Tile>, i: nat)
    requires i < |tiles| && !tiles[i].free
    ensures var m := tiles[First(tiles, i)..Last(tiles, i) + 1];
            && FreeAddrs(m) == (if JoinsPrev(tiles, i) then {tiles[i - 1].addr} else {})
                             + (if JoinsNext(tiles, i) then {tiles[i + 1].addr} else {})
            && Live(m) == {tiles[i]}
  {
    var p := if JoinsPrev(tiles, i) then [tiles[i - 1]] else [];
    var n := if JoinsNext(tiles, i) then [tiles[i + 1]] else [];
    RangeParts(tiles, First(tiles, i), i, Last(tiles, i), p, n);
    hide FreeAddrs, Live;
    ThreeSets(p, [tiles[i]], n);
    SingleSets(tiles[i]);
    EmptySets();
    if JoinsPrev(tiles, i) { SingleSets(tiles[i - 1]); }
    if JoinsNext(tiles, i) { SingleSets(tiles[i + 1]); }
  }

  lemma ListedIffFree(h: Heap, i: nat)
    requires Inv(h) && i < |h.tiles|
    ensures h.tiles[i].addr in h.frees <==> h.tiles[i].free
  {
    var t, a, b := h.tiles[i], h.tiles[..i], h.tiles[i + 1..];
    SplitAt(h.tiles, i);
    PartsApart(h.start, a, [t], b, h.top, t);
    ThreeParts(h.start, a, [t], b, h.top);
    SingleSets(t);
  }

  // The free list when a block joins the free blocks before and behind it, or neither.
  lemma Relisted(frees: seq<int>, addr: int, joinsPrev: bool, prev: int, joinsNext: bool, next: int)
    requires Distinct(frees) && addr !in frees && (joinsPrev ==> prev in frees) && (joinsNext ==> next in frees)
    requires joinsPrev && joinsNext ==> prev != next
    ensures var kept := if joinsNext then Without(frees, next) else frees;
            var r := if joinsPrev then kept else [addr] + kept;
            && Distinct(r)
            && forall x :: x in r <==>
                 || (x in frees && !(joinsPrev && x == prev) && !(joinsNext && x == next))
                 || x == if joinsPrev then prev else addr
  {
    hide Without, Distinct;
    if joinsNext { WithoutFacts(frees, next); }
    var kept := if joinsNext then Without(frees, next) else frees;
    if !joinsPrev {
      DistinctCons(addr, kept);
      assert forall x :: x in [addr] + kept <==> x == addr || x in kept;
    }
  }

  lemma BeforeInHeap(h: Heap, i: nat, j: nat)
    requires Inv(h) && i < j < |h.tiles|
    ensures h.tiles[i].addr < h.tiles[j].addr
  {
    TiledDisjoint(h.start, h.tiles, h.top, i, j);
    TiledWithin(h.start, h.tiles, h.top, h.tiles[i]);
  }

  lemma ReleasedFreesFacts(h: Heap, i: nat)
    requires Inv(h) && i < |h.tiles| && !h.tiles[i].free
    ensures Distinct(ReleasedFrees(h, i))
    ensures forall x :: x in ReleasedFrees(h, i) <==>
              || (x in h.frees && !(JoinsPrev(h.tiles, i) && x == h.tiles[i - 1].addr)
                               && !(JoinsNext(h.tiles, i) && x == h.tiles[i + 1].addr))
              || x == Joined(h.tiles, i).addr
  {
    ListedIffFree(h, i);
    if JoinsPrev(h.tiles, i) { ListedIffFree(h, i - 1); }
    if JoinsNext(h.tiles, i) {
      ListedIffFree(h, i + 1);
      if JoinsPrev(h.tiles, i) { BeforeInHeap(h, i - 1, i + 1); }
    }
    var prev := if JoinsPrev(h.tiles, i) then h.tiles[i - 1].addr else 0;
    var next := if JoinsNext(h.tiles, i) then h.tiles[i + 1].addr else 0;
    assert Distinct(h.frees);
    Relisted(h.frees, h.tiles[i].addr, JoinsPrev(h.tiles, i), prev, JoinsNext(h.tiles, i), next);
  }

  lemma ReleasedFreesOfRange(h: Heap, i: nat)
    requires Inv(h) && i < |h.tiles| && !h.tiles[i].free
    ensures Distinct(ReleasedFrees(h, i))
    ensures var m, t := h.tiles[First(h.tiles, i)..Last(h.tiles, i) + 1], Joined(h.tiles, i);
            forall x :: x in ReleasedFrees(h, i) <==> (x in h.frees && x !in FreeAddrs(m)) || x in FreeAddrs([t])
  {
    RangeSets(h.tiles, i);
    ReleasedFreesFacts(h, i);
    SingleSets(Joined(h.tiles, i));
  }

  lemma SizeAt(h: Heap, i: nat)
    requires Inv(h) && i < |h.tiles|
    ensures h.tiles[i].size >= 0 && h.tiles[i].size % 4 == 0
  {
    TiledWithin(h.start, h.tiles, h.top, h.tiles[i]);
  }

  lemma SumAligned(x: int, y: int)
    requires x % 4 == 0 && y % 4 == 0
    ensures (x + (OVERHEAD + y)) % 4 == 0
  {
    Multiples(x, y, 4);
    Multiples(x + y, OVERHEAD, 4);
  }

  lemma JoinedTiled(h: Heap, i: nat)
    requires Inv(h) && i < |h.tiles|
    ensures Tiled(h.tiles[First(h.tiles, i)].addr, [Joined(h.tiles, i)], h.tiles[Last(h.tiles, i)].End())
  {
    JoinedSize(h, i);
    SizeAt(h, i);
    if JoinsPrev(h.tiles, i) { SizeAt(h, i - 1); }
    if JoinsNext(h.tiles, i) { SizeAt(h, i + 1); }
    SumAligned(h.tiles[i].size, if JoinsPrev(h.tiles, i) then h.tiles[i - 1].size else -OVERHEAD);
    SumAligned(h.tiles[i].size + (if JoinsPrev(h.tiles, i) then OVERHEAD + h.tiles[i - 1].size else 0),
               if JoinsNext(h.tiles, i) then h.tiles[i + 1].size else -OVERHEAD);
    assert [Joined(h.tiles, i)][1..] == [];
  }

  // The blocks around the joined block are not free.
  lemma OuterNeighbours(h: Heap, i: nat)
    requires Inv(h) && i < |h.tiles|
    ensures !EndsFree(h.tiles[..First(h.tiles, i)]) && !StartsFree(h.tiles[Last(h.tiles, i) + 1..])
  {
    var lo, hi := First(h.tiles, i), Last(h.tiles, i);
    assert lo > 0 ==> h.tiles[..lo][lo - 1] == h.tiles[lo - 1];
    assert hi + 1 < |h.tiles| ==> h.tiles[hi + 1..][0] == h.tiles[hi + 1];
  }

  lemma ReleaseParts(h: Heap, i: nat)
    requires Inv(h) && i < |h.tiles| && !h.tiles[i].free
    ensures var lo, hi, t := First(h.tiles, i), Last(h.tiles, i), Joined(h.tiles, i);
            var a, m, b := h.tiles[..lo], h.tiles[lo..hi + 1], h.tiles[hi + 1..];
            && h.tiles == a + m + b
            && Tiled(h.start + Bytes(a), [t], h.start + Bytes(a) + Bytes(m))
            && !EndsFree(a) && !StartsFree(b)
            && Live(m) == {h.tiles[i]} && Live([t]) == {}
  {
    hide FreeAddrs, Live, Bytes, EndsFree, StartsFree, Tiled, Lists, NoAdjacentFree, First, Last;
    var lo, hi := First(h.tiles, i), Last(h.tiles, i);
    SplitRange(h.tiles, lo, hi);
    PartStart(h.start, h.tiles[..lo], h.tiles[lo..hi + 1], h.tiles[hi + 1..], h.top);
    JoinedTiled(h, i);
    RangeSets(h.tiles, i);
    SingleSets(Joined(h.tiles, i));
    OuterNeighbours(h, i);
  }

  lemma ReleaseKeepsInv(h: Heap, i: nat)
    requires Inv(h) && i < |h.tiles| && !h.tiles[i].free
    ensures Inv(Release(h, i))
    ensures Live(Release(h, i).tiles) == Live(h.tiles) - {h.tiles[i]}
  {
    hide First, Last, Joined, ReleasedFrees, FreeAddrs, Live, Bytes, EndsFree, StartsFree;
    var lo, hi, t := First(h.tiles, i), Last(h.tiles, i), Joined(h.tiles, i);
    ReleaseParts(h, i);
    ReleasedFreesOfRange(h, i);
    ReplaceKeepsInv(h, h.tiles[..lo], h.tiles[lo..hi + 1], [t], h.tiles[hi + 1..], ReleasedFrees(h, i));
  }

  lemma ReleaseNewFirst(h: Heap, i: nat)
    requires Inv(h) && i < |h.tiles| && !h.tiles[i].free
    ensures NewFirst(h.frees, Release(h, i).frees)
  {
    hide NewFirst, Without, Joined;
    var t := h.tiles[i];
    ListedIffFree(h, i);
    if JoinsNext(h.tiles, i) {
      BeforeInHeap(h, i, i + 1);
    }
    var gone := if JoinsNext(h.tiles, i) then h.tiles[i + 1].addr else t.addr;
    var new' := if JoinsPrev(h.tiles, i) then [] else [t.addr];
    if JoinsNext(h.tiles, i) {
      ListChange(h.frees, new', gone);
      assert [] + Without(h.frees, gone) == Without(h.frees, gone);
    } else {
      ReleaseAlone(h.frees, new', t.addr);
      assert [] + h.frees == h.frees;
    }
  }

  // ---- consequences over whole runs ----------------------------------------------------

  // Live allocations are disjoint from each other and from every header, lie inside the heap
  // and are 4-byte aligned.
  lemma LiveApart(h: Heap, s: Tile, t: Tile)
    requires Inv(h) && s in Live(h.tiles) && t in h.tiles && s != t
    ensures s.End() <= t.addr || t.End() <= s.addr
    ensures h.start + OVERHEAD <= s.addr + OVERHEAD <= s.End() <= h.top
    ensures (s.addr + OVERHEAD) % 4 == 0
  {
    var i :| 0 <= i < |h.tiles| && h.tiles[i] == s;
    var j :| 0 <= j < |h.tiles| && h.tiles[j] == t;
    if i < j {
      TiledDisjoint(h.start, h.tiles, h.top, i, j);
    } else {
      TiledDisjoint(h.start, h.tiles, h.top, j, i);
    }
    TiledWithin(h.start, h.tiles, h.top, s);
  }

  lemma SomeNotFree(tiles: seq<Tile>)
    requires NoAdjacentFree(tiles) && |tiles| > 1
    ensures Live(tiles) != {}
  {
    assert !(tiles[0].free && tiles[0 + 1].free);
    if tiles[0].free {
      assert tiles[1] in tiles && tiles[1] in Live(tiles);
    } else {
      assert tiles[0] in tiles && tiles[0] in Live(tiles);
    }
  }

  lemma OneFreeList(h: Heap)
    requires Inv(h) && |h.tiles| <= 1 && Live(h.tiles) == {}
    ensures h.tiles == [] ==> h.frees == []
    ensures h.tiles != [] ==> h.tiles[0].free && h.tiles[0].addr == h.start && h.tiles[0].End() == h.top
    ensures h.tiles != [] ==> h.frees == [h.start]
  {
    EmptySets();
    FirstTwo(h.frees);
    if h.tiles == [] {
      assert FreeAddrs(h.tiles) == {};
      assert forall a :: a !in h.frees;
    } else {
      assert h.tiles == [h.tiles[0]] && h.tiles[1..] == [];
      SingleSets(h.tiles[0]);
      LastEnd(h.start, h.tiles, h.top);
      assert FreeAddrs(h.tiles) == {h.start};
      assert Distinct(h.frees);
      assert h.start in h.frees;
      assert forall a :: a in h.frees ==> a in FreeAddrs(h.tiles);
      Singleton(h.frees, h.start);
    }
  }

  // When everything has been given back, the heap is one free block, or was never used.
  lemma AllReturned(h: Heap)
    requires Inv(h) && Live(h.tiles) == {}
    ensures h.start < h.top ==> h.tiles == [Tile(h.start, h.top - h.start - OVERHEAD, true)] && h.frees == [h.start]
    ensures h.start == h.top ==> h.tiles == [] && h.frees == []
  {
    if |h.tiles| > 1 {
      SomeNotFree(h.tiles);
    } else {
      OneFreeList(h);
      assert |h.tiles| == 1 ==> h.tiles == [h.tiles[0]];
    }
  }
}
