/**
 Allocating blocks: one bitmap block a group, a count of free blocks in every group descriptor
 and their sum in the superblock.
*/
module Ext2Alloc {
  import opened Arith
  import opened Ext2Tree
  import opened FrameBitmap

  // ---- bits of bytes ----------------------------------------------------------------------

  predicate Bit(b: nat, k: nat) {
    if k == 0 then b % 2 == 1 else Bit(b / 2, k - 1)
  }

  function SetBit(b: nat, k: nat): nat {
    if Bit(b, k) then b else b + Two(k)
  }

  lemma SetBitHalf(b: nat, k: nat)
    requires k > 0
    ensures SetBit(b, k) / 2 == SetBit(b / 2, k - 1) && SetBit(b, k) % 2 == b % 2
  {
    assert Two(k) == 2 * Two(k - 1);
    assert Bit(b, k) <==> Bit(b / 2, k - 1);
  }

  lemma {:induction false} SetBitSets(b: nat, k: nat, j: nat)
    ensures Bit(SetBit(b, k), j) <==> j == k || Bit(b, j)
  {
    if k > 0 {
      SetBitHalf(b, k);
      hide SetBit;
      if j > 0 {
        SetBitSets(b / 2, k - 1, j - 1);
      }
    } else if j > 0 && !Bit(b, 0) {
      assert (b + 1) / 2 == b / 2;
    }
  }

  lemma HalfBelow(x: nat, t: nat)
    ensures x < 2 * t <==> x / 2 < t
  {
  }

  lemma UnitBit(b: nat)
    ensures SetBit(b, 0) / 2 == b / 2
  {
  }

  lemma {:induction false} SetBitBounded(b: nat, k: nat, n: nat)
    requires b < Two(n) && k < n
    ensures SetBit(b, k) < Two(n)
    decreases k
  {
    assert Two(n) == 2 * Two(n - 1);
    hide Two;
    if k > 0 {
      HalfBelow(b, Two(n - 1));
      SetBitBounded(b / 2, k - 1, n - 1);
      SetBitHalf(b, k);
      HalfBelow(SetBit(b, k), Two(n - 1));
    } else {
      HalfBelow(b, Two(n - 1));
      HalfBelow(b + 1, Two(n - 1));
      UnitBit(b);
    }
  }

  // A set bit is part of the number.
  lemma {:induction false} BitPart(b: nat, k: nat)
    ensures Bit(b, k) ==> Two(k) <= b
  {
    if k > 0 {
      BitPart(b / 2, k - 1);
    }
  }

  function ClearBit(b: nat, k: nat): nat {
    BitPart(b, k);
    if Bit(b, k) then b - Two(k) else b
  }

  lemma ClearBitBounded(b: nat, k: nat)
    ensures ClearBit(b, k) <= b
  {
  }

  lemma ClearBitHalf(b: nat, k: nat)
    requires k > 0
    ensures ClearBit(b, k) / 2 == ClearBit(b / 2, k - 1) && ClearBit(b, k) % 2 == b % 2
  {
    assert Two(k) == 2 * Two(k - 1);
    assert Bit(b, k) <==> Bit(b / 2, k - 1);
    BitPart(b / 2, k - 1);
  }

  lemma {:induction false} ClearBitClears(b: nat, k: nat, j: nat)
    ensures Bit(ClearBit(b, k), j) <==> j != k && Bit(b, j)
  {
    if k > 0 {
      ClearBitHalf(b, k);
      hide ClearBit;
      if j > 0 {
        ClearBitClears(b / 2, k - 1, j - 1);
      }
    } else if j > 0 && Bit(b, 0) {
      assert (b - 1) / 2 == b / 2;
    }
  }

  lemma HalfOf(b: nat, t: nat)
    requires t > 0
    ensures b / (2 * t) == b / 2 / t
  {
    var q, r := b / 2 / t, b / 2 % t;
    assert b / 2 == q * t + r;
    assert b == q * (2 * t) + (2 * r + b % 2) by { assert q * (2 * t) == 2 * (q * t); }
    DivModUnique(b, 2 * t, q, 2 * r + b % 2);
  }

  // Bit k counts 2^k.
  lemma {:induction false} BitMeans(b: nat, k: nat)
    ensures Two(k) > 0 && (Bit(b, k) <==> b / Two(k) % 2 == 1)
  {
    if k > 0 {
      BitMeans(b / 2, k - 1);
      HalfOf(b, Two(k - 1));
    }
  }

  // ext2_check_bitmap_bit
  predicate CheckBit(buffer: Block, i: nat)
    requires i / 8 < |buffer|
  {
    Bit(buffer[i / 8], i % 8)
  }

  lemma SameBit(i: nat, j: nat)
    ensures i == j <==> i / 8 == j / 8 && i % 8 == j % 8
  {
  }

  lemma Two8()
    ensures Two(8) == 256
  {
    assert Two(4) == 16;
  }

  // ext2_set_bitmap_bit
  function SetBitmapBit(buffer: Block, i: nat, occupied: bool): (r: Block)
    requires i / 8 < |buffer|
    ensures |r| == |buffer|
    ensures forall j :: 0 <= j < 8 * |buffer| ==> (CheckBit(r, j) <==> if j == i then occupied else CheckBit(buffer, j))
  {
    var b, k := buffer[i / 8], i % 8;
    Two8();
    SetBitBounded(b, k, 8);
    ClearBitBounded(b, k);
    var r := buffer[i / 8 := if occupied then SetBit(b, k) else ClearBit(b, k)];
    assert forall j :: 0 <= j < 8 * |buffer| ==>
             (CheckBit(r, j) <==> if j == i then occupied else CheckBit(buffer, j)) by {
      forall j | 0 <= j < 8 * |buffer|
        ensures CheckBit(r, j) <==> if j == i then occupied else CheckBit(buffer, j)
      {
        SetBitSets(b, k, j % 8);
        ClearBitClears(b, k, j % 8);
        SameBit(i, j);
      }
    }
    r
  }

  // ---- counting ---------------------------------------------------------------------------

  function Clear(used: seq<bool>): int {
    |used| - Count(used)
  }

  lemma {:induction false} ClearMeans(used: seq<bool>)
    ensures Clear(used) >= 0
    ensures Clear(used) == 0 <==> forall i :: 0 <= i < |used| ==> used[i]
  {
    if used != [] {
      var tail := used[1..];
      ClearMeans(tail);
      assert forall i :: 0 <= i < |tail| ==> tail[i] == used[i + 1];
      if Clear(used) == 0 {
        forall i | 0 <= i < |used| ensures used[i] {
          assert i > 0 ==> used[i] == tail[i - 1];
        }
      }
    }
  }

  function Sum(counts: seq<int>): int {
    if counts == [] then 0 else counts[0] + Sum(counts[1..])
  }

  lemma {:induction false} SumUpdate(counts: seq<int>, g: nat, x: int)
    requires g < |counts|
    ensures Sum(counts[g := x]) == Sum(counts) - counts[g] + x
  {
    if g > 0 {
      assert counts[g := x][1..] == counts[1..][g - 1 := x];
      SumUpdate(counts[1..], g - 1, x);
    } else {
      assert counts[g := x][1..] == counts[1..];
    }
  }

  lemma {:induction false} SumZero(counts: seq<int>)
    requires forall g :: 0 <= g < |counts| ==> counts[g] >= 0
    ensures Sum(counts) >= 0
    ensures Sum(counts) == 0 <==> forall g :: 0 <= g < |counts| ==> counts[g] == 0
  {
    if counts != [] {
      var tail := counts[1..];
      assert forall g :: 0 <= g < |tail| ==> tail[g] == counts[g + 1];
      SumZero(tail);
      if Sum(counts) == 0 {
        forall g | 0 <= g < |counts| ensures counts[g] == 0 {
          assert g > 0 ==> counts[g] == tail[g - 1];
        }
      }
    }
  }

  // ---- block numbers ----------------------------------------------------------------------

  ghost predicate UsedAt(used: seq<seq<bool>>, g: nat, i: nat) {
    g < |used| && i < |used[g]| && used[g][i]
  }

  ghost predicate InUse(used: seq<seq<bool>>, perGroup: nat, b: nat) {
    perGroup > 0 && UsedAt(used, b / perGroup, b % perGroup)
  }

  ghost predicate Rectangular(used: seq<seq<bool>>, perGroup: nat) {
    perGroup > 0 && forall g :: 0 <= g < |used| ==> |used[g]| == perGroup
  }

  ghost function Mark(used: seq<seq<bool>>, g: nat, i: nat): seq<seq<bool>>
    requires g < |used| && i < |used[g]|
  {
    used[g := used[g][i := true]]
  }

  lemma Numbered(perGroup: nat, g: nat, i: nat, b: nat)
    requires i < perGroup
    ensures b == g * perGroup + i <==> b / perGroup == g && b % perGroup == i
  {
    assert b == b / perGroup * perGroup + b % perGroup;
    if b == g * perGroup + i {
      DivModUnique(b, perGroup, g, i);
    }
  }

  function BlockNumber(g: nat, perGroup: nat, i: nat): nat {
    MulMonotone(0, g, perGroup);
    g * perGroup + i
  }

  lemma MarkUsedAt(used: seq<seq<bool>>, g: nat, i: nat, x: nat, y: nat)
    requires g < |used| && i < |used[g]|
    ensures UsedAt(Mark(used, g, i), x, y) <==> (x == g && y == i) || UsedAt(used, x, y)
  {
  }

  lemma MarkUses(used: seq<seq<bool>>, perGroup: nat, g: nat, i: nat, b: nat)
    requires Rectangular(used, perGroup) && g < |used| && i < perGroup
    ensures Rectangular(Mark(used, g, i), perGroup)
    ensures InUse(Mark(used, g, i), perGroup, b) <==> b == g * perGroup + i || InUse(used, perGroup, b)
  {
    hide UsedAt;
    Numbered(perGroup, g, i, b);
    MarkUsedAt(used, g, i, b / perGroup, b % perGroup);
  }

  // Every block before block i of group g is in use.
  lemma UsedBefore(used: seq<seq<bool>>, perGroup: nat, g: nat, i: nat, b: nat)
    requires Rectangular(used, perGroup) && g < |used| && i < perGroup && b < g * perGroup + i
    requires forall h :: 0 <= h < g ==> Clear(used[h]) == 0
    requires forall j :: 0 <= j < i ==> used[g][j]
    ensures InUse(used, perGroup, b)
  {
    var h, j := b / perGroup, b % perGroup;
    assert b == h * perGroup + j;
    if h > g {
      MulMonotone(g + 1, h, perGroup);
    }
    if h < g {
      ClearMeans(used[h]);
    }
  }

  // ---- the file system --------------------------------------------------------------------

  // The bits of a bitmap block.
  ghost predicate Shows(bitmap: Block, used: seq<bool>) {
    |used| <= 8 * |bitmap| && forall i :: 0 <= i < |used| ==> (CheckBit(bitmap, i) <==> used[i])
  }

  ghost predicate Bitmaps(bitmaps: seq<nat>, metadata: set<nat>, size: nat, perGroup: nat, disk: Disk,
                          used: seq<seq<bool>>)
  {
    && |used| == |bitmaps| && Rectangular(used, perGroup) && perGroup <= 8 * size
    && (forall g, h :: 0 <= g < h < |bitmaps| ==> bitmaps[g] != bitmaps[h])
    && forall g :: 0 <= g < |bitmaps| ==>
         && bitmaps[g] != 0 && bitmaps[g] in metadata && bitmaps[g] in disk
         && |disk[bitmaps[g]]| == size && Shows(disk[bitmaps[g]], used[g])
  }

  // Bit k of byte j of the bitmap of group g stands for block g * perGroup + 8 * j + k, the lowest bit
  // first.
  lemma BitmapMeans(bitmaps: seq<nat>, metadata: set<nat>, size: nat, perGroup: nat, disk: Disk,
                    used: seq<seq<bool>>, g: nat, j: nat, k: nat)
    requires Bitmaps(bitmaps, metadata, size, perGroup, disk, used) && g < |bitmaps| && k < 8 && 8 * j + k < perGroup
    ensures j < |disk[bitmaps[g]]| && Two(k) > 0 && g * perGroup + (8 * j + k) >= 0
    ensures InUse(used, perGroup, g * perGroup + (8 * j + k)) <==> disk[bitmaps[g]][j] / Two(k) % 2 == 1
  {
    var i := 8 * j + k;
    MulMonotone(0, g, perGroup);
    Numbered(perGroup, g, i, g * perGroup + i);
    BitMeans(disk[bitmaps[g]][j], k);
    assert i / 8 == j && i % 8 == k;
    assert CheckBit(disk[bitmaps[g]], i) <==> used[g][i];
  }

  ghost predicate Counts(freeBlocks: seq<int>, total: int, used: seq<seq<bool>>)
  {
    && |freeBlocks| == |used| && total == Sum(freeBlocks)
    && forall g :: 0 <= g < |used| ==> freeBlocks[g] == Clear(used[g])
  }

  // Every block of the set is marked as in use.
  ghost predicate AllInUse(blocks: set<nat>, perGroup: nat, used: seq<seq<bool>>)
  {
    forall b :: b in blocks ==> InUse(used, perGroup, b)
  }

  lemma BitmapsAfter(bitmaps: seq<nat>, metadata: set<nat>, size: nat, perGroup: nat, disk: Disk, used: seq<seq<bool>>,
                     g: nat, i: nat, bitmap: Block, block: nat, zeros: Block)
    requires Bitmaps(bitmaps, metadata, size, perGroup, disk, used) && g < |bitmaps| && i < perGroup &&
             block !in metadata
    requires |bitmap| == size
    requires forall j :: 0 <= j < 8 * size ==> (CheckBit(bitmap, j) <==> j == i || CheckBit(disk[bitmaps[g]], j))
    ensures Bitmaps(bitmaps, metadata, size, perGroup, disk[bitmaps[g] := bitmap][block := zeros], Mark(used, g, i))
  {
    hide CheckBit;
  }

  lemma CountsAfter(freeBlocks: seq<int>, total: int, used: seq<seq<bool>>, g: nat, i: nat)
    requires Counts(freeBlocks, total, used) && g < |used| && i < |used[g]| && !used[g][i]
    ensures Counts(freeBlocks[g := freeBlocks[g] - 1], total - 1, Mark(used, g, i))
  {
    hide Sum, Count;
    SumUpdate(freeBlocks, g, freeBlocks[g] - 1);
    CountUpdate(used[g], i, true);
  }

  // The superblock counts no free block exactly when every bit is set.
  lemma NoneFree(freeBlocks: seq<int>, total: int, used: seq<seq<bool>>)
    requires Counts(freeBlocks, total, used)
    ensures total >= 0
    ensures total == 0 <==> forall g :: 0 <= g < |used| ==> Clear(used[g]) == 0
  {
    hide Clear;
    forall g | 0 <= g < |used|
      ensures freeBlocks[g] >= 0
    {
      ClearMeans(used[g]);
    }
    SumZero(freeBlocks);
  }

  // Block i of group g, the first clear bit, and what its number says.
  lemma FirstClear(used: seq<seq<bool>>, perGroup: nat, g: nat, i: nat, block: nat)
    requires Rectangular(used, perGroup) && g < |used| && i < perGroup && !used[g][i] && block == g * perGroup + i
    requires forall h :: 0 <= h < g ==> Clear(used[h]) == 0
    requires forall j :: 0 <= j < i ==> used[g][j]
    ensures !InUse(used, perGroup, block)
    ensures forall b :: 0 <= b < block ==> InUse(used, perGroup, b)
    ensures forall b :: InUse(Mark(used, g, i), perGroup, b) <==> b == block || InUse(used, perGroup, b)
  {
    Numbered(perGroup, g, i, block);
    forall b | 0 <= b < block
      ensures InUse(used, perGroup, b)
    {
      UsedBefore(used, perGroup, g, i, b);
    }
    forall b
      ensures InUse(Mark(used, g, i), perGroup, b) <==> b == block || InUse(used, perGroup, b)
    {
      if 0 <= b {
        MarkUses(used, perGroup, g, i, b);
      }
    }
  }

  class Filesystem {
    const blockSize: nat
    const perGroup: nat
    const bitmaps: seq<nat>        // block_bitmap of every group
    const metadata: set<nat>       // the blocks that the file system itself occupies
    var freeBlocks: seq<int>       // free_blocks_count of every group
    var totalFree: int             // free_blocks_count of the superblock
    var disk: Disk
    ghost var used: seq<seq<bool>>
    ghost var issued: set<nat>     // every block ever returned

    ghost predicate Valid()
      reads this
    {
      && Bitmaps(bitmaps, metadata, blockSize, perGroup, disk, used) && Counts(freeBlocks, totalFree, used)
      && 0 in metadata && AllInUse(metadata, perGroup, used) && AllInUse(issued, perGroup, used)
    }

    // A mounted file system whose counters agree with its bitmaps.
    constructor (size: nat, per: nat, maps: seq<nat>, meta: set<nat>, free: seq<int>, total: int, d: Disk,
                 ghost u: seq<seq<bool>>)
      requires Bitmaps(maps, meta, size, per, d, u) && Counts(free, total, u) && 0 in meta && AllInUse(meta, per, u)
      ensures Valid() && blockSize == size && perGroup == per && bitmaps == maps && metadata == meta
      ensures freeBlocks == free && totalFree == total && disk == d && used == u && issued == {}
    {
      blockSize, perGroup, bitmaps, metadata := size, per, maps, meta;
      freeBlocks, totalFree, disk, used, issued := free, total, d, u, {};
    }

    // ext2_find_free_block_in_group
    method FindFreeBlockInGroup(cache: Block, ghost bits: seq<bool>) returns (found: bool, i: nat)
      requires Shows(cache, bits) && |bits| == perGroup
      ensures found ==> i < perGroup && !bits[i] && forall j :: 0 <= j < i ==> bits[j]
      ensures !found ==> forall j :: 0 <= j < perGroup ==> bits[j]
    {
      i := 0;
      while i < perGroup
        invariant i <= perGroup && forall j :: 0 <= j < i ==> bits[j]
      {
        if !CheckBit(cache, i) {
          return true, i;
        }
        i := i + 1;
      }
      found := false;
    }

    // ext2_find_free_block
    method FindFreeBlock(zeroed: Block) returns (found: bool, g: nat, i: nat, cache: Block)
      requires Bitmaps(bitmaps, metadata, blockSize, perGroup, disk, used) && Counts(freeBlocks, totalFree, used)
      ensures found ==> g < |bitmaps| && i < perGroup && !used[g][i] && cache == disk[bitmaps[g]]
      ensures found ==> (forall h :: 0 <= h < g ==> Clear(used[h]) == 0) && forall j :: 0 <= j < i ==> used[g][j]
      ensures !found ==> forall h :: 0 <= h < |bitmaps| ==> Clear(used[h]) == 0
    {
      hide Clear, Shows;
      g, i, cache := 0, 0, zeroed;
      while g < |bitmaps|
        invariant g <= |bitmaps| && forall h :: 0 <= h < g ==> Clear(used[h]) == 0
      {
        if freeBlocks[g] > 0 {
          cache := ReadInto(disk, bitmaps[g], cache);
          found, i := FindFreeBlockInGroup(cache, used[g]);
          if found {
            return;
          }
        }
        ClearMeans(used[g]);
        g := g + 1;
      }
      found := false;
    }

    // ext2_allocate_block
    method AllocateBlock() returns (block: nat)
      requires Valid()
      modifies this`freeBlocks, this`totalFree, this`disk, this`used, this`issued
      ensures Valid()
      ensures block == 0 <==> old(totalFree) == 0
      ensures block == 0 ==> disk == old(disk) && used == old(used) && freeBlocks == old(freeBlocks)
                             && totalFree == old(totalFree) && issued == old(issued)
      ensures block != 0 ==> forall b :: 0 <= b < block ==> InUse(old(used), perGroup, b)
      ensures block != 0 ==> !InUse(old(used), perGroup, block) && block !in old(issued) && block !in metadata
      ensures block != 0 ==> forall b :: InUse(used, perGroup, b) <==> b == block || InUse(old(used), perGroup, b)
      ensures block != 0 ==> issued == old(issued) + {block} && totalFree == old(totalFree) - 1
      ensures block != 0 ==> block in disk && disk[block] == seq(blockSize, _ => 0)
      ensures block != 0 ==> forall b :: b in old(disk) && b != block && b !in bitmaps ==>
                b in disk && disk[b] == old(disk)[b]
    {
      hide Clear, Shows, Sum, InUse, CheckBit;
      var cache: Block := seq(blockSize, _ => 0);
      var found, g, i;
      found, g, i, cache := FindFreeBlock(cache);
      NoneFree(freeBlocks, totalFree, used);
      if !found {
        return 0;
      }
      block := BlockNumber(g, perGroup, i);
      FirstClear(used, perGroup, g, i, block);
      ClearMeans(used[g]);
      cache := SetBitmapBit(cache, i, true);
      ghost var zeros: Block := seq(blockSize, _ => 0);
      BitmapsAfter(bitmaps, metadata, blockSize, perGroup, disk, used, g, i, cache, block, zeros);
      CountsAfter(freeBlocks, totalFree, used, g, i);
      disk := disk[bitmaps[g] := cache];
      freeBlocks := freeBlocks[g := freeBlocks[g] - 1];
      totalFree := totalFree - 1;
      cache := seq(blockSize, _ => 0);
      disk := disk[block := cache];
      used := Mark(used, g, i);
      issued := issued + {block};
    }

    // A run of allocations until one fails.
    method AllocateRun(n: nat) returns (blocks: seq<nat>)
      requires Valid()
      modifies this`freeBlocks, this`totalFree, this`disk, this`used, this`issued
      ensures Valid() && |blocks| + totalFree == old(totalFree)
      ensures |blocks| == if n <= old(totalFree) then n else old(totalFree)
      ensures forall j, k :: 0 <= j < k < |blocks| ==> blocks[j] < blocks[k]
      ensures forall b :: b in blocks ==> b !in metadata && b !in old(issued)
      ensures issued == old(issued) + (set b | b in blocks)
      ensures forall b :: InUse(used, perGroup, b) <==> b in blocks || InUse(old(used), perGroup, b)
    {
      hide InUse, Bitmaps, Counts;
      blocks := [];
      assert totalFree >= 0 by { NoneFree(freeBlocks, totalFree, used); }
      while |blocks| < n
        invariant Valid() && |blocks| <= n && |blocks| + totalFree == old(totalFree) && totalFree >= 0
        invariant forall j, k :: 0 <= j < k < |blocks| ==> blocks[j] < blocks[k]
        invariant forall b :: b in blocks ==> b !in metadata && b !in old(issued)
        invariant issued == old(issued) + (set b | b in blocks)
        invariant forall b :: InUse(used, perGroup, b) <==> b in blocks || InUse(old(used), perGroup, b)
        invariant forall b, c :: b in blocks && 0 <= c < b ==> InUse(used, perGroup, c)
        decreases n - |blocks|
      {
        ghost var before := used;
        var block := AllocateBlock();
        if block == 0 {
          return;
        }
        forall k | 0 <= k < |blocks|
          ensures blocks[k] < block
        {
          assert blocks[k] in blocks && InUse(before, perGroup, blocks[k]) && !InUse(before, perGroup, block);
        }
        assert totalFree >= 0 by { NoneFree(freeBlocks, totalFree, used); }
        blocks := blocks + [block];
      }
    }
  }
}
