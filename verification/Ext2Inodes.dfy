/**
 Reading and writing inode records. A record is addressed by group, block and offset in the code;
 the reference is the flat byte address that the layout of an inode table gives it.
*/
module Ext2Inodes {
  import opened Arith
  import opened Ext2Tree

  // sizeof(ext2_inode_t)
  const RECORD: nat := 128

  // The geometry that ext2_mount reads from the superblock and the group descriptors.
  datatype Layout = Layout(blockSize: nat, inodeSize: nat, perBlock: nat, perGroup: nat, tables: seq<nat>)

  ghost predicate TablesApart(l: Layout, t: nat, u: nat) {
    t * l.blockSize + l.perGroup * l.inodeSize <= u * l.blockSize ||
    u * l.blockSize + l.perGroup * l.inodeSize <= t * l.blockSize
  }

  ghost predicate Sound(l: Layout) {
    && RECORD <= l.inodeSize && 0 < l.perBlock && 0 < l.perGroup
    && l.blockSize == l.perBlock * l.inodeSize
    && forall g, h :: 0 <= g < |l.tables| && 0 <= h < |l.tables| && g != h ==> TablesApart(l, l.tables[g], l.tables[h])
  }

  // ext2_get_group_index_from_inode, ext2_get_inode_offest_in_group
  function GroupOf(l: Layout, i: nat): nat
    requires l.perGroup > 0 && i > 0
  {
    (i - 1) / l.perGroup
  }

  function OffsetOf(l: Layout, i: nat): nat
    requires l.perGroup > 0 && i > 0
  {
    (i - 1) % l.perGroup
  }

  ghost predicate IsInode(l: Layout, i: nat) {
    i > 0 && l.perGroup > 0 && GroupOf(l, i) < |l.tables|
  }

  // ---- the reference: the disk as one array of bytes --------------------------------------

  ghost function Byte(disk: Disk, size: nat, a: int): int
    requires size > 0
  {
    if a / size in disk && a % size < |disk[a / size]| then disk[a / size][a % size] as int else 0
  }

  ghost function Address(l: Layout, i: nat): int
    requires IsInode(l, i)
  {
    l.tables[GroupOf(l, i)] * l.blockSize + OffsetOf(l, i) * l.inodeSize
  }

  // Inode numbers start with 1.  Record k of the table of group g belongs to inode g * perGroup + k + 1.
  lemma AddressMeans(l: Layout, g: nat, k: nat)
    requires g < |l.tables| && k < l.perGroup
    ensures var i := g * l.perGroup + k + 1;
            i > 0 && IsInode(l, i) && Address(l, i) == l.tables[g] * l.blockSize + k * l.inodeSize
  {
    MulMonotone(0, g, l.perGroup);
    DivModUnique(g * l.perGroup + k, l.perGroup, g, k);
  }

  // The record of inode i is r.
  ghost predicate Stored(l: Layout, disk: Disk, i: nat, r: seq<byte>)
    requires l.blockSize > 0 && IsInode(l, i)
  {
    |r| == RECORD && forall k :: 0 <= k < RECORD ==> Byte(disk, l.blockSize, Address(l, i) + k) == r[k] as int
  }

  // Two inodes with the same group and offset are the same inode.
  lemma SameInode(l: Layout, i: nat, j: nat)
    requires l.perGroup > 0 && i > 0 && j > 0 && GroupOf(l, i) == GroupOf(l, j) && OffsetOf(l, i) == OffsetOf(l, j)
    ensures i == j
  {
    assert i - 1 == (i - 1) / l.perGroup * l.perGroup + (i - 1) % l.perGroup;
    assert j - 1 == (j - 1) / l.perGroup * l.perGroup + (j - 1) % l.perGroup;
  }

  lemma SlotFits(o: nat, n: nat, size: nat)
    requires o < n
    ensures 0 <= o * size && o * size + size <= n * size
  {
    MulMonotone(0, o, size);
    MulMonotone(o + 1, n, size);
  }

  // The records of different inodes do not overlap.
  lemma RecordsApart(l: Layout, i: nat, j: nat)
    requires Sound(l) && IsInode(l, i) && IsInode(l, j) && i != j
    ensures Address(l, i) + RECORD <= Address(l, j) || Address(l, j) + RECORD <= Address(l, i)
  {
    var g, h, o, q := GroupOf(l, i), GroupOf(l, j), OffsetOf(l, i), OffsetOf(l, j);
    if o == q && g == h {
      SameInode(l, i, j);
    }
    if g == h && o < q {
      SlotFits(o, q, l.inodeSize);
    } else if g == h {
      SlotFits(q, o, l.inodeSize);
    } else {
      assert TablesApart(l, l.tables[g], l.tables[h]);
      SlotFits(o, l.perGroup, l.inodeSize);
      SlotFits(q, l.perGroup, l.inodeSize);
    }
  }

  // ---- where the code looks for a record --------------------------------------------------

  function BlockOf(l: Layout, offset: nat): nat
    requires l.blockSize > 0
  {
    offset * l.inodeSize / l.blockSize
  }

  // The byte offset of a record in its block.
  function Within(l: Layout, offset: nat): nat
    requires l.perBlock > 0
  {
    offset % l.perBlock * l.inodeSize
  }

  // Block and offset split the byte offset of a record, and the record does not cross a block.
  lemma SplitOffset(blockSize: nat, inodeSize: nat, perBlock: nat, offset: nat)
    requires 0 < perBlock && 0 < inodeSize && blockSize == perBlock * inodeSize
    ensures 0 < blockSize
    ensures offset * inodeSize == offset * inodeSize / blockSize * blockSize + offset % perBlock * inodeSize
    ensures 0 <= offset % perBlock * inodeSize && offset % perBlock * inodeSize + inodeSize <= blockSize
  {
    var q, r := offset / perBlock, offset % perBlock;
    MulMonotone(1, perBlock, inodeSize);
    SlotFits(r, perBlock, inodeSize);
    assert offset * inodeSize == q * blockSize + r * inodeSize by {
      assert offset == q * perBlock + r;
      assert (q * perBlock + r) * inodeSize == q * perBlock * inodeSize + r * inodeSize;
      assert q * perBlock * inodeSize == q * (perBlock * inodeSize);
    }
    DivModUnique(offset * inodeSize, blockSize, q, r * inodeSize);
  }

  // Overwriting part of one block changes exactly those bytes of the disk.
  ghost function Poke(disk: Disk, block: nat, at: nat, bytes: seq<byte>): Disk
    requires block in disk && at + |bytes| <= |disk[block]|
  {
    disk[block := disk[block][..at] + bytes + disk[block][at + |bytes|..]]
  }

  lemma PokeBytes(disk: Disk, size: nat, block: nat, at: nat, bytes: seq<byte>, a: int)
    requires size > 0 && block in disk && |disk[block]| == size && at + |bytes| <= size
    ensures var base := block * size + at;
            Byte(Poke(disk, block, at, bytes), size, a)
            == if base <= a < base + |bytes| then bytes[a - base] as int else Byte(disk, size, a)
  {
    if block * size <= a < block * size + size {
      DivModUnique(a, size, block, a - block * size);
    } else {
      assert a == a / size * size + a % size;
    }
  }

  lemma PeekBytes(disk: Disk, size: nat, block: nat, at: nat, k: nat)
    requires size > 0 && block in disk && |disk[block]| == size && at + k < size
    ensures Byte(disk, size, block * size + at + k) == disk[block][at + k] as int
  {
    DivModUnique(block * size + at + k, size, block, at + k);
  }

  // The block of the inode table that holds the record at `offset` of group g.
  ghost predicate HasBlock(l: Layout, disk: Disk, g: nat, offset: nat)
    requires g < |l.tables| && l.blockSize > 0
  {
    var b := l.tables[g] + BlockOf(l, offset);
    b != 0 && b in disk && |disk[b]| == l.blockSize
  }

  ghost predicate HasTables(l: Layout, disk: Disk) {
    l.blockSize > 0 && forall g, o :: 0 <= g < |l.tables| && 0 <= o < l.perGroup ==> HasBlock(l, disk, g, o)
  }

  // The code's place for inode i is the address of its record.
  lemma PlaceIsAddress(l: Layout, i: nat)
    requires Sound(l) && IsInode(l, i)
    ensures l.blockSize > 0 && Within(l, OffsetOf(l, i)) + RECORD <= l.blockSize
    ensures Address(l, i)
            == (l.tables[GroupOf(l, i)] + BlockOf(l, OffsetOf(l, i))) * l.blockSize + Within(l, OffsetOf(l, i))
  {
    SplitOffset(l.blockSize, l.inodeSize, l.perBlock, OffsetOf(l, i));
    var t, b := l.tables[GroupOf(l, i)], BlockOf(l, OffsetOf(l, i));
    assert (t + b) * l.blockSize == t * l.blockSize + b * l.blockSize;
  }

  lemma ReadIsStored(l: Layout, disk: Disk, i: nat)
    requires Sound(l) && HasTables(l, disk) && IsInode(l, i)
    ensures var block, at := l.tables[GroupOf(l, i)] + BlockOf(l, OffsetOf(l, i)), Within(l, OffsetOf(l, i));
            && HasBlock(l, disk, GroupOf(l, i), OffsetOf(l, i)) && at + RECORD <= l.blockSize
            && Stored(l, disk, i, disk[block][at..at + RECORD])
  {
    hide Address, Byte, Within, BlockOf;
    PlaceIsAddress(l, i);
    var block, at := l.tables[GroupOf(l, i)] + BlockOf(l, OffsetOf(l, i)), Within(l, OffsetOf(l, i));
    assert HasBlock(l, disk, GroupOf(l, i), OffsetOf(l, i));
    var r := disk[block][at..at + RECORD];
    forall k | 0 <= k < RECORD
      ensures Byte(disk, l.blockSize, Address(l, i) + k) == r[k] as int
    {
      PeekBytes(disk, l.blockSize, block, at, k);
    }
  }

  // Byte a of the disk when r has been stored as the record of inode i.
  ghost function Overlaid(l: Layout, disk: Disk, i: nat, r: seq<byte>, a: int): int
    requires l.blockSize > 0 && IsInode(l, i) && |r| == RECORD
  {
    var base := Address(l, i);
    if base <= a < base + RECORD then r[a - base] as int else Byte(disk, l.blockSize, a)
  }

  // A write to one record leaves the disk as it was but for the bytes of that record.
  ghost predicate OnlyRecord(l: Layout, disk: Disk, disk': Disk, i: nat, r: seq<byte>)
    requires l.blockSize > 0 && IsInode(l, i) && |r| == RECORD
  {
    forall a :: Byte(disk', l.blockSize, a) == Overlaid(l, disk, i, r, a)
  }

  lemma WriteOnlyRecord(l: Layout, disk: Disk, i: nat, r: seq<byte>)
    requires Sound(l) && HasTables(l, disk) && IsInode(l, i) && |r| == RECORD
    ensures var block, at := l.tables[GroupOf(l, i)] + BlockOf(l, OffsetOf(l, i)), Within(l, OffsetOf(l, i));
            && block in disk && at + RECORD <= |disk[block]|
            && HasTables(l, Poke(disk, block, at, r)) && OnlyRecord(l, disk, Poke(disk, block, at, r), i, r)
  {
    hide Address, Byte, Within, BlockOf;
    PlaceIsAddress(l, i);
    var block, at := l.tables[GroupOf(l, i)] + BlockOf(l, OffsetOf(l, i)), Within(l, OffsetOf(l, i));
    assert HasBlock(l, disk, GroupOf(l, i), OffsetOf(l, i));
    forall a
      ensures Byte(Poke(disk, block, at, r), l.blockSize, a) == Overlaid(l, disk, i, r, a)
    {
      PokeBytes(disk, l.blockSize, block, at, r, a);
    }
    forall g, o | 0 <= g < |l.tables| && 0 <= o < l.perGroup
      ensures HasBlock(l, Poke(disk, block, at, r), g, o)
    {
      assert HasBlock(l, disk, g, o);
    }
  }

  // Writing inode i stores x there and changes no other inode.
  lemma WriteIsolated(l: Layout, disk: Disk, disk': Disk, i: nat, x: seq<byte>, j: nat, r: seq<byte>)
    requires Sound(l) && l.blockSize > 0 && IsInode(l, i) && IsInode(l, j) && |x| == RECORD
    requires OnlyRecord(l, disk, disk', i, x)
    ensures Stored(l, disk', j, r) <==> if i == j then r == x else Stored(l, disk, j, r)
  {
    hide Address, Byte, IsInode, GroupOf, OffsetOf, Sound;
    if i != j {
      RecordsApart(l, i, j);
    } else if |r| == RECORD {
      assert forall k :: 0 <= k < RECORD ==> Byte(disk', l.blockSize, Address(l, i) + k) == x[k] as int;
    }
  }

  class Volume {
    const layout: Layout
    var disk: Disk

    ghost predicate Valid()
      reads this
    {
      Sound(layout) && HasTables(layout, disk)
    }

    constructor (l: Layout, d: Disk)
      requires Sound(l) && HasTables(l, d)
      ensures Valid() && layout == l && disk == d
    {
      layout, disk := l, d;
    }

    // ext2_read_inode
    method ReadInode(i: nat) returns (rc: int, inode: seq<byte>)
      requires Valid() && (i > 0 ==> GroupOf(layout, i) != |layout.tables|)
      ensures rc == (if IsInode(layout, i) then 0 else -1)
      ensures rc == 0 ==> |inode| == 128 && Stored(layout, disk, i, inode)
    {
      hide Within, BlockOf, GroupOf, OffsetOf, Stored;
      rc, inode := -1, [];
      if i == 0 {
        return;
      }
      var g, offset := GroupOf(layout, i), OffsetOf(layout, i);
      if g > |layout.tables| {
        return;
      }
      var block := BlockOf(layout, offset);
      var at := Within(layout, offset);
      ReadIsStored(layout, disk, i);
      var cache: Block := seq(layout.blockSize, _ => 0);
      cache := ReadInto(disk, layout.tables[g] + block, cache);
      rc, inode := 0, cache[at..at + RECORD];
    }

    // ext2_write_inode
    method WriteInode(i: nat, inode: seq<byte>) returns (rc: int)
      requires Valid() && (i > 0 ==> GroupOf(layout, i) != |layout.tables|) && |inode| == RECORD
      modifies this`disk
      ensures Valid() && rc == (if IsInode(layout, i) then 0 else -1)
      ensures rc == -1 ==> disk == old(disk)
      ensures rc == 0 ==> OnlyRecord(layout, old(disk), disk, i, inode)
      ensures rc == 0 ==> forall j, r :: IsInode(layout, j) ==>
                (Stored(layout, disk, j, r) <==> if i == j then r == inode else Stored(layout, old(disk), j, r))
    {
      hide Within, BlockOf, GroupOf, OffsetOf, Stored, OnlyRecord;
      rc := -1;
      if i == 0 {
        return;
      }
      var g, offset := GroupOf(layout, i), OffsetOf(layout, i);
      if g > |layout.tables| {
        return;
      }
      var block := BlockOf(layout, offset);
      var at := Within(layout, offset);
      WriteOnlyRecord(layout, disk, i, inode);
      ReadIsStored(layout, disk, i);
      var cache: Block := seq(layout.blockSize, _ => 0);
      cache := ReadInto(disk, layout.tables[g] + block, cache);
      cache := cache[..at] + inode + cache[at + RECORD..];
      disk := disk[layout.tables[g] + block := cache];
      rc := 0;
      forall j, r | IsInode(layout, j)
        ensures Stored(layout, disk, j, r) <==> if i == j then r == inode else Stored(layout, old(disk), j, r)
      {
        WriteIsolated(layout, old(disk), disk, i, inode, j, r);
      }
    }
  }
}
