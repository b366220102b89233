/** Reading a byte range of a file: slices of whole blocks, assembled in the caller's buffer. */
module Ext2Read {
  import opened Arith
  import opened Ext2Tree

  // The bytes of a block; a hole stands for zeros.
  ghost function BlockBytes(disk: Disk, size: nat, b: nat): seq<byte> {
    if There(disk, b) then disk[b] else seq(size, _ => 0)
  }

  lemma BytesLength(disk: Disk, size: nat, b: nat)
    requires forall b :: b in disk ==> |disk[b]| == size
    ensures |BlockBytes(disk, size, b)| == size
  {
  }

  // The bytes of a list of blocks, one after the other.
  ghost function Content(disk: Disk, size: nat, blocks: seq<nat>): seq<byte> {
    if blocks == [] then []
    else Content(disk, size, blocks[..|blocks| - 1]) + BlockBytes(disk, size, blocks[|blocks| - 1])
  }

  lemma {:induction false} ContentLength(disk: Disk, size: nat, blocks: seq<nat>)
    requires forall b :: b in disk ==> |disk[b]| == size
    ensures |Content(disk, size, blocks)| == |blocks| * size
  {
    if blocks != [] {
      var m := |blocks| - 1;
      ContentLength(disk, size, blocks[..m]);
      MulSucc(m, size);
    }
  }

  lemma SliceFits(n: nat, count: nat, size: nat)
    requires n < count
    ensures 0 <= n * size && n * size + size <= count * size
  {
    MulMonotone(0, n, size);
    MulMonotone(n + 1, count, size);
  }

  lemma TakeSlice(a: seq<byte>, b: seq<byte>, i: nat, j: nat)
    requires i <= j <= |a|
    ensures (a + b)[i..j] == a[i..j]
  {
  }

  lemma TakeRest(a: seq<byte>, b: seq<byte>)
    ensures (a + b)[|a|..|a| + |b|] == b
  {
  }

  // Block n holds the bytes from n * size on.
  lemma {:induction false} ContentSlice(disk: Disk, size: nat, blocks: seq<nat>, n: nat)
    requires (forall b :: b in disk ==> |disk[b]| == size) && n < |blocks|
    ensures 0 <= n * size && n * size + size <= |Content(disk, size, blocks)|
    ensures Content(disk, size, blocks)[n * size..n * size + size] == BlockBytes(disk, size, blocks[n])
    decreases |blocks|
  {
    hide BlockBytes;
    var m := |blocks| - 1;
    var init := blocks[..m];
    BytesLength(disk, size, blocks[m]);
    ContentLength(disk, size, blocks);
    ContentLength(disk, size, init);
    SliceFits(n, |blocks|, size);
    if n < m {
      ContentSlice(disk, size, init, n);
      TakeSlice(Content(disk, size, init), BlockBytes(disk, size, blocks[m]), n * size, n * size + size);
    } else {
      TakeRest(Content(disk, size, init), BlockBytes(disk, size, blocks[m]));
    }
  }

  // The blocks that inode.blocks_count, which counts 512-byte sectors, allows for.
  function CountedBlocks(p: nat, inode: Inode): nat
    requires p >= 128
  {
    inode.blocksCount / (4 * p / 512)
  }

  // Block k is counted if all its sectors are.
  lemma CountedMeans(p: nat, inode: Inode, k: nat)
    requires p >= 128
    ensures 4 * p / 512 > 0 && (k < CountedBlocks(p, inode) <==> (k + 1) * (4 * p / 512) <= inode.blocksCount)
  {
    var d, c := 4 * p / 512, CountedBlocks(p, inode);
    assert c * d <= inode.blocksCount < c * d + d;
    if k < c {
      MulMonotone(k + 1, c, d);
    } else {
      MulMonotone(c + 1, k + 1, d);
      MulSucc(c, d);
    }
  }

  // Block k of the file is allocated: the sector count allows for it and it is on disk.
  ghost predicate Allocated(disk: Disk, p: nat, inode: Inode, k: nat) {
    && p >= 128 && k < CountedBlocks(p, inode)
    && k < |FileBlocks(disk, p, inode)| && There(disk, FileBlocks(disk, p, inode)[k])
  }

  ghost predicate AllAllocated(disk: Disk, p: nat, inode: Inode, lo: nat, hi: nat) {
    forall k :: lo <= k < hi ==> Allocated(disk, p, inode, k)
  }

  // Block k is allocated, or a hole that is not misread.
  ghost predicate Clear(disk: Disk, p: nat, inode: Inode, k: nat) {
    p >= 128 && (k < CountedBlocks(p, inode) ==> !Misread(disk, p, inode, k))
  }

  // The bytes of the file; holes are zeros.
  ghost function FileContent(disk: Disk, p: nat, inode: Inode): seq<byte> {
    Content(disk, 4 * p, FileBlocks(disk, p, inode))
  }

  // What a read of the blocks from lo to hi can be held to: the bytes of the file, unless it meets
  // a hole that is misread.
  datatype Known = Unknown | Bytes(content: seq<byte>)

  ghost function KnownOf(disk: Disk, p: nat, inode: Inode, lo: nat, hi: nat): Known {
    if forall k :: lo <= k < hi ==> Clear(disk, p, inode, k) then Bytes(FileContent(disk, p, inode)) else Unknown
  }

  // The known bytes from `at` on are `bytes`.
  ghost predicate IsSlice(known: Known, at: int, bytes: seq<byte>) {
    known.Bytes? && bytes != [] ==>
      0 <= at && at + |bytes| <= |known.content| && known.content[at..at + |bytes|] == bytes
  }

  lemma FileSlice(disk: Disk, p: nat, inode: Inode, n: nat, size: nat)
    requires Geometry(disk, p) && size == 4 * p && Allocated(disk, p, inode, n)
    ensures IsSlice(Bytes(FileContent(disk, p, inode)), n * size, disk[FileBlocks(disk, p, inode)[n]])
  {
    hide FileBlocks, Content, CountedBlocks;
    ContentSlice(disk, size, FileBlocks(disk, p, inode), n);
  }

  // A file all of whose blocks are allocated, and a read of allocated blocks in any file, are known.
  lemma AllocatedIsKnown(disk: Disk, p: nat, inode: Inode, lo: nat, hi: nat)
    requires p >= 128 && |inode.direct| == DIRECT && AllAllocated(disk, p, inode, lo, hi)
    ensures KnownOf(disk, p, inode, lo, hi) == Bytes(FileContent(disk, p, inode))
  {
    hide FileBlocks, Misread, CountedBlocks, FileContent, Capacity;
    FileLength(disk, p, inode);
    forall k | lo <= k < hi
      ensures Clear(disk, p, inode, k)
    {
      assert Allocated(disk, p, inode, k);
      AllocatedIsRead(disk, p, inode, k);
    }
  }

  lemma SliceOfUnknown(known: Known, at: int, bytes: seq<byte>)
    ensures known.Unknown? ==> IsSlice(known, at, bytes)
  {
  }

  // ext2_read_inode_block
  method ReadInodeBlock(disk: Disk, p: nat, inode: Inode, n: nat, cache: Block, size: nat, ghost lo: nat, ghost hi: nat)
    returns (ok: bool, cache': Block)
    requires Geometry(disk, p) && |inode.direct| == DIRECT && |cache| == size == 4 * p
    requires CountedBlocks(p, inode) <= Capacity(p) && lo <= n < hi
    ensures |cache'| == size
    ensures KnownOf(disk, p, inode, lo, hi).Bytes? ==> (ok <==> Allocated(disk, p, inode, n))
    ensures ok ==> IsSlice(KnownOf(disk, p, inode, lo, hi), n * size, cache')
  {
    hide FileBlocks, Misread, Capacity, TreblyLimit, CountedBlocks, FileContent, IsSlice;
    cache' := cache;
    if n >= CountedBlocks(p, inode) {
      return false, cache;
    }
    var index := GetRealBlockIndex(disk, p, inode, n);
    assert KnownOf(disk, p, inode, lo, hi).Bytes? ==> Clear(disk, p, inode, n);
    if index == 0 {
      return false, cache;
    }
    ok, cache' := index in disk, ReadInto(disk, index, cache);
    if ok && KnownOf(disk, p, inode, lo, hi).Bytes? {
      FileSlice(disk, p, inode, n, size);
    } else {
      SliceOfUnknown(KnownOf(disk, p, inode, lo, hi), n * size, cache');
    }
  }

  lemma SliceOfNothing(known: Known, at: int)
    ensures IsSlice(known, at, [])
  {
  }

  // memcpy(buffer + at, src, |src|)
  method CopyInto(buffer: array<byte>, at: nat, src: seq<byte>)
    requires at + |src| <= buffer.Length
    modifies buffer
    ensures buffer[at..at + |src|] == src
    ensures buffer[..at] == old(buffer[..at]) && buffer[at + |src|..] == old(buffer[at + |src|..])
  {
    forall k | 0 <= k < |src| {
      buffer[at + k] := src[k];
    }
  }

  // ---- ext2_read_inode_data ---------------------------------------------------------------

  lemma SliceOfSlice(c: seq<byte>, base: nat, size: nat, from: nat, len: nat)
    requires base + size <= |c| && from + len <= size
    ensures c[base..base + size][from..from + len] == c[base + from..base + from + len]
  {
    var a, b := c[base..base + size][from..from + len], c[base + from..base + from + len];
    assert |a| == |b| && forall k :: 0 <= k < len ==> a[k] == b[k];
  }

  lemma SliceJoin(c: seq<byte>, i: nat, j: nat, k: nat)
    requires i <= j <= k <= |c|
    ensures c[i..j] + c[j..k] == c[i..k]
  {
  }

  lemma BlockPart(c: seq<byte>, base: nat, block: seq<byte>, from: nat, len: nat)
    requires base + |block| <= |c| && c[base..base + |block|] == block && from + len <= |block|
    ensures block[from..from + len] == c[base + from..base + from + len]
  {
    SliceOfSlice(c, base, |block|, from, len);
  }

  // A part of a block continues what has been read so far.
  lemma SliceMore(known: Known, at: nat, bytes: seq<byte>, base: int, block: seq<byte>, from: nat, len: nat)
    requires IsSlice(known, at, bytes) && IsSlice(known, base, block)
    requires at + |bytes| == base + from && from + len <= |block|
    ensures IsSlice(known, at, bytes + block[from..from + len])
  {
    if known.Bytes? && len > 0 {
      var at' := at + |bytes|;
      BlockPart(known.content, base, block, from, len);
      assert bytes == known.content[at..at'] by {
        if bytes == [] { assert at == at'; }
      }
      SliceJoin(known.content, at, at', at' + len);
    } else {
      assert bytes + block[from..from] == bytes;
    }
  }

  // One block read and one memcpy.
  method CopyBlock(disk: Disk, p: nat, inode: Inode, n: nat, cache: Block, size: nat, from: nat, len: nat,
                   buffer: array<byte>, at: nat, ghost lo: nat, ghost hi: nat, ghost offset: nat)
    returns (ok: bool, cache': Block)
    requires Geometry(disk, p) && |inode.direct| == DIRECT && |cache| == size == 4 * p
    requires CountedBlocks(p, inode) <= Capacity(p)
    requires from + len <= size && at + len <= buffer.Length
    requires offset + at == n * size + from && lo <= n < hi
    requires IsSlice(KnownOf(disk, p, inode, lo, hi), offset, buffer[..at])
    modifies buffer
    ensures |cache'| == size
    ensures KnownOf(disk, p, inode, lo, hi).Bytes? ==> (ok <==> Allocated(disk, p, inode, n))
    ensures ok ==> IsSlice(KnownOf(disk, p, inode, lo, hi), offset, buffer[..at + len])
    ensures buffer[at + len..] == old(buffer[at + len..])
  {
    hide KnownOf, CountedBlocks, Capacity, IsSlice, Geometry, Allocated;
    ghost var before := buffer[..at];
    ok, cache' := ReadInodeBlock(disk, p, inode, n, cache, size, lo, hi);
    if !ok {
      return;
    }
    CopyInto(buffer, at, cache'[from..from + len]);
    assert buffer[..at + len] == before + cache'[from..from + len];
    SliceMore(KnownOf(disk, p, inode, lo, hi), offset, before, n * size, cache', from, len);
  }

  // The number of bytes that a read at `offset` returns.
  function Extent(size: nat, offset: nat, nbyte: nat): nat
    requires offset <= size
  {
    (if offset + nbyte > size then size else offset + nbyte) - offset
  }

  // Where block b of a read that starts in block `first` goes in the buffer, and why it fits.
  lemma BlockPlace(first: nat, b: nat, last: nat, size: nat, skip: nat, offset: nat)
    requires first <= b < last && offset == first * size + skip && skip < size
    ensures offset <= b * size + size == (b + 1) * size <= last * size
    ensures b > first ==> 0 <= size * (b - first) - skip == b * size - offset
  {
    assert (b - first) * size == b * size - first * size;
    assert (b + 1) * size == b * size + size;
    MulMonotone(first, b, size);
    MulMonotone(b + 1, last, size);
    if b > first {
      MulMonotone(first + 1, b, size);
      assert (first + 1) * size == first * size + size;
    }
  }

  lemma NoneYet(disk: Disk, p: nat, inode: Inode, lo: nat)
    ensures AllAllocated(disk, p, inode, lo, lo)
  {
  }

  lemma OneMore(disk: Disk, p: nat, inode: Inode, lo: nat, b: nat, hi: nat)
    requires lo <= b < hi && AllAllocated(disk, p, inode, lo, b)
    ensures Allocated(disk, p, inode, b) ==> AllAllocated(disk, p, inode, lo, b + 1)
    ensures AllAllocated(disk, p, inode, lo, hi) ==> Allocated(disk, p, inode, b)
  {
    hide Allocated;
  }

  // The loop over all blocks up to the one in which the read ends.
  method ReadBlocks(disk: Disk, p: nat, size: nat, inode: Inode, offset: nat, first: nat, last: nat, skip: nat,
                    cache: Block, buffer: array<byte>, ghost lo: nat, ghost hi: nat)
    returns (ok: bool, cache': Block)
    requires Geometry(disk, p) && |inode.direct| == DIRECT && |cache| == size == 4 * p &&
             CountedBlocks(p, inode) <= Capacity(p)
    requires offset == first * size + skip && skip < size && lo <= first < last <= hi
    requires last * size - offset <= buffer.Length
    modifies buffer
    ensures |cache'| == size && offset <= last * size
    ensures KnownOf(disk, p, inode, lo, hi).Bytes? ==> (ok <==> AllAllocated(disk, p, inode, first, last))
    ensures ok ==> IsSlice(KnownOf(disk, p, inode, lo, hi), offset, buffer[..last * size - offset])
    ensures buffer[last * size - offset..] == old(buffer[last * size - offset..])
  {
    hide KnownOf, CountedBlocks, Capacity, IsSlice, Geometry, Allocated, AllAllocated;
    BlockPlace(first, last - 1, last, size, skip, offset);
    NoneYet(disk, p, inode, first);
    cache' := cache;
    assert buffer[..0] == [];
    SliceOfNothing(KnownOf(disk, p, inode, lo, hi), offset);
    ghost var at := 0;
    ghost var stop := last * size - offset;
    var b, blocksRead := first, 0;
    while b < last
      invariant first <= b <= last && blocksRead == b - first && |cache'| == size
      invariant at == (if b == first then 0 else b * size - offset) && 0 <= at <= stop
      invariant IsSlice(KnownOf(disk, p, inode, lo, hi), offset, buffer[..at])
      invariant KnownOf(disk, p, inode, lo, hi).Bytes? ==> AllAllocated(disk, p, inode, first, b)
      invariant buffer[stop..] == old(buffer[stop..])
    {
      BlockPlace(first, b, last, size, skip, offset);
      if KnownOf(disk, p, inode, lo, hi).Bytes? { OneMore(disk, p, inode, first, b, last); }
      ghost var next := b * size + size - offset;
      assert buffer[stop..] == buffer[next..][stop - next..];
      if b == first {
        ok, cache' := CopyBlock(disk, p, inode, b, cache', size, skip, size - skip, buffer, 0, lo, hi, offset);
      } else {
        ok, cache' := CopyBlock(disk, p, inode, b, cache', size, 0, size, buffer, size * blocksRead - skip,
                                lo, hi, offset);
      }
      assert buffer[stop..] == buffer[next..][stop - next..];
      at := next;
      if !ok {
        return;
      }
      b, blocksRead := b + 1, blocksRead + 1;
    }
    ok := true;
  }

  // Where the last, partial block goes.
  lemma EndPlace(first: nat, last: nat, size: nat, skip: nat, offset: nat)
    requires first < last && offset == first * size + skip && skip < size
    ensures 0 <= size * (last - first) - skip == last * size - offset
  {
    assert (last - first) * size == last * size - first * size;
    MulMonotone(first + 1, last, size);
    MulSucc(first, size);
  }

  // A read that ends in another block than it starts in.
  method CopyMany(disk: Disk, p: nat, size: nat, inode: Inode, offset: nat, first: nat, skip: nat, last: nat,
                  endSize: nat, cache: Block, buffer: array<byte>, ghost lo: nat, ghost hi: nat)
    returns (ok: bool)
    requires Geometry(disk, p) && |inode.direct| == DIRECT && |cache| == size == 4 * p &&
             CountedBlocks(p, inode) <= Capacity(p)
    requires offset == first * size + skip && skip < size && endSize < size
    requires lo == first < last && hi == (if endSize > 0 then last + 1 else last)
    requires last * size + endSize - offset <= buffer.Length
    modifies buffer
    ensures 0 <= last * size - offset
    ensures KnownOf(disk, p, inode, lo, hi).Bytes? ==> (ok <==> AllAllocated(disk, p, inode, lo, hi))
    ensures ok ==> IsSlice(KnownOf(disk, p, inode, lo, hi), offset, buffer[..last * size - offset + endSize])
    ensures buffer[last * size - offset + endSize..] == old(buffer[last * size - offset + endSize..])
  {
    hide KnownOf, CountedBlocks, Capacity, IsSlice, Geometry, Allocated;
    EndPlace(first, last, size, skip, offset);
    ghost var at := last * size - offset;
    assert buffer[at + endSize..] == buffer[at..][endSize..];
    var cache';
    ok, cache' := ReadBlocks(disk, p, size, inode, offset, first, last, skip, cache, buffer, lo, hi);
    assert buffer[at + endSize..] == buffer[at..][endSize..];
    if ok && endSize != 0 {
      ok, cache' := CopyBlock(disk, p, inode, last, cache', size, 0, endSize, buffer, size * (last - first) - skip,
                              lo, hi, offset);
    }
  }

  // The body of ext2_read_inode_data once the block range is known.
  method CopyRange(disk: Disk, p: nat, size: nat, inode: Inode, offset: nat, first: nat, skip: nat, last: nat,
                   endSize: nat, sizeToRead: nat, buffer: array<byte>, ghost lo: nat, ghost hi: nat)
    returns (r: int)
    requires Geometry(disk, p) && |inode.direct| == DIRECT && size == 4 * p && CountedBlocks(p, inode) <= Capacity(p)
    requires offset == first * size + skip && skip < size && endSize < size
    requires offset + sizeToRead == last * size + endSize
    requires lo == first <= last && hi == (if first == last || endSize > 0 then last + 1 else last) &&
             sizeToRead <= buffer.Length
    modifies buffer
    ensures r == -1 || r == sizeToRead
    ensures KnownOf(disk, p, inode, lo, hi).Bytes? ==> (r != -1 <==> AllAllocated(disk, p, inode, lo, hi))
    ensures r != -1 ==> IsSlice(KnownOf(disk, p, inode, lo, hi), offset, buffer[..r])
    ensures buffer[sizeToRead..] == old(buffer[sizeToRead..])
  {
    hide KnownOf, CountedBlocks, Capacity, IsSlice, Geometry, Allocated;
    var cache: Block := seq(size, _ => 0);
    SliceOfNothing(KnownOf(disk, p, inode, lo, hi), offset);
    assert buffer[..0] == [];
    var ok;
    if first == last {
      MulSame(size, first, last);
      assert skip + sizeToRead == endSize;
      ok, cache := CopyBlock(disk, p, inode, first, cache, size, skip, sizeToRead, buffer, 0, lo, hi, offset);
    } else {
      ok := CopyMany(disk, p, size, inode, offset, first, skip, last, endSize, cache, buffer, lo, hi);
      EndPlace(first, last, size, skip, offset);
    }
    r := if ok then sizeToRead else -1;
  }

  function BlockOf(x: nat, size: nat): nat
    requires size > 0
  {
    x / size
  }

  function SkipOf(x: nat, size: nat): nat
    requires size > 0
  {
    x % size
  }

  lemma Split(x: nat, size: nat)
    requires size > 0
    ensures x == BlockOf(x, size) * size + SkipOf(x, size) && SkipOf(x, size) < size
  {
  }

  // The block behind the last one that a read of the bytes [offset, end) touches.  Even an empty
  // read touches the block that it starts in.
  function Stop(offset: nat, end: nat, size: nat): nat
    requires size > 0
  {
    if BlockOf(offset, size) == BlockOf(end, size) || SkipOf(end, size) > 0 then BlockOf(end, size) + 1
    else BlockOf(end, size)
  }

  // Those are the blocks that hold one of the bytes, and the one that holds the offset.
  lemma StopMeans(offset: nat, end: nat, size: nat, k: nat)
    requires 0 < size && offset <= end
    ensures BlockOf(offset, size) <= k < Stop(offset, end, size)
            <==> k * size <= offset < (k + 1) * size || (k * size < end && offset < (k + 1) * size)
  {
    hide BlockOf, SkipOf;
    Split(offset, size);
    Split(end, size);
    var first, last := BlockOf(offset, size), BlockOf(end, size);
    MulSucc(k, size);
    if last < first { MulMonotone(last + 1, first, size); MulSucc(last, size); }
    if k < first { MulMonotone(k + 1, first, size); }
    if k > first { MulMonotone(first + 1, k, size); MulSucc(first, size); }
    if k < last { MulMonotone(k + 1, last, size); }
    if k > last { MulMonotone(last + 1, k, size); MulSucc(last, size); }
  }

  // The block range of the bytes [offset, end).
  lemma RangeFacts(offset: nat, end: nat, size: nat)
    requires 0 < size && offset <= end
    ensures offset == BlockOf(offset, size) * size + SkipOf(offset, size) && SkipOf(offset, size) < size
    ensures 0 <= end - BlockOf(end, size) * size == SkipOf(end, size) < size
    ensures BlockOf(offset, size) <= BlockOf(end, size)
    ensures Stop(offset, end, size)
            == if BlockOf(offset, size) == BlockOf(end, size) || end - BlockOf(end, size) * size > 0
               then BlockOf(end, size) + 1 else BlockOf(end, size)
  {
    hide BlockOf, SkipOf;
    Split(offset, size);
    Split(end, size);
    var first, last := BlockOf(offset, size), BlockOf(end, size);
    if last < first {
      MulMonotone(last + 1, first, size);
    }
  }

  method ReadInodeData(disk: Disk, p: nat, size: nat, inode: Inode, offset: nat, nbyte: nat, buffer: array<byte>)
    returns (r: int)
    requires Geometry(disk, p) && |inode.direct| == DIRECT && size == 4 * p && CountedBlocks(p, inode) <= Capacity(p)
    requires offset + nbyte < 0x1_0000_0000
    requires inode.size > 0 ==> offset <= inode.size && Extent(inode.size, offset, nbyte) <= buffer.Length
    modifies buffer
    ensures inode.size == 0 ==> r == 0 && buffer[..] == old(buffer[..])
    ensures inode.size > 0 ==> r == -1 || r == Extent(inode.size, offset, nbyte)
    ensures inode.size > 0 && r != -1 ==>
              0 <= r <= nbyte && offset + r <= inode.size && (r == nbyte || offset + r == inode.size)
    ensures inode.size > 0 ==>
              var n := Extent(inode.size, offset, nbyte);
              var lo, hi := BlockOf(offset, size), Stop(offset, offset + n, size);
              && (AllAllocated(disk, p, inode, lo, hi) ==> KnownOf(disk, p, inode, lo, hi).Bytes?)
              && (KnownOf(disk, p, inode, lo, hi).Bytes? ==> (r != -1 <==> AllAllocated(disk, p, inode, lo, hi)))
              && (r != -1 ==> IsSlice(KnownOf(disk, p, inode, lo, hi), offset, buffer[..r]))
              && buffer[n..] == old(buffer[n..])
  {
    hide KnownOf, CountedBlocks, Capacity, IsSlice, BlockOf, SkipOf, AllAllocated, Stop, FileContent;
    if inode.size == 0 {
      return 0;
    }
    var end := if offset + nbyte > inode.size then inode.size else offset + nbyte;
    var startBlock, endBlock := BlockOf(offset, size), BlockOf(end, size);
    RangeFacts(offset, end, size);
    var endSize := end - endBlock * size;
    var sizeToRead := end - offset;
    ghost var stop := Stop(offset, end, size);
    if AllAllocated(disk, p, inode, startBlock, stop) {
      AllocatedIsKnown(disk, p, inode, startBlock, stop);
    }
    r := CopyRange(disk, p, size, inode, offset, startBlock, SkipOf(offset, size), endBlock, endSize, sizeToRead,
                   buffer, startBlock, stop);
  }

  lemma BlockOfMultiple(m: nat, size: nat)
    requires size > 0
    ensures BlockOf(size * m, size) == m
  {
    DivModUnique(size * m, size, m, 0);
  }

  // A read at the end of the file still looks for the block there.  It returns 0 exactly when that
  // block is allocated, so it fails when the file fills its last block.
  method ReadAtEnd(disk: Disk, p: nat, size: nat, inode: Inode, nbyte: nat, buffer: array<byte>) returns (r: int)
    requires Geometry(disk, p) && |inode.direct| == DIRECT && size == 4 * p && CountedBlocks(p, inode) <= Capacity(p)
    requires 0 < inode.size && inode.size + nbyte < 0x1_0000_0000
    modifies buffer
    ensures buffer[..] == old(buffer[..])
    ensures var k := BlockOf(inode.size, size);
            && (Clear(disk, p, inode, k) ==> r == if Allocated(disk, p, inode, k) then 0 else -1)
            && (inode.size == size * CountedBlocks(p, inode) ==> r == -1)
  {
    hide CountedBlocks, Capacity, IsSlice, BlockOf, SkipOf, Misread, FileContent, FileBlocks;
    r := ReadInodeData(disk, p, size, inode, inode.size, nbyte, buffer);
    assert buffer[..] == buffer[0..];
    ghost var k := BlockOf(inode.size, size);
    assert Stop(inode.size, inode.size, size) == k + 1;
    if inode.size == size * CountedBlocks(p, inode) {
      BlockOfMultiple(CountedBlocks(p, inode), size);
    }
  }
}
