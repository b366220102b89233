/** What every run of malloc and free calls on the kernel heap keeps. */
module HeapRuns {
  import opened Arith
  import opened HeapModel
  import opened KernelHeap

  datatype Call = Malloc(size: word) | Free(ptr: int)

  // The block that a call `Malloc` hands out.
  ghost function Given(h: Heap, i: int, need: int): Tile {
    if Fits(h, need) && 0 <= i < |h.tiles| then Taken(h.tiles[i], need) else Tile(h.top, need, false)
  }

  // `h'` is what the call makes of `h`; `i` is the block it works on.
  ghost predicate Step(h: Heap, call: Call, i: int, h': Heap) {
    match call
    case Malloc(size) =>
      if size == 0 then h' == h
      else if Fits(h, Rounded(size)) then BestFit(h, i, Rounded(size)) && h' == Carve(h, i, Rounded(size))
      else h' == Grow(h, Rounded(size))
    case Free(ptr) =>
      0 <= i < |h.tiles| && !h.tiles[i].free && ptr == h.tiles[i].addr + OVERHEAD && h' == Release(h, i)
  }

  // A run from a fresh heap; `at[k]` is the block that call `k` works on.
  ghost predicate Run(hs: seq<Heap>, calls: seq<Call>, at: seq<int>) {
    && |hs| == |calls| + 1 && |at| == |calls|
    && 0 < hs[0].start && hs[0].start % 4 == 0 && hs[0] == Heap(hs[0].start, [], [], hs[0].start)
    && forall k :: 0 <= k < |calls| ==> Step(hs[k], calls[k], at[k], hs[k + 1])
  }

  lemma NotYetLive(h: Heap, a: int)
    requires Inv(h) && a in FreeAddrs(h.tiles)
    ensures forall t :: t in Live(h.tiles) ==> t.addr != a
  {
    forall t | t in Live(h.tiles)
      ensures t.addr != a
    {
      var j :| 0 <= j < |h.tiles| && h.tiles[j] == t;
      ListedIffFree(h, j);
    }
  }

  lemma TopNotLive(h: Heap)
    requires Inv(h)
    ensures forall t :: t in Live(h.tiles) ==> t.addr != h.top
  {
    forall t | t in Live(h.tiles)
      ensures t.addr < h.top
    {
      TiledWithin(h.start, h.tiles, h.top, t);
    }
  }

  // One call changes the live blocks by exactly the block it hands out or takes back.
  lemma StepLive(h: Heap, call: Call, i: int, h': Heap)
    requires Inv(h) && Step(h, call, i, h')
    ensures Inv(h') && h'.start == h.start
    ensures call.Malloc? && call.size == 0 ==> Live(h'.tiles) == Live(h.tiles)
    ensures call.Malloc? && call.size != 0 ==>
              var t := Given(h, i, Rounded(call.size));
              Live(h'.tiles) == Live(h.tiles) + {t} && t !in Live(h.tiles) && t.size >= Rounded(call.size)
    ensures call.Free? ==> h.tiles[i] in Live(h.tiles) && Live(h'.tiles) == Live(h.tiles) - {h.tiles[i]}
  {
    hide Rounded, Lists, NoAdjacentFree;
    match call
    case Malloc(size) =>
      var need := Rounded(size);
      if size == 0 {
      } else if Fits(h, need) {
        CarveKeepsInv(h, i, need);
        NotYetLive(h, h.tiles[i].addr);
      } else {
        GrowKeepsInv(h, need);
        TopNotLive(h);
      }
    case Free(ptr) =>
      ReleaseKeepsInv(h, i);
      assert h.tiles[i] in h.tiles;
  }

  // The heap is tiled, its lists agree and no two neighbours are free, after any number of calls.
  lemma {:induction false} RunKeepsInv(hs: seq<Heap>, calls: seq<Call>, at: seq<int>, k: nat)
    requires Run(hs, calls, at) && k < |hs|
    ensures Inv(hs[k]) && hs[k].start == hs[0].start
    ensures hs[k].top == hs[k].start + Bytes(hs[k].tiles)
  {
    if k == 0 {
      EmptySets();
    } else {
      RunKeepsInv(hs, calls, at, k - 1);
      StepLive(hs[k - 1], calls[k - 1], at[k - 1], hs[k]);
    }
    TiledBytes(hs[k].start, hs[k].tiles, hs[k].top);
  }

  // A block that was handed out stays where it is, with its size, until it is given back.
  lemma {:induction false} LiveUntilFreed(hs: seq<Heap>, calls: seq<Call>, at: seq<int>, k: nat, m: nat, t: Tile)
    requires Run(hs, calls, at) && k <= m < |hs| && t in Live(hs[k].tiles)
    requires forall j :: k <= j < m ==> calls[j] != Free(t.addr + OVERHEAD)
    ensures t in Live(hs[m].tiles)
    decreases m
  {
    if k < m {
      LiveUntilFreed(hs, calls, at, k, m - 1, t);
      RunKeepsInv(hs, calls, at, m - 1);
      StepLive(hs[m - 1], calls[m - 1], at[m - 1], hs[m]);
      assert calls[m - 1] != Free(t.addr + OVERHEAD);
    }
  }

  lemma GivenExact(h: Heap, call: Call, i: int, h': Heap)
    requires Inv(h) && Step(h, call, i, h') && call.Malloc? && call.size != 0
    ensures var t, need := Given(h, i, Rounded(call.size)), Rounded(call.size);
            && need <= t.size < need + 20
            && (!Fits(h, need) ==> t == Tile(h.top, need, false) && h'.top == t.End())
            && (Fits(h, need) ==> h'.top == h.top)
  {
    hide Rounded, Inv;
    if Fits(h, Rounded(call.size)) {
      CarveExact(h, i, Rounded(call.size));
    }
  }

  lemma LiveInside(h: Heap, t: Tile)
    requires Inv(h) && t in Live(h.tiles)
    ensures h.start + OVERHEAD <= t.addr + OVERHEAD <= t.End() <= h.top && (t.addr + OVERHEAD) % 4 == 0
    ensures forall other :: other in h.tiles && other != t ==> t.End() <= other.addr || other.End() <= t.addr
  {
    TiledWithin(h.start, h.tiles, h.top, t);
    Multiples(t.addr - h.start, h.start, 4);
    Multiples(t.addr, OVERHEAD, 4);
    hide Inv, Live;
    forall other | other in h.tiles && other != t
      ensures t.End() <= other.addr || other.End() <= t.addr
    {
      LiveApart(h, t, other);
    }
  }

  // What a client gets: room for the request if the rounding of the size did not wrap, less than 20
  // bytes more than the rounded size, 4-byte aligned, inside the heap, and apart from every other live
  // block and every header.
  lemma ClientView(hs: seq<Heap>, calls: seq<Call>, at: seq<int>, k: nat)
    requires Run(hs, calls, at) && k < |calls| && calls[k].Malloc? && calls[k].size != 0
    ensures var t, need := Given(hs[k], at[k], Rounded(calls[k].size)), Rounded(calls[k].size);
            && t in Live(hs[k + 1].tiles) && t !in Live(hs[k].tiles)
            && (calls[k].size <= 0xFFFF_FFF0 ==> calls[k].size <= t.size)
            && need <= t.size < need + 20
            && (!Fits(hs[k], need) ==> t == Tile(hs[k].top, need, false) && hs[k + 1].top == t.End())
            && (Fits(hs[k], need) ==> hs[k + 1].top == hs[k].top)
            && (t.addr + OVERHEAD) % 4 == 0
            && hs[0].start + OVERHEAD <= t.addr + OVERHEAD && t.End() <= hs[k + 1].top
            && forall other :: other in hs[k + 1].tiles && other != t ==>
                 t.End() <= other.addr || other.End() <= t.addr
  {
    hide Inv, Live, Rounded, Given, Fits, Step;
    RunKeepsInv(hs, calls, at, k);
    RunKeepsInv(hs, calls, at, k + 1);
    StepLive(hs[k], calls[k], at[k], hs[k + 1]);
    RoundedHolds(calls[k].size);
    GivenExact(hs[k], calls[k], at[k], hs[k + 1]);
    LiveInside(hs[k + 1], Given(hs[k], at[k], Rounded(calls[k].size)));
  }

  // Once every block has been given back, in whatever order, one free block spans the heap.
  lemma EverythingReturned(hs: seq<Heap>, calls: seq<Call>, at: seq<int>, k: nat)
    requires Run(hs, calls, at) && k < |hs| && Live(hs[k].tiles) == {}
    ensures hs[k].top == hs[k].start ||
            (hs[k].tiles == [Tile(hs[k].start, hs[k].top - hs[k].start - OVERHEAD, true)] &&
                hs[k].frees == [hs[k].start])
  {
    RunKeepsInv(hs, calls, at, k);
    TiledBytes(hs[k].start, hs[k].tiles, hs[k].top);
    AllReturned(hs[k]);
  }

  // ---- runs of the allocator --------------------------------------------------------------

  // A caller frees what is live, and asks for what fits or what the heap can grow by.
  ghost predicate Callable(h: Heap, call: Call, vmEnd: int) {
    match call
    case Malloc(size) =>
      size != 0 && !Fits(h, Rounded(size)) ==>
        Rounded(size) + OVERHEAD < 0x8000_0000 && h.top + OVERHEAD + Rounded(size) <= vmEnd
    case Free(ptr) => exists i :: 0 <= i < |h.tiles| && !h.tiles[i].free && ptr == h.tiles[i].addr + OVERHEAD
  }

  // A list of calls that can be made whichever of several best-fitting blocks malloc picks.
  ghost predicate Legal(calls: seq<Call>, start: int, vmEnd: int) {
    forall k, hs: seq<Heap>, at: seq<int> | 0 <= k < |calls| && Run(hs, calls[..k], at) && hs[0].start == start ::
      Callable(hs[k], calls[k], vmEnd)
  }

  lemma RunGrows(hs: seq<Heap>, calls: seq<Call>, at: seq<int>, n: nat, i: int, h: Heap)
    requires n < |calls| && Run(hs, calls[..n], at) && Step(hs[n], calls[n], i, h)
    ensures Run(hs + [h], calls[..n + 1], at + [i])
  {
    hide Step;
    var hs', at', cs := hs + [h], at + [i], calls[..n + 1];
    forall k | 0 <= k < n + 1
      ensures Step(hs'[k], cs[k], at'[k], hs'[k + 1])
    {
      if k < n {
        assert calls[..n][k] == cs[k] && Step(hs[k], calls[..n][k], at[k], hs[k + 1]);
      }
    }
  }

  // One call; the block that it works on is the one that the step names.
  method Make(a: Allocator, call: Call) returns (ptr: int, ghost i: int)
    requires a.Valid() && Callable(a.heap, call, a.vmEnd)
    modifies a
    ensures a.Valid() && Step(old(a.heap), call, i, a.heap)
    ensures call.Malloc? ==>
              ptr == if call.size == 0 then 0 else Given(old(a.heap), i, Rounded(call.size)).addr + OVERHEAD
  {
    hide Inv, Rounded, Carve, Grow, Release;
    match call
    case Malloc(size) => ptr, i := a.Malloc(size);
    case Free(p) =>
      ptr := 0;
      i :| 0 <= i < |a.heap.tiles| && !a.heap.tiles[i].free && p == a.heap.tiles[i].addr + OVERHEAD;
      a.Free(p, i);
  }

  // Any list of malloc and free calls on a fresh heap is a run, and returns the blocks of that run.
  method Session(heapStart: int, heapEnd: int, calls: seq<Call>)
    returns (a: Allocator, ptrs: seq<int>, ghost hs: seq<Heap>, ghost at: seq<int>)
    requires 0 <= heapStart && heapStart % 4 == 0 && heapStart + 12 <= heapEnd < WORD
    requires Legal(calls, heapStart + 12, heapEnd)
    ensures a.Valid() && Run(hs, calls, at) && hs[0].start == heapStart + 12 && a.heap == hs[|calls|]
    ensures |ptrs| == |calls|
    ensures forall k :: 0 <= k < |calls| && calls[k].Malloc? ==>
              ptrs[k] == if calls[k].size == 0 then 0 else Given(hs[k], at[k], Rounded(calls[k].size)).addr + OVERHEAD
  {
    hide Inv, Step, Callable, Given, Rounded;
    a := new Allocator(heapStart, heapEnd);
    ptrs, hs, at := [], [a.heap], [];
    for n := 0 to |calls|
      invariant fresh(a) && a.Valid() && a.vmEnd == heapEnd
      invariant Run(hs, calls[..n], at) && hs[0].start == heapStart + 12 && a.heap == hs[n] && |ptrs| == n
      invariant forall k :: 0 <= k < n && calls[k].Malloc? ==>
                  ptrs[k] == if calls[k].size == 0 then 0
                  else Given(hs[k], at[k], Rounded(calls[k].size)).addr + OVERHEAD
    {
      ghost var i;
      var ptr;
      ptr, i := Make(a, calls[n]);
      RunGrows(hs, calls, at, n, i, a.heap);
      ptrs, hs, at := ptrs + [ptr], hs + [a.heap], at + [i];
    }
    assert calls[..|calls|] == calls;
  }
}
