/**
 The physical frame allocator: a bitmap of 32-bit words, one bit a frame, set when the frame is
 in use.  A word is modelled as its 32 bits, least significant first.
*/
module FrameBitmap {
  import opened Arith

  // `n` consecutive free frames from `s` on, below `max`.
  ghost predicate FreeRun(used: seq<bool>, s: int, n: int, max: int) {
    0 <= s && s + n <= max <= |used| && forall f :: s <= f < s + n ==> !used[f]
  }

  // A used frame rules out every run that would cover it.
  lemma UsedBlocks(used: seq<bool>, u: nat, n: int, max: int)
    requires u < |used| && used[u]
    ensures forall s :: s <= u < s + n ==> !FreeRun(used, s, n, max)
  {
    forall s | s <= u < s + n
      ensures !FreeRun(used, s, n, max)
    {
      assert used[u];
    }
  }

  // The next frame starts a word or is in the same one.
  lemma NextInWord(i: nat)
    ensures (i + 1) % 32 == 0 || (i + 1) / 32 == i / 32
  {
  }

  lemma IsRun(used: seq<bool>, s: nat, n: nat, max: nat)
    requires s + n <= max <= |used| && forall f :: s <= f < s + n ==> !used[f]
    ensures FreeRun(used, s, n, max)
  {
  }

  // A run does not start below 0 or too close to the end.
  lemma NoRoom(used: seq<bool>, start: nat, n: nat, max: nat)
    requires start + n > max
    ensures forall s :: s < 0 || start <= s ==> !FreeRun(used, s, n, max)
  {
  }

  // The number of set bits.
  function Count(used: seq<bool>): nat {
    if used == [] then 0 else (if used[0] then 1 else 0) + Count(used[1..])
  }

  lemma {:induction false} CountUpdate(used: seq<bool>, f: nat, b: bool)
    requires f < |used|
    ensures Count(used[f := b]) == Count(used) - (if used[f] then 1 else 0) + (if b then 1 else 0)
  {
    var tail := used[1..];
    if f == 0 {
      assert used[0 := b][1..] == tail;
    } else {
      assert used[f := b][1..] == tail[f - 1 := b];
      CountUpdate(tail, f - 1, b);
    }
  }

  lemma {:induction false} CountAppend(a: seq<bool>, b: bool)
    ensures Count(a + [b]) == Count(a) + (if b then 1 else 0)
  {
    if a == [] {
      assert a + [b] == [b] && [b][1..] == [];
    } else {
      assert (a + [b])[1..] == a[1..] + [b];
      CountAppend(a[1..], b);
    }
  }

  // The word and the bit of a frame.
  lemma Locate(f: nat)
    ensures f == 32 * (f / 32) + f % 32 && 0 <= f % 32 < 32
  {
  }

  // When the single-frame search comes back empty-handed, there really is no free frame exactly
  // when the frames behind the last whole word are all in use.
  lemma LastWordMissed(used: seq<bool>, max: nat)
    requires max <= |used| && forall f :: 0 <= f < 32 * (max / 32) ==> used[f]
    ensures (forall s :: !FreeRun(used, s, 1, max)) <==> forall f :: 32 * (max / 32) <= f < max ==> used[f]
  {
    forall f | 0 <= f < max
      ensures FreeRun(used, f, 1, max) <==> !used[f]
    {
      if used[f] {
        UsedBlocks(used, f, 1, max);
      }
    }
    if forall s :: !FreeRun(used, s, 1, max) {
      forall f | 32 * (max / 32) <= f < max
        ensures used[f]
      {
        assert !FreeRun(used, f, 1, max);
      }
    }
  }

  // With 33 frames the last one is alone in its word: it is free, and not found.
  lemma LastWordMissedExample(used: seq<bool>)
    requires |used| == 64 && (forall f :: 0 <= f < 32 ==> used[f]) && !used[32]
    ensures FreeRun(used, 32, 1, 33) && forall f :: 0 <= f < 32 * (33 / 32) ==> used[f]
  {
  }

  // The bitmap after frames s .. s+n-1 were set.
  ghost predicate Marked(used: seq<bool>, used': seq<bool>, s: int, n: int) {
    |used'| == |used| && forall f :: 0 <= f < |used| ==> used'[f] == (s <= f < s + n || used[f])
  }

  // ---- runs -------------------------------------------------------------------------------

  datatype Call = Get | GetRun(n: nat) | Give(frameAddr: nat)

  ghost function Span(r: nat, n: nat): (s: set<nat>)
    ensures forall f :: f in s <==> r <= f < r + n
  {
    if n == 0 then {} else Span(r, n - 1) + {r + n - 1}
  }

  // The frames that a call hands out when it returns `r`.
  ghost function Handed(call: Call, r: nat): set<nat> {
    match call
    case Get => if r == 0 then {} else {r}
    case GetRun(n) => if r == 0 then {} else Span(r, n)
    case Give(_) => {}
  }

  ghost function Returned(call: Call): set<nat> {
    if call.Give? then {call.frameAddr / 4096} else {}
  }

  // The frames that are out after a list of calls that returned `rs`.
  ghost function Holding(out: set<nat>, calls: seq<Call>, rs: seq<nat>): set<nat>
    requires |calls| == |rs|
  {
    if calls == [] then out
    else
      var m := |calls| - 1;
      Holding(out, calls[..m], rs[..m]) + Handed(calls[m], rs[m]) - Returned(calls[m])
  }

  lemma HoldingNothing(out: set<nat>)
    ensures Holding(out, [], []) == out
  {
  }

  lemma HoldingMore(out: set<nat>, calls: seq<Call>, n: nat, rs: seq<nat>, r: nat)
    requires n < |calls| && |rs| == n
    ensures Holding(out, calls[..n + 1], rs + [r])
              == Holding(out, calls[..n], rs) + Handed(calls[n], r) - Returned(calls[n])
  {
    assert calls[..n + 1][..n] == calls[..n] && (rs + [r])[..n] == rs;
  }

  // Call k hands out frames that nobody holds.
  ghost predicate Clean(out: set<nat>, calls: seq<Call>, rs: seq<nat>, k: nat)
    requires k < |calls| == |rs|
  {
    Handed(calls[k], rs[k]) !! Holding(out, calls[..k], rs[..k])
  }

  // Call k takes back only what somebody holds.
  ghost predicate Owned(out: set<nat>, calls: seq<Call>, rs: seq<nat>, k: nat)
    requires k < |calls| == |rs|
  {
    Returned(calls[k]) <= Holding(out, calls[..k], rs[..k])
  }

  class Frames {
    const bitmap: array<seq<bool>>
    const maxFrames: nat
    var usedFrames: int
    var lowestAvailable: nat
    ghost var used: seq<bool>
    ghost var out: set<nat>  // the frames handed out and not given back

    // The words hold the bits of `used`; frame 0 is never free, and no frame below
    // `lowestAvailable` is.
    ghost predicate Sound()
      reads this, bitmap
    {
      && 1 <= maxFrames && bitmap.Length == (maxFrames - 1) / 32 + 1 && |used| == 32 * bitmap.Length
      && (forall w :: 0 <= w < bitmap.Length ==> |bitmap[w]| == 32)
      && (forall w, b :: 0 <= w < bitmap.Length && 0 <= b < 32 ==> bitmap[w][b] == used[32 * w + b])
      && used[0]
      && (forall f :: f in out ==> 0 < f < |used| && used[f])
      && lowestAvailable <= |used| && forall f :: 0 <= f < lowestAvailable ==> used[f]
    }

    // No frame is left that the single-frame search could find.
    ghost predicate Exhausted()
      reads this
    {
      maxFrames <= usedFrames || forall f :: 0 <= f < 32 * (maxFrames / 32) && f < |used| ==> used[f]
    }

    // The state that pmm_init reaches once it has counted the frames of the memory map.
    constructor (max: nat, map': seq<bool>)
      requires 1 <= max && |map'| == 32 * ((max - 1) / 32 + 1) && map'[0]
      ensures Sound() && fresh(bitmap) && maxFrames == max && used == map' && out == {}
      ensures usedFrames == Count(map'[..32 * (max / 32)])
    {
      maxFrames := max;
      var words := (max - 1) / 32 + 1;
      bitmap := new seq<bool>[words](w requires 0 <= w < words => seq(32, b requires 0 <= b < 32 => map'[32 * w + b]));
      lowestAvailable := 0;
      used, out := map', {};
      new;
      CountUsed();
    }

    // The counting loop of pmm_init: it visits whole words only.
    method CountUsed()
      requires Sound()
      modifies this`usedFrames
      ensures Sound()
      ensures usedFrames == Count(used[..32 * (maxFrames / 32)])
    {
      usedFrames := 0;
      assert used[..0] == [];
      for i := 0 to maxFrames / 32
        invariant Sound() && usedFrames == Count(used[..32 * i])
      {
        for j := 0 to 32
          invariant Sound() && usedFrames == Count(used[..32 * i + j])
        {
          if bitmap[i][j] {
            usedFrames := usedFrames + 1;
          }
          CountAppend(used[..32 * i + j], used[32 * i + j]);
          assert used[..32 * i + j + 1] == used[..32 * i + j] + [used[32 * i + j]];
        }
      }
    }

    method FrameSet(frame: nat)
      requires Sound() && frame < |used|
      modifies this`used, bitmap
      ensures Sound() && used == old(used)[frame := true]
    {
      var index, offset := frame / 32, frame % 32;
      bitmap[index] := bitmap[index][offset := true];
      used := used[frame := true];
      Locate(frame);
    }

    method FrameUnset(frame: nat)
      requires Sound() && 0 < frame < |used|
      modifies this`used, this`lowestAvailable, this`out, bitmap
      ensures Sound() && used == old(used)[frame := false] && out == old(out) - {frame}
    {
      var index, offset := frame / 32, frame % 32;
      bitmap[index] := bitmap[index][offset := false];
      if frame < lowestAvailable {
        lowestAvailable := frame;
      }
      used := used[frame := false];
      out := out - {frame};
      Locate(frame);
    }

    method FrameTest(frame: nat) returns (r: bool)
      requires Sound() && frame < |used|
      ensures r == used[frame]
    {
      Locate(frame);
      r := bitmap[frame / 32][frame % 32];
    }

    // pmm_first_free_frame: the least free frame of the whole words, 0 if there is none.
    method FirstFreeFrame() returns (r: nat)
      requires Sound()
      ensures r == 0 ==> forall f :: 0 <= f < 32 * (maxFrames / 32) ==> used[f]
      ensures r != 0 ==> r < 32 * (maxFrames / 32) && !used[r] && forall f :: 0 <= f < r ==> used[f]
    {
      var i := lowestAvailable / 32;
      while i < maxFrames / 32
        invariant 0 <= i && 32 * i <= |used|
        invariant forall f :: 0 <= f < 32 * i ==> used[f]
      {
        if bitmap[i] != seq(32, _ => true) {
          for j := 0 to 32
            invariant forall f :: 0 <= f < 32 * i + j ==> used[f]
          {
            if !bitmap[i][j] {
              return 32 * i + j;
            }
          }
        } else {
          FullWord(i);
        }
        i := i + 1;
      }
      return 0;
    }

    lemma FullWord(w: nat)
      requires Sound() && w < bitmap.Length && bitmap[w] == seq(32, _ => true)
      ensures forall f :: 32 * w <= f < 32 * w + 32 ==> used[f]
    {
      forall f | 32 * w <= f < 32 * w + 32
        ensures used[f]
      {
        assert bitmap[w][f - 32 * w] == used[32 * w + (f - 32 * w)];
      }
    }

    // pmm_first_nfree_frames: the least start of n consecutive free frames, 0 if there is none.
    method FirstNFreeFrames(n: nat) returns (r: nat)
      requires Sound()
      ensures n == 0 ==> r == 0
      ensures n == 1 && r == 0 ==> forall f :: 0 <= f < 32 * (maxFrames / 32) ==> used[f]
      ensures n == 1 && r != 0 ==> r < 32 * (maxFrames / 32)
      ensures n >= 1 && r != 0 ==>
                FreeRun(used, r, n, maxFrames) && forall s :: 0 <= s < r ==> !FreeRun(used, s, n, maxFrames)
      ensures n >= 2 && r == 0 ==> forall s :: !FreeRun(used, s, n, maxFrames)
    {
      if n == 0 {
        return 0;
      }
      if n == 1 {
        r := FirstFreeFrame();
        forall s | 0 <= s < r
          ensures !FreeRun(used, s, 1, maxFrames)
        {
          UsedBlocks(used, s, 1, maxFrames);
        }
        return;
      }
      r := ScanRuns(n);
    }

    // A full word rules out every run that starts in it or reaches its first frame.
    lemma SkippedWord(i: nat, n: nat)
      requires Sound() && n >= 2 && i % 32 == 0 && i / 32 < bitmap.Length && bitmap[i / 32] == seq(32, _ => true)
      ensures i + 32 <= |used| && used[i + 31]
      ensures forall s :: i - n < s < i + 32 ==> !FreeRun(used, s, n, maxFrames)
    {
      FullWord(i / 32);
      UsedBlocks(used, i, n, maxFrames);
      forall s | i < s < i + 32
        ensures !FreeRun(used, s, n, maxFrames)
      {
        UsedBlocks(used, s, n, maxFrames);
      }
    }

    // The scan is at frame i, behind `avail` free ones, and no run starts before those.
    ghost predicate ScannedTo(i: int, avail: int, n: nat)
      reads this, bitmap
    {
      && 0 <= avail < n && avail <= i <= |used| && (avail > 0 ==> i <= maxFrames)
      && (forall f :: i - avail <= f < i ==> !used[f])
      && (i % 32 == 0 || (i / 32 < bitmap.Length && bitmap[i / 32] != seq(32, _ => true)))
      && forall s :: 0 <= s < i - avail ==> !FreeRun(used, s, n, maxFrames)
    }

    // One frame, or one full word.
    method ScanStep(i: nat, avail: nat, n: nat) returns (i': nat, avail': nat)
      requires Sound() && n >= 2 && ScannedTo(i, avail, n) && i < maxFrames
      ensures i' > i && avail' <= n && (avail' < n ==> ScannedTo(i', avail', n))
      ensures avail' == n ==> n <= i' && FreeRun(used, i' - n, n, maxFrames)
      ensures avail' == n ==> forall s :: 0 <= s < i' - n ==> !FreeRun(used, s, n, maxFrames)
    {
      hide FreeRun;
      if bitmap[i / 32] != seq(32, _ => true) {
        var taken := FrameTest(i);
        i' := i + 1;
        NextInWord(i);
        if taken {
          UsedBlocks(used, i, n, maxFrames);
          return i', 0;
        }
        avail' := avail + 1;
        if avail' == n {
          IsRun(used, i' - n, n, maxFrames);
        }
      } else {
        SkippedWord(i, n);
        return i + 32, 0;
      }
    }

    // The scan for two and more frames.
    method ScanRuns(n: nat) returns (r: nat)
      requires Sound() && n >= 2
      ensures r != 0 ==> FreeRun(used, r, n, maxFrames) && forall s :: 0 <= s < r ==> !FreeRun(used, s, n, maxFrames)
      ensures r == 0 ==> forall s :: !FreeRun(used, s, n, maxFrames)
    {
      hide FreeRun;
      var i, avail := 0, 0;
      while i < maxFrames
        invariant ScannedTo(i, avail, n)
        decreases maxFrames - i
      {
        i, avail := ScanStep(i, avail, n);
        if avail == n {
          FrameZero(i - n, n);
          return i - n;
        }
      }
      NoRoom(used, i - avail, n, maxFrames);
      return 0;
    }

    // Frame 0 is in use, so no run starts there.
    lemma FrameZero(start: nat, n: nat)
      requires Sound() && n >= 1 && FreeRun(used, start, n, maxFrames)
      ensures start != 0
    {
    }

    // pmm_mark_frame_used
    method MarkFrameUsed(frame: nat)
      requires Sound() && 0 < frame < |used| && !used[frame]
      modifies this, bitmap
      ensures Sound() && used == old(used)[frame := true] && out == old(out) + {frame}
      ensures usedFrames == old(usedFrames) + 1
      ensures usedFrames - Count(used) == old(usedFrames) - Count(old(used))
    {
      CountUpdate(used, frame, true);
      FrameSet(frame);
      usedFrames := usedFrames + 1;
      out := out + {frame};
    }

    // pmm_allocate_frame.  The machine halts where 0 would be returned.
    method AllocateFrame() returns (frame: nat)
      requires Sound()
      modifies this, bitmap
      ensures Sound()
      ensures usedFrames - Count(used) == old(usedFrames) - Count(old(used))
      ensures frame == 0 <==>
                maxFrames <= old(usedFrames) || forall f :: 0 <= f < 32 * (maxFrames / 32) ==> old(used)[f]
      ensures frame == 0 ==> used == old(used) && out == old(out) && Exhausted()
      ensures frame != 0 ==>
                && frame < maxFrames && frame < |old(used)| && !old(used)[frame] && frame !in old(out)
                && (forall f :: 0 <= f < frame ==> old(used)[f]) && usedFrames == old(usedFrames) + 1
                && used == old(used)[frame := true] && out == old(out) + {frame}
    {
      if maxFrames <= usedFrames {
        return 0;
      }
      frame := FirstFreeFrame();
      if frame == 0 {
        return;
      }
      MarkFrameUsed(frame);
    }

    // pmm_allocate_frames.
    method AllocateFrames(n: nat) returns (start: nat)
      requires Sound()
      modifies this, bitmap
      ensures Sound()
      ensures usedFrames - Count(used) == old(usedFrames) - Count(old(used))
      ensures start == 0 ==> used == old(used) && out == old(out)
      ensures start == 0 && n >= 2 ==> maxFrames <= old(usedFrames) || forall s :: !FreeRun(old(used), s, n, maxFrames)
      ensures start == 0 && n == 1 ==>
                maxFrames <= old(usedFrames) || forall f :: 0 <= f < 32 * (maxFrames / 32) ==> old(used)[f]
      ensures start != 0 ==>
                && n >= 1 && FreeRun(old(used), start, n, maxFrames)
                && (forall s :: 0 <= s < start ==> !FreeRun(old(used), s, n, maxFrames))
                && Marked(old(used), used, start, n)
                && (forall f :: f in out <==> f in old(out) || start <= f < start + n)
                && forall f :: f in old(out) ==> !(start <= f < start + n)
    {
      if n == 0 || maxFrames <= usedFrames {
        return 0;
      }
      start := FirstNFreeFrames(n);
      if start == 0 {
        return;
      }
      for i := 0 to n
        invariant Sound() && Marked(old(used), used, start, i)
        invariant usedFrames - Count(used) == old(usedFrames) - Count(old(used))
        invariant forall f :: f in out <==> f in old(out) || start <= f < start + i
      {
        MarkFrameUsed(start + i);
      }
    }

    // pmm_free_frame.  The counter stays in step with the bitmap exactly when the frame was in use.
    method FreeFrame(frameAddr: nat)
      requires Sound() && 0 < frameAddr / 4096 < |used|
      modifies this, bitmap
      ensures Sound()
      ensures used == old(used)[frameAddr / 4096 := false] && out == old(out) - {frameAddr / 4096}
      ensures usedFrames - Count(used) == old(usedFrames) - Count(old(used)) <==> old(used)[frameAddr / 4096]
      ensures usedFrames == old(usedFrames) - 1
    {
      CountUpdate(used, frameAddr / 4096, false);
      usedFrames := usedFrames - 1;
      FrameUnset(frameAddr / 4096);
    }

    method Make(call: Call) returns (r: nat)
      requires Sound() && (call.Give? ==> 0 < call.frameAddr / 4096 < |used|)
      modifies this, bitmap
      ensures Sound() && |used| == |old(used)|
      ensures out == old(out) + Handed(call, r) - Returned(call)
      ensures Handed(call, r) !! old(out) && forall f :: f in Handed(call, r) ==> 0 < f < maxFrames
      ensures Returned(call) <= old(out) ==> usedFrames - Count(used) == old(usedFrames) - Count(old(used))
    {
      hide Count;
      r := 0;
      match call
      case Get => r := AllocateFrame();
      case GetRun(n) => r := AllocateFrames(n);
      case Give(frameAddr) => FreeFrame(frameAddr);
    }

    // Any list of allocations and releases.  What is out is what was handed out and not given back,
    // no frame is handed out twice, and the counter keeps its distance to the set bits as long as
    // callers give back what they hold.
    method Session(calls: seq<Call>) returns (rs: seq<nat>)
      requires Sound() && forall k :: 0 <= k < |calls| && calls[k].Give? ==> 0 < calls[k].frameAddr / 4096 < |used|
      modifies this, bitmap
      ensures Sound() && |rs| == |calls| && out == Holding(old(out), calls, rs)
      ensures forall k :: 0 <= k < |calls| ==> Clean(old(out), calls, rs, k)
      ensures forall k, f :: 0 <= k < |calls| && f in Handed(calls[k], rs[k]) ==> 0 < f < maxFrames
      ensures (forall k :: 0 <= k < |calls| ==> Owned(old(out), calls, rs, k)) ==>
                usedFrames - Count(used) == old(usedFrames) - Count(old(used))
    {
      hide Sound, Count, Handed, Returned, Holding;
      rs := [];
      ghost var start := out;
      ghost var tidy := true;
      ghost var held: seq<set<nat>> := [];
      HoldingNothing(start);
      assert calls[..0] == [];
      for n := 0 to |calls|
        invariant Sound() && |used| == |old(used)| && |rs| == |held| == n && out == Holding(start, calls[..n], rs)
        invariant forall k :: 0 <= k < n ==> held[k] == Holding(start, calls[..k], rs[..k])
        invariant forall k :: 0 <= k < n ==> Handed(calls[k], rs[k]) !! held[k]
        invariant forall k, f :: 0 <= k < n && f in Handed(calls[k], rs[k]) ==> 0 < f < maxFrames
        invariant tidy <==> forall k :: 0 <= k < n ==> Returned(calls[k]) <= held[k]
        invariant tidy ==> usedFrames - Count(used) == old(usedFrames) - Count(old(used))
      {
        ghost var before := out;
        var r := Make(calls[n]);
        HoldingMore(start, calls, n, rs, r);
        tidy := tidy && Returned(calls[n]) <= before;
        assert forall k :: 0 <= k <= n ==> (rs + [r])[..k] == rs[..k];
        assert rs[..n] == rs;
        held := held + [before];
        rs := rs + [r];
      }
      assert calls[..|calls|] == calls;
      forall k | 0 <= k < |calls|
        ensures Clean(start, calls, rs, k)
        ensures Owned(start, calls, rs, k) <==> Returned(calls[k]) <= held[k]
      {
      }
    }
  }
}
