/** The physical memory manager: a bitmap changed in place and a next-fit hint
    (kernel/src/pmm.c). */
module Pmm {
  import opened Machine
  import opened FrameBits
  import opened FramePool
  import LibcString

  /** Bytes `lo` to `hi - 1` of the bitmap are full. */
  ghost predicate FullBytes(bits: seq<bv8>, lo: nat, hi: nat) {
    forall m :: lo <= m < hi && m < |bits| ==> bits[m] == 0xFF
  }

  /** Bit `j` is the lowest clear bit of `b`. */
  ghost predicate IsLowestClear(b: bv8, j: nat)
    requires j < 8
  {
    b & Mask(j) == 0 && forall k: nat :: k < j ==> b & Mask(k) != 0
  }

  /** `frame` is the address of the frame that bit `j` of byte `i` stands for. */
  predicate IsAddressOf(frame: uint32, i: nat, j: nat) {
    frame == 0x1000 * (8 * i + j) && i < 0x2_0000 && j < 8
  }

  /** A scan of bytes `lo` to `hi - 1` of `before` that returned `frame`, and the bitmap
      and hint it left: bit `j` of byte `i` is the first clear one, it alone is set, and
      the hint is that byte. */
  ghost predicate ScanFinds(before: seq<bv8>, lo: nat, hi: nat, frame: uint32, after: seq<bv8>, i: nat, j: nat)
    requires |before| == 0x2_0000
  {
    && IsAddressOf(frame, i, j) && lo <= i < hi
    && IsLowestClear(before[i], j) && FullBytes(before, lo, i)
    && after == before[i := before[i] | Mask(j)]
  }

  /** Cyclic next fit in bytes: as `ScanFinds`, in the order of bytes `h` to the last and
      then 0 to `h - 1`. */
  ghost predicate TakesNextFit(before: seq<bv8>, h: nat, frame: uint32, after: seq<bv8>, i: nat, j: nat)
    requires |before| == 0x2_0000
  {
    && IsAddressOf(frame, i, j)
    && IsLowestClear(before[i], j) && FullBytes(before, h, i)
    && (i < h ==> FullBytes(before, 0, i) && FullBytes(before, h, 0x2_0000))
    && after == before[i := before[i] | Mask(j)]
  }

  /** The inner loop of the scan: the lowest clear bit of a byte that has one. The
      loop tests bits 0 to 6 only; bit 7 is what is left. */
  method LowestClearBit(b: bv8) returns (j: nat)
    requires b != 0xFF
    ensures j < 8 && IsLowestClear(b, j)
  {
    j := 0;
    while j < 7 && b & Mask(j) != 0
      invariant j <= 7
      invariant forall k: nat :: k < j ==> b & Mask(k) != 0
    {
      j := j + 1;
    }
    assert forall k: nat :: k < j ==> Bit(b, k);
    FullByte(b);
  }

  /** Stepping `start` by a page below the last page does not wrap and moves on by one frame. */
  lemma NextPage(lo: nat, start: uint32)
    requires IsPageAligned(start) && start < 0xFFFF_F000 && lo <= FrameOf(start)
    ensures Wrap32(start + PAGE_SIZE) == start + PAGE_SIZE
    ensures IsPageAligned(start + PAGE_SIZE) && FrameOf(start + PAGE_SIZE) == FrameOf(start) + 1
    ensures FrameRange(lo, FrameOf(start) + 1) == FrameRange(lo, FrameOf(start)) + {FrameOf(start)}
  {
  }

  /** A scan from the hint to the end and, if that finds nothing, one from the start to
      the hint make a cyclic search. */
  lemma ScansMakeSearch(bits: seq<bv8>, h: nat, frame: uint32, after: seq<bv8>, i: nat, j: nat)
    requires |bits| == 0x2_0000
    requires ScanFinds(bits, h, 0x2_0000, frame, after, i, j)
          || (FullBytes(bits, h, 0x2_0000) && ScanFinds(bits, 0, h, frame, after, i, j))
    ensures TakesNextFit(bits, h, frame, after, i, j)
  {
  }

  /** Byte and bit number of an address, in 32-bit arithmetic of their own. */
  lemma AddressParts(frame: uint32)
    ensures frame / 0x8000 == FrameNdx(frame) == FrameOf(frame) / 8 < 0x2_0000
    ensures frame / 0x1000 % 8 == FrameOf(frame) % 8 && FrameMask(frame) == Mask(frame / 0x1000 % 8)
  {
  }

  lemma NotFull(b: bv8, j: nat)
    requires j < 8 && b & Mask(j) == 0
    ensures b != 0xFF
  {
    assert !Bit(b, j);
    FullByte(b);
  }

  /** The event a call of `Alloc` that returned `frame` stands for. */
  function AllocEvent(frame: uint32): Event {
    if frame == NULL_FRAME then Exhausted else Got(FrameOf(frame))
  }

  /** A free frame is in the byte the search stops in, at or above the bit it takes, or
      in a byte the search has not passed. */
  lemma FreeFrameNotPassed(bits: seq<bv8>, h: nat, frame: uint32, after: seq<bv8>, i: nat, j: nat, g: nat)
    requires |bits| == 0x2_0000 && TakesNextFit(bits, h, frame, after, i, j)
    requires g < 8 * |bits| && !InUse(bits, g)
    ensures g / 8 == i ==> j <= g % 8
    ensures !(h <= g / 8 < i) && (i < h ==> i <= g / 8 < h)
  {
    NotFull(bits[g / 8], g % 8);
  }

  /** What the two partial scans of `Alloc` find is the next fit. */
  lemma ScansFindNextFit(bits: seq<bv8>, h: nat, frame: uint32, after: seq<bv8>, i: nat, j: nat)
    requires |bits| == 0x2_0000 && TakesNextFit(bits, h, frame, after, i, j)
    ensures IsNextFit(Pool(Frames(bits), h), FrameOf(frame))
  {
    var p, f := Pool(Frames(bits), h), FrameOf(frame);
    assert f == 8 * i + j;
    assert !InUse(bits, f);
    forall g: nat | IsFree(p, g) ensures CyclicDistance(Start(p), f) <= CyclicDistance(Start(p), g) {
      assert !InUse(bits, g);
      FreeFrameNotPassed(bits, h, frame, after, i, j, g);
    }
  }

  /** What a successful call of `Alloc` does is a step of the set machine. */
  lemma NextFitIsStep(bits: seq<bv8>, h: nat, frame: uint32, after: seq<bv8>, i: nat, j: nat)
    requires |bits| == 0x2_0000 && TakesNextFit(bits, h, frame, after, i, j)
    ensures frame != NULL_FRAME && bits[i] != 0xFF
    ensures Step(Pool(Frames(bits), h), AllocEvent(frame), Pool(Frames(after), i))
    ensures IsPageAligned(frame) && after == Marked(bits, FrameOf(frame))
  {
    assert FrameOf(frame) == 8 * i + j;
    ScansFindNextFit(bits, h, frame, after, i, j);
    FramesMarked(bits, FrameOf(frame));
    NotFull(bits[i], j);
  }

  lemma BothScansFail(bits: seq<bv8>, h: nat)
    requires |bits| == 0x2_0000
    requires FullBytes(bits, h, 0x2_0000) && FullBytes(bits, 0, h)
    ensures Frames(bits) == AllFrames()
    ensures forall i :: 0 <= i < |bits| ==> bits[i] == 0xFF
  {
    forall i | 0 <= i < |bits| ensures bits[i] == 0xFF {
      assert i < h || h <= i;
    }
    forall f: nat | f < NB_FRAMES ensures f in Frames(bits) {
      FullGroup(bits, f / 8);
      assert InUse(bits, f);
    }
  }

  /** A bitmap that stands for a range of frames from 0, bit by bit. */
  lemma BootedInBits(bits: seq<bv8>, last: nat)
    requires |bits| == 0x2_0000 && Frames(bits) == FramesUpTo(last)
    ensures forall i, j :: 0 <= i < 0x2_0000 && 0 <= j < 8 ==> (bits[i] & Mask(j) != 0 <==> 8 * i + j <= last)
  {
    forall i, j | 0 <= i < 0x2_0000 && 0 <= j < 8 ensures bits[i] & Mask(j) != 0 <==> 8 * i + j <= last {
      var f := 8 * i + j;
      assert f / 8 == i && f % 8 == j;
      assert f in Frames(bits) <==> f in FramesUpTo(last);
    }
  }

  /** What `Valid` asks of the bitmap and hint is `Safe` of the set and hint. */
  lemma ValidIsSafe(bits: seq<bv8>, hint: nat)
    requires |bits| == FRAME_BITMAP_SIZE
    ensures Safe(Pool(Frames(bits), hint))
       <==> hint < FRAME_BITMAP_SIZE || exists i :: 0 <= i < FRAME_BITMAP_SIZE && bits[i] != 0xFF
  {
    if i: nat :| i < FRAME_BITMAP_SIZE && bits[i] != 0xFF {
      FullGroup(bits, i);
      var f: nat :| 8 * i <= f < 8 * i + 8 && !InUse(bits, f);
      assert f in AllFrames() && f !in Frames(bits);
    } else {
      forall f: nat | f < NB_FRAMES ensures f in Frames(bits) {
        FullGroup(bits, f / 8);
      }
      assert Frames(bits) == AllFrames();
    }
  }

  /** End of the range `pmm_init` marks for a kernel that ends at `kernelEnd`. */
  function BootRangeEnd(kernelEnd: uint32): uint32 {
    Wrap32(kernelEnd - kernelEnd % PAGE_SIZE + PAGE_SIZE)
  }

  // When the marking loop ends

  /** The loop variable of `MarkRangeAsAllocated` after `n` turns. */
  function StartAfter(first: uint32, n: nat): uint32 {
    if n == 0 then first else Wrap32(StartAfter(first, n - 1) + PAGE_SIZE)
  }

  ghost predicate LoopEnds(first: uint32, end: uint32) {
    exists n: nat :: end < StartAfter(first, n)
  }

  lemma {:induction false} StartAfterClosed(first: uint32, n: nat)
    requires IsPageAligned(first)
    ensures IsPageAligned(StartAfter(first, n))
    ensures first + n * PAGE_SIZE <= 0xFFFF_F000 ==> StartAfter(first, n) == first + n * PAGE_SIZE
  {
    if 0 < n {
      StartAfterClosed(first, n - 1);
    }
  }

  /** The loop ends exactly when `end` is not the last page: at the last page the
      32-bit counter wraps to 0 and never exceeds it. */
  lemma MarkRangeEndsIff(first: uint32, end: uint32)
    requires IsPageAligned(first) && IsPageAligned(end)
    ensures LoopEnds(first, end) <==> end < 0xFFFF_F000
  {
    if end < 0xFFFF_F000 {
      if first <= end {
        var n := (end - first) / PAGE_SIZE + 1;
        StartAfterClosed(first, n);
        assert end < StartAfter(first, n);
      } else {
        assert end < StartAfter(first, 0);
      }
    } else {
      forall n: nat ensures StartAfter(first, n) <= end {
        StartAfterClosed(first, n);
      }
    }
  }

  /** `Init` ends exactly when KERNEL_END is not in the last page but one. */
  lemma InitEndsIff(kernelEnd: uint32)
    ensures LoopEnds(0, BootRangeEnd(kernelEnd)) <==> FrameOf(kernelEnd) != NB_FRAMES - 2
  {
    MarkRangeEndsIff(0, BootRangeEnd(kernelEnd));
  }

  /** When `Init` ends, every frame up to and including the one after KERNEL_END's
      is marked exactly when KERNEL_END is below the last page; in the last page the
      end of the range wraps and frame 0 alone is marked. */
  lemma InitMarksKernelIff(kernelEnd: uint32)
    requires FrameOf(kernelEnd) != NB_FRAMES - 2
    ensures Booted(FrameOf(BootRangeEnd(kernelEnd))).used == FramesUpTo(FrameOf(kernelEnd) + 1)
       <==> kernelEnd < 0xFFFF_F000
    ensures 0xFFFF_F000 <= kernelEnd ==> Booted(FrameOf(BootRangeEnd(kernelEnd))).used == {0}
  {
    var last := FrameOf(BootRangeEnd(kernelEnd));
    if kernelEnd < 0xFFFF_F000 {
      assert last == FrameOf(kernelEnd) + 1;
    } else {
      assert last == 0;
      assert 1 in FramesUpTo(FrameOf(kernelEnd) + 1) && 1 !in FramesUpTo(0);
      assert FramesUpTo(0) == {0};
    }
  }

  /** For a kernel linked at 1 MiB or above, allocations after `Init` hand out the
      frames from the second one after KERNEL_END's on, in address order, until none is left. */
  lemma AllocationsAfterInit(kernelEnd: uint32, states: seq<Pool>, events: seq<Event>, n: nat)
    requires 0x10_0000 <= kernelEnd < 0xFFFF_E000
    requires Run(states, events) && states[0] == Booted(FrameOf(BootRangeEnd(kernelEnd)))
    requires forall i :: 0 <= i < |events| ==> !events[i].Released?
    requires n < |events|
    ensures events[n] == if FrameOf(kernelEnd) + n + 2 < NB_FRAMES then Got(FrameOf(kernelEnd) + n + 2) else Exhausted
  {
    assert FrameOf(BootRangeEnd(kernelEnd)) == FrameOf(kernelEnd) + 1;
    DrainInOrder(FrameOf(kernelEnd) + 1, states, events, n);
  }

  /** An allocation followed by the release of its frame restores the bitmap byte for byte. */
  lemma AllocThenFreeRestoresBitmap(before: seq<bv8>, h0: nat, between: seq<bv8>, h1: nat,
                                    after: seq<bv8>, h2: nat, f: nat)
    requires |before| == |after|
    requires Step(Pool(Frames(before), h0), Got(f), Pool(Frames(between), h1))
    requires Step(Pool(Frames(between), h1), Released(f), Pool(Frames(after), h2))
    ensures after == before
  {
    AllocThenFree(Pool(Frames(before), h0), f, Pool(Frames(between), h1), Pool(Frames(after), h2));
    BitmapExtensional(after, before);
  }

  class PhysicalMemory {
    const bitmap: array<bv8>
    var nextFrame: uint32

    /** The bitmap has its length, and the hint is in range or some byte is not full. */
    ghost predicate Valid()
      reads this, bitmap
    {
      && bitmap.Length == FRAME_BITMAP_SIZE
      && (nextFrame < FRAME_BITMAP_SIZE || exists i :: 0 <= i < FRAME_BITMAP_SIZE && bitmap[i] != 0xFF)
    }

    ghost function Abstract(): Pool
      reads this, bitmap
    {
      Pool(Frames(bitmap[..]), nextFrame)
    }

    /** The static data before `Init`. */
    constructor ()
      ensures Valid() && fresh(bitmap)
      ensures Abstract() == Pool({}, 0)
    {
      bitmap := new bv8[FRAME_BITMAP_SIZE](_ => 0);
      nextFrame := 0;
    }

    method MarkAsAllocated(addr: uint32)
      requires IsPageAligned(addr) && bitmap.Length == FRAME_BITMAP_SIZE
      modifies bitmap
      ensures bitmap[..] == Marked(old(bitmap[..]), FrameOf(addr))
      ensures Frames(bitmap[..]) == Frames(old(bitmap[..])) + {FrameOf(addr)}
    {
      FramesMarked(bitmap[..], FrameOf(addr));
      bitmap[FrameNdx(addr)] := bitmap[FrameNdx(addr)] | FrameMask(addr);
    }

    method MarkRangeAsAllocated(first: uint32, end: uint32)
      requires IsPageAligned(first) && IsPageAligned(end)
      requires end < 0xFFFF_F000  // beyond this bound the loop does not end, see MarkRangeEndsIff
      requires bitmap.Length == FRAME_BITMAP_SIZE
      modifies bitmap, `nextFrame
      ensures nextFrame == end
      ensures Frames(bitmap[..]) == Frames(old(bitmap[..])) + FrameRange(FrameOf(first), FrameOf(end) + 1)
    {
      var start: uint32 := first;
      while start <= end
        invariant IsPageAligned(start)
        invariant start <= end + PAGE_SIZE || start == first
        invariant first <= start
        invariant Frames(bitmap[..]) == Frames(old(bitmap[..])) + FrameRange(FrameOf(first), FrameOf(start))
        decreases end + PAGE_SIZE - start
      {
        MarkAsAllocated(start);
        NextPage(FrameOf(first), start);
        start := Wrap32(start + PAGE_SIZE);
      }
      nextFrame := end;
    }

    /** `kernelEnd` is the address of the linker symbol KERNEL_END. */
    method Init(kernelEnd: uint32)
      requires bitmap.Length == FRAME_BITMAP_SIZE
      requires BootRangeEnd(kernelEnd) < 0xFFFF_F000  // see InitEndsIff
      modifies this, bitmap
      ensures Valid()
      ensures Abstract() == Booted(FrameOf(BootRangeEnd(kernelEnd)))
      ensures nextFrame == if kernelEnd < 0xFFFF_F000 then kernelEnd - kernelEnd % 0x1000 + 0x1000 else 0
      ensures forall i, j :: 0 <= i < 0x2_0000 && 0 <= j < 8 ==>
        (bitmap[i] & Mask(j) != 0 <==> 8 * i + j <= nextFrame / 0x1000)
    {
      nextFrame := 0;
      LibcString.Memset(bitmap, 0, bitmap.Length);
      assert Frames(bitmap[..]) == {};
      var end := BootRangeEnd(kernelEnd);
      MarkRangeAsAllocated(0, end);
      assert NB_FRAMES - 1 !in Frames(bitmap[..]);
      FullGroup(bitmap[..], FRAME_BITMAP_SIZE - 1);
      BootedInBits(bitmap[..], FrameOf(end));
    }

    /** `bit` is the number of the bit that is set, of no meaning when there is none. */
    method AllocFrame(first: nat, final: nat) returns (frame: uint32, ghost bit: nat)
      requires bitmap.Length == FRAME_BITMAP_SIZE
      requires final <= FRAME_BITMAP_SIZE || exists k :: first <= k < FRAME_BITMAP_SIZE && bitmap[k] != 0xFF
      modifies bitmap, `nextFrame
      ensures frame == NULL_FRAME ==>
                FullBytes(old(bitmap[..]), first, final) && bitmap[..] == old(bitmap[..]) && nextFrame == old(nextFrame)
      ensures frame != NULL_FRAME ==>
                ScanFinds(old(bitmap[..]), first, final, frame, bitmap[..], nextFrame, bit)
    {
      ghost var bits := bitmap[..];
      bit := 0;
      var i: nat := first;
      while i < final
        invariant first <= i && (i <= final || i == first)
        invariant FullBytes(bits, first, i)
        invariant final <= FRAME_BITMAP_SIZE || exists k :: i <= k < FRAME_BITMAP_SIZE && bitmap[k] != 0xFF
        invariant bitmap[..] == bits && nextFrame == old(nextFrame)
      {
        if bitmap[i] != 0xFF {
          var j := LowestClearBit(bitmap[i]);
          bit := j;
          bitmap[i] := bitmap[i] | Mask(j);
          assert bitmap[..] == bits[i := bits[i] | Mask(j)];
          nextFrame := i;
          frame := Wrap32(PAGE_SIZE * (i * 8 + j));
          return;
        }
        i := i + 1;
      }
      frame := NULL_FRAME;
    }

    method Alloc() returns (frame: uint32)
      requires Valid()
      modifies this, bitmap
      ensures Valid()
      ensures Step(old(Abstract()), AllocEvent(frame), Abstract())
      ensures frame == NULL_FRAME || IsPageAligned(frame)
      ensures bitmap[..]
           == if frame == NULL_FRAME then old(bitmap[..]) else Marked(old(bitmap[..]), FrameOf(frame))
      ensures frame == 0xFFFF_FFFF <==> forall i :: 0 <= i < 0x2_0000 ==> old(bitmap[..])[i] == 0xFF
      ensures frame == 0xFFFF_FFFF ==> nextFrame == old(nextFrame)
      ensures frame != 0xFFFF_FFFF ==>
                exists j: nat :: TakesNextFit(old(bitmap[..]), old(nextFrame), frame, bitmap[..], nextFrame, j)
    {
      ghost var bits := bitmap[..];
      ghost var bit;
      frame, bit := AllocFrame(nextFrame, FRAME_BITMAP_SIZE);
      if frame == NULL_FRAME {
        frame, bit := AllocFrame(0, nextFrame);
      }
      if frame == NULL_FRAME {
        BothScansFail(bits, nextFrame);
      } else {
        ScansMakeSearch(bits, old(nextFrame), frame, bitmap[..], nextFrame, bit);
        NextFitIsStep(bits, old(nextFrame), frame, bitmap[..], nextFrame, bit);
      }
    }

    method Free(frame: uint32)
      requires Valid()
      requires IsPageAligned(frame) && FrameOf(frame) in Abstract().used
      modifies this, bitmap
      ensures Valid()
      ensures Step(old(Abstract()), Released(FrameOf(frame)), Abstract())
      ensures bitmap[..] == Cleared(old(bitmap[..]), FrameOf(frame))
      ensures var before, i, j := old(bitmap[..]), frame / 0x8000, frame / 0x1000 % 8;
              bitmap[..] == before[i := before[i] & !Mask(j)] && nextFrame == i
    {
      AddressParts(frame);
      FramesCleared(bitmap[..], FrameOf(frame));
      bitmap[FrameNdx(frame)] := bitmap[FrameNdx(frame)] & !FrameMask(frame);
      nextFrame := FrameNdx(frame);
    }

    method IsFrameAllocated(frame: uint32) returns (marked: bool)
      requires bitmap.Length == FRAME_BITMAP_SIZE && IsPageAligned(frame)
      ensures marked <==> FrameOf(frame) in Abstract().used
      ensures marked <==> bitmap[frame / 0x8000] & Mask(frame / 0x1000 % 8) != 0
    {
      marked := bitmap[FrameNdx(frame)] & FrameMask(frame) != 0;
    }
  }
}
