/** Physical addresses, 4 KiB frames, and the bitmap that holds one bit per
    frame (kernel/src/pmm.c, kernel/include/kernel/pmm.h). */
module FrameBits {
  import opened Machine

  const PAGE_SIZE: nat := 4096
  const NB_FRAMES: nat := UINTPTR_MAX / PAGE_SIZE + 1
  const FRAME_BITMAP_SIZE: nat := NB_FRAMES / 8
  const NULL_FRAME: uint32 := 0xFFFF_FFFF

  predicate IsPageAligned(addr: uint32) {
    addr % PAGE_SIZE == 0
  }

  /** Address of the first byte of frame `f`, computed in 32 bits as the source does. */
  function FrameAddress(f: nat): uint32 {
    Wrap32(PAGE_SIZE * f)
  }

  function FrameOf(addr: uint32): nat {
    addr / PAGE_SIZE
  }

  /** `1 << j` for a bit number of a byte, as a table; `MaskIsShift` shows they agree. */
  function Mask(j: nat): bv8
    requires j < 8
  {
    if j == 0 then 1 else if j == 1 then 2 else if j == 2 then 4 else if j == 3 then 8
    else if j == 4 then 16 else if j == 5 then 32 else if j == 6 then 64 else 128
  }

  function FrameNdx(addr: uint32): nat {
    (addr / PAGE_SIZE) / 8
  }

  function FrameMask(addr: uint32): bv8 {
    Mask((addr / PAGE_SIZE) % 8)
  }

  predicate Bit(b: bv8, j: nat)
    requires j < 8
  {
    b & Mask(j) != 0
  }

  /** Frame `f` is marked in the bitmap `bits`. */
  predicate InUse(bits: seq<bv8>, f: nat)
    requires f < 8 * |bits|
  {
    Bit(bits[f / 8], f % 8)
  }

  /** The set a bitmap stands for. */
  ghost function Frames(bits: seq<bv8>): set<nat> {
    set f: nat | f < 8 * |bits| && InUse(bits, f)
  }

  function Marked(bits: seq<bv8>, f: nat): seq<bv8>
    requires f < 8 * |bits|
  {
    bits[f / 8 := bits[f / 8] | Mask(f % 8)]
  }

  function Cleared(bits: seq<bv8>, f: nat): seq<bv8>
    requires f < 8 * |bits|
  {
    bits[f / 8 := bits[f / 8] & !Mask(f % 8)]
  }

  lemma MaskIsShift(j: nat)
    requires j < 8
    ensures Mask(j) == 1 << j
  {
    if j == 0 {} else if j == 1 {} else if j == 2 {} else if j == 3 {}
    else if j == 4 {} else if j == 5 {} else if j == 6 {} else {}
  }

  /** Setting or clearing one bit of a byte is seen at that bit and at no other. */
  lemma UpdateBit(b: bv8, j: nat, k: nat)
    requires j < 8 && k < 8
    ensures Bit(b | Mask(j), k) <==> k == j || Bit(b, k)
    ensures Bit(b & !Mask(j), k) <==> k != j && Bit(b, k)
  {
  }

  /** A byte is determined by its eight bits. */
  lemma ByteExtensional(a: bv8, b: bv8)
    requires forall k: nat :: k < 8 ==> Bit(a, k) == Bit(b, k)
    ensures a == b
  {
    assert Bit(a, 0) == Bit(b, 0) && Bit(a, 1) == Bit(b, 1) && Bit(a, 2) == Bit(b, 2) && Bit(a, 3) == Bit(b, 3);
    assert Bit(a, 4) == Bit(b, 4) && Bit(a, 5) == Bit(b, 5) && Bit(a, 6) == Bit(b, 6) && Bit(a, 7) == Bit(b, 7);
  }

  lemma FullByte(b: bv8)
    ensures b == 0xFF <==> forall k: nat :: k < 8 ==> Bit(b, k)
  {
    if forall k: nat :: k < 8 ==> Bit(b, k) {
      ByteExtensional(b, 0xFF);
    }
  }

  /** A bitmap is determined by the set it stands for, so equal sets mean equal
      bitmaps, byte for byte. */
  lemma BitmapExtensional(a: seq<bv8>, b: seq<bv8>)
    requires |a| == |b|
    requires Frames(a) == Frames(b)
    ensures a == b
  {
    forall i | 0 <= i < |a| ensures a[i] == b[i] {
      forall k: nat | k < 8 ensures Bit(a[i], k) == Bit(b[i], k) {
        var f := 8 * i + k;
        assert f / 8 == i && f % 8 == k;
        assert f in Frames(a) <==> f in Frames(b);
      }
      ByteExtensional(a[i], b[i]);
    }
  }

  /** Marking one frame adds that frame to the set, and only that one. */
  lemma FramesMarked(bits: seq<bv8>, f: nat)
    requires f < 8 * |bits|
    ensures Frames(Marked(bits, f)) == Frames(bits) + {f}
  {
    forall g: nat | g < 8 * |bits|
      ensures InUse(Marked(bits, f), g) <==> g == f || InUse(bits, g)
    {
      UpdateBit(bits[f / 8], f % 8, g % 8);
    }
  }

  /** Clearing one frame removes that frame from the set, and only that one. */
  lemma FramesCleared(bits: seq<bv8>, f: nat)
    requires f < 8 * |bits|
    ensures Frames(Cleared(bits, f)) == Frames(bits) - {f}
  {
    forall g: nat | g < 8 * |bits|
      ensures InUse(Cleared(bits, f), g) <==> g != f && InUse(bits, g)
    {
      UpdateBit(bits[f / 8], f % 8, g % 8);
    }
  }

  /** A byte is 0xFF exactly when its whole group of eight frames is in use. */
  lemma FullGroup(bits: seq<bv8>, i: nat)
    requires i < |bits|
    ensures bits[i] == 0xFF <==> forall f: nat :: 8 * i <= f < 8 * i + 8 ==> InUse(bits, f)
  {
    FullByte(bits[i]);
    if forall f: nat :: 8 * i <= f < 8 * i + 8 ==> InUse(bits, f) {
      forall k: nat | k < 8 ensures Bit(bits[i], k) {
        assert InUse(bits, 8 * i + k);
      }
    }
  }

  /** Page-aligned addresses and (byte, bit) pairs determine each other: decoding
      is in range, encoding does not overflow and never gives `NULL_FRAME`, and
      the two are inverse. */
  lemma AddressBijection(addr: uint32, i: nat, j: nat)
    requires IsPageAligned(addr)
    requires i < FRAME_BITMAP_SIZE && j < 8
    ensures FrameNdx(addr) < FRAME_BITMAP_SIZE && FrameMask(addr) == Mask(FrameOf(addr) % 8)
    ensures FrameAddress(FrameOf(addr)) == addr != NULL_FRAME
    ensures FrameAddress(i * 8 + j) == PAGE_SIZE * (i * 8 + j) && IsPageAligned(FrameAddress(i * 8 + j))
    ensures FrameNdx(FrameAddress(i * 8 + j)) == i && FrameMask(FrameAddress(i * 8 + j)) == Mask(j)
    ensures FrameAddress(i * 8 + j) == addr <==> FrameNdx(addr) == i && FrameMask(addr) == Mask(j)
  {
    assert FrameOf(FrameAddress(i * 8 + j)) == i * 8 + j;
  }
}
