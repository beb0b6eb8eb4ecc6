/** The physical memory manager: a byte bitmap changed in place, a counter of used frames
    and a hint from which the word scan starts. */
module PhysicalMemory {
  import opened Bitmap
  import F = Frames

  const PAGE_SIZE := F.PAGE_SIZE

  /** The bitmap as one boolean per frame. */
  function BitsOf(bytes: seq<Byte>, n: nat): seq<bool>
    requires n <= 8 * |bytes|
  {
    seq(n, i requires 0 <= i < n => Bit(bytes[i / 8], i % 8))
  }

  class Pmm {
    var bitmap: array<Byte>
    var totalFrames: nat
    var usedFrames: nat
    var allocHint: nat

    ghost predicate Sized()
      reads this
    {
      totalFrames <= 8 * bitmap.Length
    }

    /** BITMAP_TEST. */
    predicate Taken(i: nat): (taken: bool)
      requires Sized() && i < totalFrames
      reads this, bitmap
      ensures taken == Abs().bits[i]
    {
      Bit(bitmap[i / 8], i % 8)
    }

    ghost function Abs(): F.Frames
      requires Sized()
      reads this, bitmap
    {
      F.Frames(BitsOf(bitmap[..], totalFrames), usedFrames, allocHint)
    }

    ghost predicate Valid()
      reads this, bitmap
    {
      Sized() && F.Inv(Abs())
    }

    /** `pmm_init`: every frame of a memory of `memSize` bytes starts free. */
    constructor (memSize: nat, base: array<Byte>)
      requires (memSize / PAGE_SIZE + 7) / 8 <= base.Length
      modifies base
      ensures Valid() && bitmap == base
      ensures Abs() == F.Fresh(memSize / PAGE_SIZE)
      ensures base[(memSize / PAGE_SIZE + 7) / 8..] == old(base[(memSize / PAGE_SIZE + 7) / 8..])
    {
      bitmap := base;
      totalFrames := memSize / PAGE_SIZE;
      usedFrames := 0;
      allocHint := 0;
      new;
      var size := (totalFrames + 7) / 8;
      for i := 0 to size
        modifies base
        invariant forall j :: 0 <= j < i ==> base[j] == 0
        invariant forall j :: size <= j < base.Length ==> base[j] == old(base[j])
      {
        base[i] := 0;
      }
      forall i: nat | i < totalFrames ensures !Abs().bits[i] { ZeroBits(i % 8); }
      F.FreshInv(totalFrames);
      assert Abs().bits == F.Fresh(totalFrames).bits;
    }

    /** BITMAP_SET. */
    method SetFrame(i: nat)
      requires Sized() && i < totalFrames
      modifies bitmap
      ensures Abs() == old(Abs()).(bits := old(Abs()).bits[i := true])
    {
      ghost var before := Abs().bits;
      Pow2At8();
      BitOpRange(bitmap[i / 8], i % 8, 8);
      bitmap[i / 8] := SetBit(bitmap[i / 8], i % 8);
      forall j: nat | j < totalFrames ensures Abs().bits[j] == before[i := true][j] {
        SetBitView(old(bitmap[i / 8]), i % 8, j % 8);
      }
      assert Abs().bits == before[i := true];
    }

    /** BITMAP_CLEAR. */
    method ClearFrame(i: nat)
      requires Sized() && i < totalFrames
      modifies bitmap
      ensures Abs() == old(Abs()).(bits := old(Abs()).bits[i := false])
    {
      ghost var before := Abs().bits;
      Pow2At8();
      BitOpRange(bitmap[i / 8], i % 8, 8);
      bitmap[i / 8] := ClearBit(bitmap[i / 8], i % 8);
      forall j: nat | j < totalFrames ensures Abs().bits[j] == before[i := false][j] {
        ClearBitView(old(bitmap[i / 8]), i % 8, j % 8);
      }
      assert Abs().bits == before[i := false];
    }

    method MarkUsed(paddr: nat)
      requires Valid()
      modifies this`usedFrames, bitmap
      ensures Valid() && Abs() == F.MarkUsed(old(Abs()), paddr)
    {
      var frame := paddr / PAGE_SIZE;
      if frame < totalFrames && !Taken(frame) {
        SetFrame(frame);
        usedFrames := usedFrames + 1;
      }
      assert Abs() == F.MarkUsed(old(Abs()), paddr);
    }

    /** `pmm_mark_free`, also called `pmm_free_frame`. */
    method MarkFree(paddr: nat)
      requires Valid()
      modifies this`usedFrames, this`allocHint, bitmap
      ensures Valid() && Abs() == F.MarkFree(old(Abs()), paddr)
    {
      var frame := paddr / PAGE_SIZE;
      if frame < totalFrames && Taken(frame) {
        F.CountUpdate(Abs().bits, frame, false);
        ClearFrame(frame);
        usedFrames := usedFrames - 1;
        if frame < allocHint {
          allocHint := frame;
        }
      }
      assert Abs() == F.MarkFree(old(Abs()), paddr);
    }

    /** The little-endian 64-bit word `w` of the bitmap and the 64 frames it covers. */
    function WordAt(w: nat): (v: nat)
      requires Sized() && 64 * w + 64 <= totalFrames
      reads this, bitmap
      ensures v < Pow2(64)
    {
      WordRange(bitmap[8 * w..8 * w + 8]);
      Word(bitmap[8 * w..8 * w + 8])
    }

    lemma WordAtBit(w: nat, k: nat)
      requires Sized() && 64 * w + 64 <= totalFrames && k < 64
      ensures Abs().bits[64 * w + k] == Bit(WordAt(w), k)
    {
      hide Word, Bit, Pow2;
      WordView(bitmap[8 * w..8 * w + 8], k);
    }

    lemma WordAtView(w: nat)
      requires Sized() && 64 * w + 64 <= totalFrames
      ensures WordAt(w) == Pow2(64) - 1 ==> forall i :: 64 * w <= i < 64 * w + 64 ==> Abs().bits[i]
      ensures WordAt(w) != Pow2(64) - 1 ==>
                var r := TrailingZeros(Not(WordAt(w), 64));
                && r < 64 && !Abs().bits[64 * w + r]
                && forall i :: 64 * w <= i < 64 * w + r ==> Abs().bits[i]
    {
      hide Bit, Word, Not, TrailingZeros, Pow2;
      LowestClearBit(bitmap[8 * w..8 * w + 8]);
      forall i | 64 * w <= i < 64 * w + 64 ensures Abs().bits[i] == Bit(WordAt(w), i - 64 * w) {
        WordAtBit(w, i - 64 * w);
      }
    }

    /** The word scan of phases 1 and 2: the lowest free frame of the words in [lo, hi). */
    method ScanWords(lo: nat, hi: nat) returns (found: bool, frame: nat)
      requires Sized() && 64 * hi <= totalFrames
      ensures found ==> 64 * lo <= frame < 64 * hi && !Abs().bits[frame]
                        && forall i :: 64 * lo <= i < frame ==> Abs().bits[i]
      ensures !found ==> forall i :: 64 * lo <= i < 64 * hi ==> Abs().bits[i]
    {
      hide Bit, Word, TrailingZeros, Pow2, WordAt;
      var w := lo;
      found, frame := false, 0;
      while w < hi
        invariant lo <= w
        invariant forall i :: 64 * lo <= i < 64 * w && i < 64 * hi ==> Abs().bits[i]
      {
        var val := WordAt(w);
        WordAtView(w);
        if val != Pow2(64) - 1 {
          var bit := TrailingZeros(Not(val, 64));
          frame := w * 64 + bit;
          if frame < totalFrames {
            found := true;
            return;
          }
        }
        w := w + 1;
      }
    }

    /** The three-phase scan returns the frame that the linear scan `F.LowestFree` returns. Phase 2
        finds nothing, because every frame below the hint is used; the out-of-memory exit after
        phase 3 is not reached while some frame is free. */
    method FindFree() returns (frame: nat)
      requires Valid() && exists i :: 0 <= i < totalFrames && !Abs().bits[i]
      ensures frame < totalFrames && frame == F.LowestFree(Abs().bits, 0)
    {
      ghost var bits := Abs().bits;
      var totalWords := totalFrames / 64;
      var startWord := allocHint / 64;
      var found;
      found, frame := ScanWords(startWord, totalWords);
      if found {
        return;
      }
      assert Abs().bits == bits;
      found, frame := ScanWords(0, startWord);
      assert !found;
      var i := totalWords * 64;
      while i < totalFrames
        invariant i <= totalFrames
        invariant forall j :: 0 <= j < i ==> bits[j]
      {
        if !Taken(i) {
          return i;
        }
        i := i + 1;
      }
      assert false;
    }

    method AllocFrame() returns (paddr: nat)
      requires Valid()
      modifies this`usedFrames, this`allocHint, bitmap
      ensures Valid() && (Abs(), paddr) == F.AllocFrame(old(Abs()))
    {
      F.CountFull(Abs().bits);
      if usedFrames >= totalFrames {
        return 0;
      }
      var frame := FindFree();
      SetFrame(frame);
      usedFrames := usedFrames + 1;
      allocHint := frame + 1;
      assert Abs() == F.AllocFrame(old(Abs())).0;
      return frame * PAGE_SIZE;
    }

    method AllocContiguous(frameCount: nat) returns (paddr: nat)
      requires Valid()
      modifies this`usedFrames, bitmap
      ensures Valid() && (Abs(), paddr) == F.AllocContiguous(old(Abs()), frameCount)
    {
      hide Bit, F.CountSet;
      if frameCount == 0 {
        return 0;
      }
      ghost var before := Abs();
      var count, start := 0, 0;
      var i := 0;
      while i < totalFrames
        invariant i <= totalFrames && count < frameCount
        invariant count > 0 ==> start + count == i
        invariant forall j :: i - count <= j < i ==> !before.bits[j]
        invariant count < i ==> before.bits[i - count - 1]
        invariant count <= i
        invariant forall s {:trigger F.FreeRun(before.bits, s, frameCount)} ::
                    0 <= s < i - count ==> !F.FreeRun(before.bits, s, frameCount)
      {
        if !Taken(i) {
          if count == 0 { start := i; }
          count := count + 1;
          if count == frameCount {
            assert F.FreeRun(before.bits, start, frameCount);
            assert F.LowestRun(before.bits, frameCount, 0) == start;
            SetRun(start, frameCount);
            usedFrames := usedFrames + frameCount;
            assert Abs() == F.AllocContiguous(before, frameCount).0;
            return start * PAGE_SIZE;
          }
        } else {
          forall s | 0 <= s < i + 1 ensures !F.FreeRun(before.bits, s, frameCount) {
            assert before.bits[i];
          }
          count := 0;
        }
        i := i + 1;
      }
      forall s | 0 <= s < totalFrames ensures !F.FreeRun(before.bits, s, frameCount) {
      }
      return 0;
    }

    /** The marking loop of `pmm_alloc_contiguous`. */
    method SetRun(start: nat, n: nat)
      requires Sized() && start + n <= totalFrames
      modifies bitmap
      ensures Abs() == old(Abs()).(bits := F.SetRange(old(Abs()).bits, start, n))
    {
      ghost var before := Abs().bits;
      for j := start to start + n
        invariant Abs() == old(Abs()).(bits := F.SetRange(before, start, j - start))
      {
        SetFrame(j);
        assert Abs().bits == F.SetRange(before, start, j + 1 - start);
      }
    }

    method FreeMemory() returns (bytes: nat)
      requires Valid()
      ensures bytes == F.FreeCount(Abs()) * PAGE_SIZE
    {
      bytes := (totalFrames - usedFrames) * PAGE_SIZE;
    }

    method UsedMemory() returns (bytes: nat)
      requires Valid()
      ensures bytes == F.CountSet(Abs().bits) * PAGE_SIZE
    {
      bytes := usedFrames * PAGE_SIZE;
    }
  }
}
