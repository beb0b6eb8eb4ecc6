/** The boot path in `main.c` that places the frame bitmap behind the kernel image and reserves the
    frames of both. */
module Boot {
  import F = Frames
  import opened Bitmap
  import opened PhysicalMemory

  const DEFAULT_RAM: nat := 64 * 1024 * 1024

  function RamSize(total: nat): nat {
    if total != 0 then total else DEFAULT_RAM
  }

  function BitmapBytes(ram: nat): nat {
    (ram / PAGE_SIZE + 7) / 8
  }

  /** The first page boundary at or after the end of the kernel image. */
  function BitmapBase(end: nat): nat {
    end + 4095 - (end + 4095) % PAGE_SIZE
  }

  function ReservedFrames(end: nat, ram: nat): nat {
    (BitmapBase(end) + BitmapBytes(ram) + 4095) / PAGE_SIZE
  }

  /** A frame is reserved exactly when it holds a byte below the end of the bitmap, so every byte of
      the image and of the bitmap, which do not overlap, lies in a reserved frame; the bitmap has just enough
      bytes for one bit per frame. */
  lemma ReservedExactly(end: nat, ram: nat, i: nat)
    ensures i < ReservedFrames(end, ram) <==> i * PAGE_SIZE < BitmapBase(end) + BitmapBytes(ram)
    ensures end <= BitmapBase(end) < end + PAGE_SIZE && BitmapBase(end) % PAGE_SIZE == 0
    ensures 8 * BitmapBytes(ram) - 8 < ram / PAGE_SIZE <= 8 * BitmapBytes(ram)
    ensures forall x: nat :: x < end || BitmapBase(end) <= x < BitmapBase(end) + BitmapBytes(ram)
                        ==> x / PAGE_SIZE < ReservedFrames(end, ram)
  {
  }

  /** The reservation loop from frame `i` on. */
  function Reserve(f: F.Frames, n: nat, i: nat): F.Frames
    requires F.Inv(f) && i <= n
    decreases n - i
  {
    if i == n then f else Reserve(F.MarkUsed(f, i * PAGE_SIZE), n, i + 1)
  }

  /** The loop takes the frames below `n` that exist, and no other. */
  lemma {:induction false} ReserveTakes(f: F.Frames, n: nat, i: nat)
    requires F.Inv(f) && i <= n
    ensures var g := Reserve(f, n, i);
            && F.Inv(g) && |g.bits| == |f.bits|
            && forall k :: 0 <= k < |g.bits| ==> g.bits[k] == (f.bits[k] || i <= k < n)
    decreases n - i
  {
    if i < n {
      ReserveTakes(F.MarkUsed(f, i * PAGE_SIZE), n, i + 1);
    }
  }

  /** The frames after boot. */
  function BootFrames(end: nat, total: nat): (f: F.Frames)
    ensures F.Inv(f)
  {
    var ram := RamSize(total);
    F.FreshInv(ram / PAGE_SIZE);
    ReserveTakes(F.Fresh(ram / PAGE_SIZE), ReservedFrames(end, ram), 0);
    Reserve(F.Fresh(ram / PAGE_SIZE), ReservedFrames(end, ram), 0)
  }

  /** After boot a frame is used exactly when a byte of it lies below the end of the bitmap; in
      particular frame 0 is used, as soon as there is an image. */
  lemma BootTakes(end: nat, total: nat)
    ensures var f := BootFrames(end, total);
            && |f.bits| == RamSize(total) / PAGE_SIZE
            && |f.bits| == (if total == 0 then 16384 else total / PAGE_SIZE)
            && (forall k :: 0 <= k < |f.bits| ==>
                  f.bits[k] == (k * PAGE_SIZE < BitmapBase(end) + BitmapBytes(RamSize(total))))
            && F.ZeroTaken(f)
  {
    var ram := RamSize(total);
    F.FreshInv(ram / PAGE_SIZE);
    ReserveTakes(F.Fresh(ram / PAGE_SIZE), ReservedFrames(end, ram), 0);
    forall k: nat ensures k < ReservedFrames(end, ram) <==> k * PAGE_SIZE < BitmapBase(end) + BitmapBytes(ram) {
      ReservedExactly(end, ram, k);
    }
  }

  /** Lines 124 to 134 of `main.c`; `bitmap` is the memory from `BitmapBase(end)` on. */
  method InitFrames(end: nat, total: nat, bitmap: array<Byte>) returns (pmm: Pmm)
    requires BitmapBytes(RamSize(total)) <= bitmap.Length
    modifies bitmap
    ensures fresh(pmm) && pmm.bitmap == bitmap && pmm.Valid() && pmm.Abs() == BootFrames(end, total)
    ensures F.ZeroTaken(pmm.Abs())
  {
    hide F.Inv, F.ZeroTaken, Reserve, F.Fresh, BitmapBase, F.MarkUsed;
    var ram := if total != 0 then total else DEFAULT_RAM;
    pmm := new Pmm(ram, bitmap);
    var reserved := (BitmapBase(end) + BitmapBytes(ram) + 4095) / PAGE_SIZE;
    for f := 0 to reserved
      invariant fresh(pmm) && pmm.bitmap == bitmap && pmm.Valid()
      invariant Reserve(pmm.Abs(), reserved, f) == BootFrames(end, total)
    {
      ReserveStep(pmm.Abs(), reserved, f);
      pmm.MarkUsed(f * PAGE_SIZE);
    }
    ReserveDone(pmm.Abs(), reserved);
    BootTakes(end, total);
  }

  lemma ReserveStep(f: F.Frames, n: nat, i: nat)
    requires F.Inv(f) && i < n
    ensures Reserve(f, n, i) == Reserve(F.MarkUsed(f, i * PAGE_SIZE), n, i + 1)
  {
  }

  lemma ReserveDone(f: F.Frames, n: nat)
    requires F.Inv(f)
    ensures Reserve(f, n, n) == f
  {
  }
}
