/** `kmalloc`, `kfree` and `krealloc` as functions on the heap and the frame allocator, and the
    invariant that every run of them keeps. */
module HeapOps {
  import F = Frames
  import D = Division
  import B = Bitmap
  import opened HeapModel
  import opened HeapSteps
  import opened Sums

  const WORD_RANGE: nat := 0x1_0000_0000_0000_0000

  /** `align_up` in 64-bit arithmetic; for a power of two, masking is rounding down. */
  function AlignUp(val: nat, align: nat): nat
    requires 0 < align
  {
    var v := (val + align - 1) % WORD_RANGE;
    v - v % align
  }

  /** Rounding a request up to 8 bytes yields at least the request exactly for the requests
      of at most 2^64 - 8 bytes; any larger request wraps to 0. */
  lemma AlignUpExact(n: nat)
    requires 0 < n < WORD_RANGE
    ensures AlignUp(n, 8) >= n <==> n <= WORD_RANGE - 8
    ensures n > WORD_RANGE - 8 ==> AlignUp(n, 8) == 0
    ensures n <= WORD_RANGE - 8 ==> AlignUp(n, 8) < n + 8
  {
  }

  lemma RoundedTo8(n: nat)
    ensures AlignUp(n, 8) % 8 == 0
  {
  }

  lemma NoWrap(v: nat)
    requires v < WORD_RANGE
    ensures v % WORD_RANGE == v
  {
  }

  /** Without wrap-around, `align_up` is the least multiple of `align` that is not below `val`. */
  lemma AlignUpAligned(val: nat, align: nat)
    requires 0 < align && val + align - 1 < WORD_RANGE
    ensures AlignUp(val, align) % align == 0
    ensures val <= AlignUp(val, align) < val + align
  {
    var v := val + align - 1;
    NoWrap(v);
    D.RoundDown(v, align);
  }

  /** The test `align & (align - 1) == 0` on a positive number. */
  predicate PowerOfTwo(n: nat) {
    n == 1 || (n > 1 && n % 2 == 0 && PowerOfTwo(n / 2))
  }

  /** `n` and `n - 1` have the bit `k` in common. */
  predicate SharedBit(n: nat, k: nat)
    requires 0 < n
  {
    B.Bit(n, k) && B.Bit(n - 1, k)
  }

  /** The mask test on the bits: `align` and `align - 1` have no bit in common exactly for a power of two. */
  lemma {:induction false} PowerOfTwoMask(n: nat)
    requires 0 < n
    ensures PowerOfTwo(n) <==> forall k: nat :: !SharedBit(n, k)
  {
    var m := n / 2;
    if n == 1 {
      forall k: nat ensures !SharedBit(n, k) { B.ZeroBits(k); }
    } else if n % 2 == 1 {
      var j := SomeBit(m);
      assert (n - 1) / 2 == m;
      assert SharedBit(n, j + 1);
    } else {
      PowerOfTwoMask(m);
      assert (n - 1) / 2 == m - 1;
      forall k: nat ensures SharedBit(n, k) <==> k > 0 && SharedBit(m, k - 1) {}
      if !PowerOfTwo(m) {
        var k: nat :| SharedBit(m, k);
        assert SharedBit(n, k + 1);
      }
    }
  }

  lemma {:induction false} SomeBit(n: nat) returns (k: nat)
    requires 0 < n
    ensures B.Bit(n, k)
  {
    if n % 2 == 1 {
      k := 0;
    } else {
      k := SomeBit(n / 2);
      k := k + 1;
    }
  }

  /** Rounding down to a power of two clears the bits of `align - 1` and no others. */
  lemma {:induction false} RoundDownMask(v: nat, align: nat, r: nat, k: nat)
    requires PowerOfTwo(align) && r + v % align == v
    ensures B.Bit(r, k) <==> B.Bit(v, k) && !B.Bit(align - 1, k)
    decreases align
  {
    if align == 1 {
      B.ZeroBits(k);
    } else {
      var a := align / 2;
      HalfRounded(v, a);
      assert (align - 1) / 2 == a - 1;
      if k > 0 { RoundDownMask(v / 2, a, r / 2, k - 1); }
    }
  }

  lemma HalfRounded(v: nat, a: nat)
    requires 0 < a
    ensures (v - v % (2 * a)) % 2 == 0 && (v - v % (2 * a)) / 2 == v / 2 - v / 2 % a
  {
    var q, r := v / 2 / a, v / 2 % a;
    assert v / 2 == q * a + r;
    assert v == q * (2 * a) + (2 * r + v % 2);
    D.Unique(v, 2 * a, q, 2 * r + v % 2);
    assert v - v % (2 * a) == 2 * (q * a);
  }

  /** The largest request for which none of the sums in `kmalloc` and `grow_heap` wraps. */
  const MAX_REQUEST: nat := WORD_RANGE - HEADER - PAGE

  /** The index of the first block of the free list with room for `n` bytes. */
  function FirstFit(h: Heap, n: nat, i: nat): (k: nat)
    requires i <= |h.free| && forall a :: a in h.free ==> a in h.blocks
    ensures i <= k <= |h.free|
    ensures forall j :: i <= j < k ==> h.blocks[h.free[j]].size < n
    ensures k < |h.free| ==> n <= h.blocks[h.free[k]].size
    decreases |h.free| - i
  {
    if i == |h.free| || n <= h.blocks[h.free[i]].size then i else FirstFit(h, n, i + 1)
  }

  /** Takes the free block `c` for a request of `n` bytes, splitting off a large remainder. */
  function Take(h: Heap, c: nat, n: nat): Heap
    requires FreeOk(h) && c in h.free && n <= h.blocks[c].size
  {
    if n + HEADER + MIN_SPLIT <= h.blocks[c].size then
      Claim(Split(h, c, n), c)
    else
      Claim(h, c)
  }

  /** `p` is the least number of pages that hold a header and `n` bytes. */
  predicate LeastPages(n: nat, p: nat) {
    0 < p && (p - 1) * PAGE < n + HEADER <= p * PAGE
  }

  function PagesFor(n: nat): (p: nat)
    ensures LeastPages(n, p)
  {
    (n + HEADER + PAGE - 1) / PAGE
  }

  // ----- the invariant between calls -----

  ghost predicate Rounded(h: Heap) {
    forall a {:trigger h.blocks[a].size} :: a in h.blocks ==> h.blocks[a].size % 8 == 0
  }

  /** The frames of a segment are used in the frame allocator. */
  ghost predicate SegBacked(segs: map<nat, nat>, bits: seq<bool>, off: nat, s: nat)
    requires s in segs
  {
    off <= s && (s - off) % PAGE == 0 && F.UsedRun(bits, (s - off) / PAGE, segs[s] / PAGE)
  }

  ghost predicate Backed(segs: map<nat, nat>, bits: seq<bool>, off: nat) {
    forall s {:trigger SegBacked(segs, bits, off, s)} :: s in segs ==> SegBacked(segs, bits, off, s)
  }

  ghost predicate Ready(h: Heap, f: F.Frames, off: nat) {
    Inv(h) && Rounded(h) && Backed(h.segs, f.bits, off) && F.Inv(f) && F.ZeroTaken(f)
  }

  /** A run of free frames lies apart from every segment. */
  lemma FreshSegmentApart(h: Heap, f: F.Frames, off: nat, pa: nat, pages: nat)
    requires Shape(h) && Backed(h.segs, f.bits, off) && 0 < pages && pa % PAGE == 0 && F.FreeRun(f.bits, pa / PAGE, pages)
    ensures Apart(h, pa + off, pages * PAGE)
  {
    forall s | s in h.segs ensures SegEnd(h.segs, s) <= pa + off || pa + off + pages * PAGE <= s {
      assert SegBacked(h.segs, f.bits, off, s) && SegOk(h.blocks, h.segs, s);
      F.RunsApart(f.bits, (s - off) / PAGE, h.segs[s] / PAGE, pa / PAGE, pages);
    }
  }

  // ----- kmalloc -----

  /** The size of the block that a request of `n` bytes gets out of the free block `c`. */
  function TakenSize(h: Heap, c: nat, n: nat): nat
    requires c in h.blocks
  {
    if n + HEADER + MIN_SPLIT <= h.blocks[c].size then n else h.blocks[c].size
  }

  lemma TakeSound(h: Heap, c: nat, n: nat)
    requires Sound(h) && c in h.free && n <= h.blocks[c].size
    ensures Sound(Take(h, c, n))
    ensures Live(Take(h, c, n)) == Live(h) + {c} && Keeps(h, Take(h, c, n), Live(h))
    ensures Take(h, c, n).blocks[c].size == TakenSize(h, c, n)
  {
    if n + HEADER + MIN_SPLIT <= h.blocks[c].size {
      SplitSound(h, c, n);
      ClaimSound(Split(h, c, n), c);
      SplitFresh(h, c, n);
    } else {
      ClaimSound(h, c);
    }
  }

  lemma TakeRounded(h: Heap, c: nat, n: nat)
    requires FreeOk(h) && Rounded(h) && c in h.free && n <= h.blocks[c].size && n % 8 == 0
    ensures Rounded(Take(h, c, n))
    ensures n <= TakenSize(h, c, n) <= n + 72
  {
  }

  lemma TakeCoalesced(h: Heap, c: nat, n: nat)
    requires Inv(h) && c in h.free && n <= h.blocks[c].size
    ensures Coalesced(Take(h, c, n))
  {
    var g := Take(h, c, n);
    assert BlockOk(h.blocks, h.segs, c);
    SplitFreshIf(h, c, n);
    forall x | x in g.blocks ensures !FreePair(g.blocks, x) {
      if x in h.blocks {
        assert BlockOk(h.blocks, h.segs, x);
        assert !FreePair(h.blocks, x);
      } else {
        assert !FreePair(h.blocks, c);
      }
    }
  }

  lemma SplitFreshIf(h: Heap, c: nat, n: nat)
    requires Shape(h) && c in h.blocks
    ensures CanSplit(h, c, n) ==> c + HEADER + n !in h.blocks
    ensures CanSplit(h, c, n) && h.blocks[c].next != 0 ==> h.blocks[c].next > c + HEADER + n
  {
    if CanSplit(h, c, n) { SplitFresh(h, c, n); }
  }

  /** Taking a block keeps the invariant and adds one live block of at least `n` and at most
      `n + 72` bytes, at an address that was not live. */
  lemma TakeInv(h: Heap, c: nat, n: nat)
    requires Inv(h) && Rounded(h) && c in h.free && n <= h.blocks[c].size && n % 8 == 0
    ensures Inv(Take(h, c, n)) && Rounded(Take(h, c, n)) && c !in Live(h)
    ensures Live(Take(h, c, n)) == Live(h) + {c} && Keeps(h, Take(h, c, n), Live(h))
    ensures n <= Take(h, c, n).blocks[c].size <= n + 72
  {
    TakeSound(h, c, n);
    TakeRounded(h, c, n);
    TakeCoalesced(h, c, n);
  }

  lemma AddSegmentCoalesced(h: Heap, base: nat, bytes: nat)
    requires Shape(h) && Coalesced(h) && HEADER <= bytes && base !in h.blocks
    ensures Coalesced(AddSegment(h, base, bytes))
  {
    var bs := AddSegment(h, base, bytes).blocks;
    forall x | x in bs ensures !FreePair(bs, x) {
      if x in h.blocks {
        assert BlockOk(h.blocks, h.segs, x);
        assert !FreePair(h.blocks, x);
      }
    }
  }

  lemma AddSegmentBacked(h: Heap, f: F.Frames, off: nat, pa: nat, pages: nat)
    requires Backed(h.segs, f.bits, off) && pa % PAGE == 0 && F.FreeRun(f.bits, pa / PAGE, pages) && 0 < pages
    ensures Backed(h.segs[pa + off := pages * PAGE], F.SetRange(f.bits, pa / PAGE, pages), off)
  {
    var segs := h.segs[pa + off := pages * PAGE];
    var bits := F.SetRange(f.bits, pa / PAGE, pages);
    forall s | s in segs ensures SegBacked(segs, bits, off, s) {
      if s != pa + off { assert SegBacked(h.segs, f.bits, off, s); }
    }
  }

  lemma SegmentInv(h: Heap, f: F.Frames, off: nat, pa: nat, pages: nat)
    requires Inv(h) && Backed(h.segs, f.bits, off) && 0 < pa && 0 < pages
    requires pa % PAGE == 0 && F.FreeRun(f.bits, pa / PAGE, pages)
    ensures var g := Grown(h, pa + off, pages);
            Inv(g) && SameLive(h, g) && pa + off !in h.blocks
  {
    FreshSegmentApart(h, f, off, pa, pages);
    AddSegmentSound(h, pa + off, pages * PAGE);
    AddSegmentCoalesced(h, pa + off, pages * PAGE);
  }

  lemma GrownRounded(h: Heap, base: nat, pages: nat)
    requires Rounded(h) && 0 < pages
    ensures Rounded(Grown(h, base, pages))
  {
    assert (pages * PAGE - HEADER) % 8 == 0;
  }

  /** `grow_heap`: a run of `pages` fresh frames becomes a segment. */
  lemma GrowReady(h: Heap, f: F.Frames, f': F.Frames, off: nat, pa: nat, pages: nat)
    requires Ready(h, f, off) && 0 < pages && F.Granted(f, f', pa, pages)
    ensures var g := Grown(h, pa + off, pages);
            Ready(g, f', off) && SameLive(h, g) && pa + off !in h.blocks
  {
    SegmentInv(h, f, off, pa, pages);
    AddSegmentBacked(h, f, off, pa, pages);
    GrownRounded(h, pa + off, pages);
  }

  datatype Outcome = Outcome(heap: Heap, frames: F.Frames, ptr: nat)

  /** The heap after growing it by `pages` pages at the virtual address `base`. */
  function Grown(h: Heap, base: nat, pages: nat): Heap
    requires 0 < pages
  {
    AddSegment(h, base, pages * PAGE)
  }

  /** `kmalloc` for a request already rounded to `n` bytes. */
  function MallocRounded(h: Heap, f: F.Frames, off: nat, n: nat): Outcome
    requires Ready(h, f, off)
  {
    var k := FirstFit(h, n, 0);
    if k < |h.free| then
      Outcome(Take(h, h.free[k], n), f, h.free[k] + HEADER)
    else
      var pages := PagesFor(n);
      F.AllocContiguousTakes(f, pages);
      var (f', pa) := F.AllocContiguous(f, pages);
      if pa == 0 then Outcome(h, f', 0)
      else
        GrowReady(h, f, f', off, pa, pages);
        NoDupCons(pa + off, h.free);
        Outcome(Take(Grown(h, pa + off, pages), pa + off, n), f', pa + off + HEADER)
  }

  function Malloc(h: Heap, f: F.Frames, off: nat, size: nat): Outcome
    requires Ready(h, f, off)
  {
    if size == 0 then Outcome(h, f, 0) else MallocRounded(h, f, off, AlignUp(size, 8))
  }

  /** What a caller sees when the request of `n` bytes is served by the block at `a`. */
  ghost predicate Served(h: Heap, g: Heap, a: nat, n: nat) {
    && 0 < a && a !in Live(h) && a in g.blocks
    && Live(g) == Live(h) + {a} && Keeps(h, g, Live(h))
    && n <= g.blocks[a].size <= n + 72
  }

  lemma TakeReady(h: Heap, g: Heap, f: F.Frames, off: nat, c: nat, n: nat)
    requires Ready(g, f, off) && SameLive(h, g) && c in g.free && n <= g.blocks[c].size && n % 8 == 0
    ensures Ready(Take(g, c, n), f, off) && Served(h, Take(g, c, n), c, n)
  {
    TakeInv(g, c, n);
    assert BlockOk(g.blocks, g.segs, c);
    assert Take(g, c, n).segs == g.segs;
    assert c in Live(Take(g, c, n));
  }

  /** After growing, the request is served by the new block. */
  lemma RetryReady(h: Heap, g: Heap, f: F.Frames, f': F.Frames, off: nat, pa: nat, pages: nat, n: nat)
    requires Ready(h, f, off) && n % 8 == 0 && 0 < pages && n + HEADER <= pages * PAGE
    requires F.Granted(f, f', pa, pages) && g == Grown(h, pa + off, pages)
    ensures pa + off in g.free && FreeOk(g) && pa + off !in h.blocks
    ensures Ready(Take(g, pa + off, n), f', off) && Served(h, Take(g, pa + off, n), pa + off, n)
  {
    hide Rounded, Backed, Coalesced, Accounts, Shape, F.Inv, F.ZeroTaken, Take, Served;
    GrowReady(h, f, f', off, pa, pages);
    NoDupCons(pa + off, h.free);
    TakeReady(h, g, f', off, pa + off, n);
  }

  /** What `kmalloc` promises of its outcome `r` for a request rounded to `n` bytes. */
  ghost predicate MallocOk(h: Heap, f: F.Frames, off: nat, n: nat, r: Outcome) {
    && Ready(r.heap, r.frames, off)
    && (r.ptr == 0 ==> r.heap == h && r.frames == f)
    && (r.ptr != 0 ==> HEADER < r.ptr && Served(h, r.heap, r.ptr - HEADER, n))
  }

  lemma GrowMallocOk(h: Heap, f: F.Frames, f': F.Frames, off: nat, n: nat, pages: nat, pa: nat)
    requires Ready(h, f, off) && n % 8 == 0 && 0 < pages && n + HEADER <= pages * PAGE
    requires if pa == 0 then f' == f else F.Granted(f, f', pa, pages)
    ensures pa == 0 ==> MallocOk(h, f, off, n, Outcome(h, f', 0))
    ensures pa != 0 ==> var g := Grown(h, pa + off, pages);
                        && pa + off in g.free && FreeOk(g)
                        && MallocOk(h, f, off, n, Outcome(Take(g, pa + off, n), f', pa + off + HEADER))
  {
    if pa != 0 {
      RetryReady(h, Grown(h, pa + off, pages), f, f', off, pa, pages, n);
    }
  }

  lemma FitMallocOk(h: Heap, f: F.Frames, off: nat, n: nat, c: nat)
    requires Ready(h, f, off) && n % 8 == 0 && c in h.free && n <= h.blocks[c].size
    ensures MallocOk(h, f, off, n, Outcome(Take(h, c, n), f, c + HEADER))
  {
    TakeReady(h, h, f, off, c, n);
  }

  lemma MallocRoundedOk(h: Heap, f: F.Frames, off: nat, n: nat)
    requires Ready(h, f, off) && n % 8 == 0
    ensures MallocOk(h, f, off, n, MallocRounded(h, f, off, n))
  {
    hide MallocOk, F.AllocContiguous, Take, Grown;
    var k := FirstFit(h, n, 0);
    if k < |h.free| {
      FitMallocOk(h, f, off, n, h.free[k]);
    } else {
      var pages := PagesFor(n);
      F.AllocContiguousTakes(f, pages);
      var (f', pa) := F.AllocContiguous(f, pages);
      GrowMallocOk(h, f, f', off, n, pages, pa);
    }
  }

  /** `kmalloc` fails without any effect, or adds one live block that holds the request with at
      most 72 bytes to spare and leaves all other live blocks as they are. */
  lemma MallocReady(h: Heap, f: F.Frames, off: nat, size: nat)
    requires Ready(h, f, off) && size <= MAX_REQUEST
    ensures MallocOk(h, f, off, AlignUp(size, 8), Malloc(h, f, off, size))
    ensures size <= AlignUp(size, 8) && (size == 0 ==> Malloc(h, f, off, size).ptr == 0)
  {
    if size > 0 {
      AlignUpExact(size);
      MallocRoundedOk(h, f, off, AlignUp(size, 8));
    }
  }

  /** Segments are never given back or resized. */
  ghost predicate SegsGrow(h: Heap, g: Heap) {
    forall s {:trigger s in g.segs} :: s in h.segs ==> s in g.segs && g.segs[s] == h.segs[s]
  }

  lemma TakeSegs(h: Heap, c: nat, n: nat)
    requires FreeOk(h) && c in h.free && n <= h.blocks[c].size
    ensures Take(h, c, n).segs == h.segs
  {
  }

  lemma MallocSegs(h: Heap, f: F.Frames, off: nat, size: nat)
    requires Ready(h, f, off) && size <= MAX_REQUEST
    ensures SegsGrow(h, Malloc(h, f, off, size).heap)
  {
    hide Take, F.AllocContiguous, Rounded, Backed, Coalesced, Accounts, F.ZeroTaken, F.Inv, AlignUp;
    var n := AlignUp(size, 8);
    var k := FirstFit(h, n, 0);
    if size > 0 && k < |h.free| {
      TakeSegs(h, h.free[k], n);
    } else if size > 0 {
      var pages := PagesFor(n);
      F.AllocContiguousTakes(f, pages);
      var (f', pa) := F.AllocContiguous(f, pages);
      if pa != 0 {
        GrowReady(h, f, f', off, pa, pages);
        TakeSegs(Grown(h, pa + off, pages), pa + off, n);
        assert pa + off in h.segs ==> SegOk(h.blocks, h.segs, pa + off);
      }
    }
  }

  // ----- exactly what kmalloc answers -----

  /** No free block holds `n` bytes. */
  ghost predicate NoFit(h: Heap, n: nat)
    requires FreeOk(h)
  {
    forall a {:trigger a in h.free} :: a in h.free ==> h.blocks[a].size < n
  }

  ghost predicate NoRun(bits: seq<bool>, k: nat) {
    forall s {:trigger F.FreeRun(bits, s, k)} :: 0 <= s < |bits| ==> !F.FreeRun(bits, s, k)
  }

  /** The block `c` of `h`, `size` bytes large, was taken for `n` bytes in `g`: with at least 80 bytes to
      spare it is cut to `n` and the remainder is listed first; otherwise it is taken whole. */
  ghost predicate Taken(h: Heap, g: Heap, c: nat, n: nat)
    requires c in h.blocks && c in h.free
  {
    var size := h.blocks[c].size;
    var rest := c + HEADER + n;
    && c in g.blocks && g.blocks[c].used && g.blocks[c].size == (if n + 80 <= size then n else size)
    && g.free == (if n + 80 <= size then [rest] else []) + Without(h.free, c)
    && (n + 80 <= size ==> rest in g.blocks && !g.blocks[rest].used && g.blocks[rest].size == size - n - HEADER)
  }

  /** The size of entry `i` of the free list. */
  function ListedSize(h: Heap, i: nat): nat
    requires FreeOk(h) && i < |h.free|
  {
    assert h.free[i] in h.free;
    h.blocks[h.free[i]].size
  }

  /** The first entry of the free list with room for `n` bytes serves the request; no frame is taken. */
  ghost predicate ServedByFit(h: Heap, f: F.Frames, n: nat, r: Outcome, i: nat)
    requires FreeOk(h)
  {
    && i < |h.free| && (forall j: nat :: j < i ==> ListedSize(h, j) < n) && n <= ListedSize(h, i)
    && r.ptr == h.free[i] + HEADER && r.frames == f && r.heap.segs == h.segs
    && h.free[i] in h.free && Taken(h, r.heap, h.free[i], n)
  }

  /** The lowest run of `k` free frames, from frame `s` on, serves the request as one new segment, which is
      listed first as a single free block before the request takes its part. */
  ghost predicate ServedByGrowth(h: Heap, f: F.Frames, off: nat, n: nat, k: nat, r: Outcome, s: nat)
    requires 0 < k
  {
    var base := s * PAGE + off;
    && F.FreeRun(f.bits, s, k) && (forall q {:trigger F.FreeRun(f.bits, q, k)} :: 0 <= q < s ==> !F.FreeRun(f.bits, q, k))
    && r.ptr == base + HEADER && r.frames.bits == F.SetRange(f.bits, s, k)
    && r.heap.segs == h.segs[base := k * PAGE] && base !in h.segs && base !in h.blocks
    && Taken(AddSegment(h, base, k * PAGE), r.heap, base, n)
  }

  lemma TakeTaken(h: Heap, c: nat, n: nat)
    requires FreeOk(h) && Shape(h) && c in h.free && n <= h.blocks[c].size
    ensures Taken(h, Take(h, c, n), c, n)
  {
    SplitFreshIf(h, c, n);
    if n + 80 <= h.blocks[c].size {
      var rest := c + HEADER + n;
      WithoutCons(rest, h.free, c);
    }
  }

  lemma WithoutCons(x: nat, s: seq<nat>, a: nat)
    requires a in s && x != a
    ensures Without([x] + s, a) == [x] + Without(s, a)
  {
    assert ([x] + s)[1..] == s;
    assert IndexOf([x] + s, a) == IndexOf(s, a) + 1;
  }

  lemma FitExactly(h: Heap, f: F.Frames, off: nat, n: nat)
    requires Ready(h, f, off) && FirstFit(h, n, 0) < |h.free|
    ensures MallocRounded(h, f, off, n).ptr != 0 && !NoFit(h, n)
    ensures ServedByFit(h, f, n, MallocRounded(h, f, off, n), FirstFit(h, n, 0))
  {
    hide Take, Taken, Accounts, Coalesced, Backed, Rounded, F.Inv, F.ZeroTaken, F.AllocContiguous;
    var i := FirstFit(h, n, 0);
    assert h.free[i] in h.free;
    TakeTaken(h, h.free[i], n);
    TakeSegs(h, h.free[i], n);
  }

  lemma GrowthExactly(h: Heap, f: F.Frames, off: nat, n: nat)
    requires Ready(h, f, off) && n % 8 == 0 && FirstFit(h, n, 0) == |h.free|
    ensures NoFit(h, n)
    ensures var k := PagesFor(n);
            var r := MallocRounded(h, f, off, n);
            && (r.ptr == 0 <==> NoRun(f.bits, k))
            && (r.ptr != 0 ==> exists s: nat :: ServedByGrowth(h, f, off, n, k, r, s))
  {
    hide Take, Taken, Accounts, Coalesced, Backed, Rounded, F.Inv, F.ZeroTaken, F.AllocContiguous, PagesFor, F.FreeRun, F.SetRange, SegClear, Clear;
    forall a | a in h.free ensures h.blocks[a].size < n {
      var j :| 0 <= j < |h.free| && h.free[j] == a;
    }
    var k := PagesFor(n);
    F.AllocContiguousTakes(f, k);
    var (f', pa) := F.AllocContiguous(f, k);
    if pa != 0 {
      var s, base := pa / PAGE, pa + off;
      assert pa == s * PAGE;
      GrowReady(h, f, f', off, pa, k);
      var g := Grown(h, base, k);
      NoDupCons(base, h.free);
      TakeTaken(g, base, n);
      TakeSegs(g, base, n);
      assert base in h.segs ==> SegOk(h.blocks, h.segs, base);
      assert ServedByGrowth(h, f, off, n, k, MallocRounded(h, f, off, n), s);
    }
  }

  /** `kmalloc` of `size > 0` bytes, that is `n` bytes after rounding up to 8, in segments of `k` pages, the
      least number that holds a header and `n` bytes: it fails exactly when no free block holds `n` bytes
      and no `k` consecutive frames are free; the first free block that fits is used, without touching the
      frame allocator; otherwise the heap grows by the lowest run of `k` free frames. */
  lemma MallocExactly(h: Heap, f: F.Frames, off: nat, size: nat, n: nat, k: nat)
    requires Ready(h, f, off) && 0 < size <= MAX_REQUEST
    requires n % 8 == 0 && size <= n < size + 8 && LeastPages(n, k)
    ensures var r := Malloc(h, f, off, size);
            && (r.ptr == 0 <==> NoFit(h, n) && NoRun(f.bits, k))
            && (!NoFit(h, n) ==> exists i: nat :: ServedByFit(h, f, n, r, i))
            && (NoFit(h, n) && r.ptr != 0 ==> exists s: nat :: ServedByGrowth(h, f, off, n, k, r, s))
  {
    hide MallocRounded, Ready, ServedByFit, ServedByGrowth, NoRun, NoFit, PagesFor;
    RoundedIs(size, n);
    PagesUnique(n, k, PagesFor(n));
    assert FreeOk(h) by { ReadyFree(h, f, off); }
    if FirstFit(h, n, 0) < |h.free| {
      FitExactly(h, f, off, n);
    } else {
      GrowthExactly(h, f, off, n);
    }
  }

  lemma ReadyFree(h: Heap, f: F.Frames, off: nat)
    requires Ready(h, f, off)
    ensures FreeOk(h)
  {
  }

  lemma RoundedIs(size: nat, n: nat)
    requires 0 < size <= MAX_REQUEST && n % 8 == 0 && size <= n < size + 8
    ensures AlignUp(size, 8) == n
  {
    AlignUpExact(size);
    RoundedTo8(size);
  }

  lemma PagesUnique(n: nat, p: nat, q: nat)
    requires LeastPages(n, p) && LeastPages(n, q)
    ensures p == q
  {
  }
}
