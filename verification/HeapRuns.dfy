/** `kfree` and `krealloc`, whole runs of the heap, and what the invariant says about memory. */
module HeapRuns {
  import F = Frames
  import D = Division
  import opened HeapModel
  import opened HeapSteps
  import opened HeapOps
  import opened Sums

  // ----- kfree -----

  function MergeRight(h: Heap, a: nat): Heap
    requires a in h.blocks && FreeOk(h)
  {
    var n := h.blocks[a].next;
    if n != 0 && n in h.blocks && !h.blocks[n].used then
      assert n in h.free;
      Merge(h, a)
    else h
  }

  function MergeLeft(h: Heap, a: nat): Heap
    requires a in h.blocks && FreeOk(h) && !h.blocks[a].used
  {
    var p := h.blocks[a].prev;
    if p != 0 && p in h.blocks && h.blocks[p].next == a && !h.blocks[p].used then
      assert a in h.free;
      Merge(h, p)
    else h
  }

  /** Free pairs of neighbours involve `a` only. */
  ghost predicate PairsAt(h: Heap, a: nat) {
    forall x {:trigger FreePair(h.blocks, x)} :: x in h.blocks && FreePair(h.blocks, x) ==> x == a || h.blocks[x].next == a
  }

  lemma ReleasePairs(h: Heap, a: nat)
    requires Inv(h) && a in Live(h) && h.blocks[a].size <= h.usedBytes
    ensures PairsAt(Release(h, a), a)
  {
    var g := Release(h, a);
    forall x | x in g.blocks && FreePair(g.blocks, x) ensures x == a || g.blocks[x].next == a {
      assert !FreePair(h.blocks, x);
    }
  }

  /** What the block `a` may look like between the steps of `kfree`. */
  ghost predicate Freeing(h: Heap, a: nat) {
    Sound(h) && Rounded(h) && a in h.blocks && !h.blocks[a].used && PairsAt(h, a)
  }

  lemma MergeRounded(h: Heap, a: nat)
    requires Rounded(h) && CanMerge(h, a)
    ensures Rounded(Merge(h, a))
  {
    assert BlockOk(h.blocks, h.segs, a);
  }

  lemma MergeRightPairs(h: Heap, a: nat)
    requires Freeing(h, a)
    ensures var g := MergeRight(h, a);
            a in g.blocks && !g.blocks[a].used && PairsAt(g, a) && !FreePair(g.blocks, a)
  {
    var g := MergeRight(h, a);
    var n := h.blocks[a].next;
    assert BlockOk(h.blocks, h.segs, a);
    if FreePair(h.blocks, a) {
      assert BlockOk(h.blocks, h.segs, n);
      assert !FreePair(h.blocks, n);
      forall x | x in g.blocks && FreePair(g.blocks, x) ensures x == a || g.blocks[x].next == a {
        assert BlockOk(h.blocks, h.segs, x);
        assert FreePair(h.blocks, x) || x == a;
      }
    }
  }

  lemma MergeRightFreeing(h: Heap, a: nat)
    requires Freeing(h, a)
    ensures var g := MergeRight(h, a);
            Freeing(g, a) && !FreePair(g.blocks, a) && SameLive(h, g) && g.segs == h.segs
  {
    assert BlockOk(h.blocks, h.segs, a);
    assert a in h.free;
    if FreePair(h.blocks, a) {
      MergeSound(h, a);
      MergeRounded(h, a);
    }
    MergeRightPairs(h, a);
  }

  lemma MergeLeftCoalesced(h: Heap, a: nat)
    requires Freeing(h, a) && !FreePair(h.blocks, a)
    ensures Coalesced(MergeLeft(h, a))
  {
    var g := MergeLeft(h, a);
    var p := h.blocks[a].prev;
    assert BlockOk(h.blocks, h.segs, a);
    forall x | x in g.blocks ensures !FreePair(g.blocks, x) {
      assert BlockOk(h.blocks, h.segs, x);
      assert FreePair(h.blocks, x) ==> x == p;
    }
  }

  lemma MergeLeftInv(h: Heap, a: nat)
    requires Freeing(h, a) && !FreePair(h.blocks, a)
    ensures var g := MergeLeft(h, a);
            Inv(g) && Rounded(g) && SameLive(h, g) && g.segs == h.segs
  {
    var p := h.blocks[a].prev;
    assert BlockOk(h.blocks, h.segs, a);
    assert a in h.free;
    if p != 0 && p in h.blocks && h.blocks[p].next == a && !h.blocks[p].used {
      assert p in h.free;
      MergeSound(h, p);
      MergeRounded(h, p);
    }
    MergeLeftCoalesced(h, a);
  }

  lemma ReleaseFreeing(h: Heap, a: nat)
    requires Inv(h) && Rounded(h) && a in Live(h)
    ensures h.blocks[a].size <= h.usedBytes
    ensures Freeing(Release(h, a), a)
    ensures Live(Release(h, a)) == Live(h) - {a} && Keeps(h, Release(h, a), Live(h) - {a})
  {
    UsedCovers(h, a);
    ReleaseSound(h, a);
    ReleasePairs(h, a);
  }

  /** `kfree` of the block at `a`; a block that is already free stays as it is. */
  function FreeBlock(h: Heap, a: nat): Heap
    requires Inv(h) && Rounded(h) && a in h.blocks
  {
    if !h.blocks[a].used then h else
    ReleaseFreeing(h, a);
    MergeRightFreeing(Release(h, a), a);
    MergeLeft(MergeRight(Release(h, a), a), a)
  }

  /** `kfree` removes exactly the block `a` from the live blocks, and coalesces fully. */
  lemma FreeInv(h: Heap, a: nat)
    requires Inv(h) && Rounded(h) && a in h.blocks
    ensures var g := FreeBlock(h, a);
            && Inv(g) && Rounded(g) && g.segs == h.segs
            && Live(g) == Live(h) - {a} && Keeps(h, g, Live(h) - {a})
            && (a !in Live(h) ==> g == h)
  {
    if h.blocks[a].used {
      ReleaseFreeing(h, a);
      var r := Release(h, a);
      MergeRightFreeing(r, a);
      MergeLeftInv(MergeRight(r, a), a);
    }
  }

  /** The place of the freed block: with a free left neighbour that block grows and keeps its place in the
      free list; otherwise the freed block is listed first. A free right neighbour is absorbed and leaves
      the list. */
  lemma FreePlace(h: Heap, a: nat)
    requires Inv(h) && Rounded(h) && a in Live(h)
    ensures var b := h.blocks[a];
            var right := b.next != 0 && b.next in h.blocks && !h.blocks[b.next].used;
            var left := b.prev != 0 && b.prev in h.blocks && !h.blocks[b.prev].used;
            var listed := if right && b.next in h.free then Without(h.free, b.next) else h.free;
            var g, c := FreeBlock(h, a), if left then b.prev else a;
            && (right ==> b.next in h.free)
            && g.free == (if left then listed else [a] + listed)
            && c in g.blocks && !g.blocks[c].used
            && g.blocks[c].size == b.size + (if right then HEADER + h.blocks[b.next].size else 0)
                                          + (if left then HEADER + h.blocks[b.prev].size else 0)
  {
    hide Accounts, Coalesced;
    ReleaseFreeing(h, a);
    var r := Release(h, a);
    MergeRightFreeing(r, a);
    assert BlockOk(h.blocks, h.segs, a);
    var b := h.blocks[a];
    var right := b.next != 0 && !h.blocks[b.next].used;
    var left := b.prev != 0 && !h.blocks[b.prev].used;
    if right {
      assert b.next in h.free;
      WithoutCons(a, h.free, b.next);
    }
    var listed := if right then Without(h.free, b.next) else h.free;
    var q := MergeRight(r, a);
    assert q.free == [a] + listed;
    if left {
      assert BlockOk(h.blocks, h.segs, b.prev);
      assert q.blocks[b.prev].next == a;
      WithoutFirst(a, listed);
    }
  }

  lemma WithoutFirst(a: nat, free: seq<nat>)
    ensures Without([a] + free, a) == free
  {
    assert IndexOf([a] + free, a) == 0;
  }

  // ----- runs -----

  /** The heap together with the frame allocator it grows from. */
  datatype System = System(heap: Heap, frames: F.Frames, off: nat)

  ghost predicate Good(s: System) {
    Ready(s.heap, s.frames, s.off)
  }

  function Updated(s: System, r: Outcome): System {
    s.(heap := r.heap, frames := r.frames)
  }

  /** `kfree`; the null pointer is ignored. */
  function Kfree(s: System, ptr: nat): System
    requires Good(s) && (ptr != 0 ==> ptr >= HEADER && ptr - HEADER in s.heap.blocks)
  {
    if ptr == 0 then s else s.(heap := FreeBlock(s.heap, ptr - HEADER))
  }

  lemma KfreeGood(s: System, ptr: nat)
    requires Good(s) && (ptr != 0 ==> ptr >= HEADER && ptr - HEADER in s.heap.blocks)
    ensures Good(Kfree(s, ptr))
  {
    if ptr != 0 { FreeInv(s.heap, ptr - HEADER); }
  }

  /** The growing case of `krealloc`: a new block, then the old one is freed. */
  function Moved(s: System, blk: nat, n: nat): (System, nat)
    requires Good(s) && blk in Live(s.heap) && n % 8 == 0
  {
    MallocRoundedOk(s.heap, s.frames, s.off, n);
    var r := MallocRounded(s.heap, s.frames, s.off, n);
    if r.ptr == 0 then (s, 0) else (Kfree(Updated(s, r), blk + HEADER), r.ptr)
  }

  lemma MovedGood(s: System, blk: nat, n: nat)
    requires Good(s) && blk in Live(s.heap) && n % 8 == 0
    ensures Good(Moved(s, blk, n).0)
  {
    MallocRoundedOk(s.heap, s.frames, s.off, n);
    var r := MallocRounded(s.heap, s.frames, s.off, n);
    if r.ptr != 0 { KfreeGood(Updated(s, r), blk + HEADER); }
  }

  /** `krealloc`: the new state and the pointer it returns. */
  function Krealloc(s: System, ptr: nat, newSize: nat): (System, nat)
    requires Good(s) && newSize <= MAX_REQUEST
    requires ptr != 0 ==> ptr >= HEADER && ptr - HEADER in Live(s.heap)
  {
    if ptr == 0 then
      var r := Malloc(s.heap, s.frames, s.off, newSize);
      (Updated(s, r), r.ptr)
    else if newSize == 0 then (Kfree(s, ptr), 0)
    else if AlignUp(newSize, 8) <= s.heap.blocks[ptr - HEADER].size then (s, ptr)
    else Moved(s, ptr - HEADER, AlignUp(newSize, 8))
  }

  /** `krealloc` keeps the invariant; a failed request leaves everything as it was. */
  lemma KreallocGood(s: System, ptr: nat, newSize: nat)
    requires Good(s) && newSize <= MAX_REQUEST
    requires ptr != 0 ==> ptr >= HEADER && ptr - HEADER in Live(s.heap)
    ensures Good(Krealloc(s, ptr, newSize).0)
    ensures newSize > 0 && Krealloc(s, ptr, newSize).1 == 0 ==> Krealloc(s, ptr, newSize).0 == s
  {
    hide AlignUp, Malloc, MallocRounded, FreeBlock;
    RoundedTo8(newSize);
    if ptr == 0 {
      MallocReady(s.heap, s.frames, s.off, newSize);
    } else if newSize == 0 {
      KfreeGood(s, ptr);
    } else if AlignUp(newSize, 8) > s.heap.blocks[ptr - HEADER].size {
      MovedGood(s, ptr - HEADER, AlignUp(newSize, 8));
    }
  }

  /** A successful `krealloc` of a live block yields a live block with room for the request, in place of
      the old one; every other live block stays as it is. */
  lemma KreallocServes(s: System, ptr: nat, newSize: nat)
    requires Good(s) && 0 < newSize <= MAX_REQUEST && ptr >= HEADER && ptr - HEADER in Live(s.heap)
    ensures var (t, p) := Krealloc(s, ptr, newSize);
            p != 0 ==>
              && HEADER <= p && p - HEADER in t.heap.blocks && newSize <= t.heap.blocks[p - HEADER].size
              && Live(t.heap) == Live(s.heap) - {ptr - HEADER} + {p - HEADER}
              && Keeps(s.heap, t.heap, Live(s.heap) - {ptr - HEADER})
  {
    hide AlignUp, Malloc, MallocRounded, FreeBlock, Shape, Accounts, Coalesced, Backed, Rounded, F.Inv;
    RoundedTo8(newSize);
    AlignUpExact(newSize);
    var n, a := AlignUp(newSize, 8), ptr - HEADER;
    if n > s.heap.blocks[a].size {
      MallocRoundedOk(s.heap, s.frames, s.off, n);
      var r := MallocRounded(s.heap, s.frames, s.off, n);
      if r.ptr != 0 {
        FreeInv(r.heap, a);
        var b := r.ptr - HEADER;
        assert Live(s.heap) + {b} - {a} == Live(s.heap) - {a} + {b};
        assert b in Live(r.heap) - {a};
      }
    } else {
      assert Live(s.heap) - {a} + {a} == Live(s.heap);
    }
  }

  /** Exactly what `krealloc` answers, for a request of `n` bytes after rounding in segments of `k` pages: a
      block that already holds the request stays where it is, with its state; the null pointer is a plain
      `kmalloc`; a request for nothing frees the block; and any other request fails exactly when `kmalloc`
      does, for want of a fitting block and of a run of frames. */
  lemma KreallocExactly(s: System, ptr: nat, newSize: nat, n: nat, k: nat)
    requires Good(s) && newSize <= MAX_REQUEST && (ptr != 0 ==> ptr >= HEADER && ptr - HEADER in Live(s.heap))
    requires newSize > 0 ==> n % 8 == 0 && newSize <= n < newSize + 8 && LeastPages(n, k)
    ensures var (t, p) := Krealloc(s, ptr, newSize);
            var r := Malloc(s.heap, s.frames, s.off, newSize);
            && (newSize == 0 ==> p == 0 && t.frames == s.frames && t.heap.segs == s.heap.segs
                                 && Live(t.heap) == Live(s.heap) - (if ptr == 0 then {} else {ptr - HEADER}))
            && (newSize > 0 && ptr != 0 && newSize <= s.heap.blocks[ptr - HEADER].size ==> (t, p) == (s, ptr))
            && (newSize > 0 && (ptr == 0 || newSize > s.heap.blocks[ptr - HEADER].size) ==>
                  && p == r.ptr && (p == 0 <==> NoFit(s.heap, n) && NoRun(s.frames.bits, k))
                  && (p == 0 ==> t == s)
                  && (p != 0 ==> HEADER < p && Served(s.heap, r.heap, p - HEADER, n) && t.frames == r.frames)
                  && (p != 0 && ptr == 0 ==> t.heap == r.heap)
                  && (p != 0 && ptr != 0 ==> t.heap.segs == r.heap.segs && Live(t.heap) == Live(r.heap) - {ptr - HEADER}
                                             && Keeps(r.heap, t.heap, Live(r.heap) - {ptr - HEADER})))
  {
    hide AlignUp, MallocRounded, FreeBlock, Shape, Accounts, Coalesced, Backed, F.Inv, NoFit, NoRun, Served, LeastPages;
    if newSize == 0 {
      if ptr != 0 { FreeInv(s.heap, ptr - HEADER); }
      assert Live(s.heap) - {} == Live(s.heap);
    } else {
      RoundedIs(newSize, n);
      MallocExactly(s.heap, s.frames, s.off, newSize, n, k);
      MallocReady(s.heap, s.frames, s.off, newSize);
      if ptr != 0 {
        var a := ptr - HEADER;
        FitsRounded(s.heap, a, newSize, n);
        var r := MallocRounded(s.heap, s.frames, s.off, n);
        if n > s.heap.blocks[a].size && r.ptr != 0 {
          assert a in Live(r.heap) by { StillLive(s.heap, r.heap, a, r.ptr - HEADER, n); }
          FreeInv(r.heap, a);
        }
      }
    }
  }

  lemma StillLive(h: Heap, g: Heap, a: nat, b: nat, n: nat)
    requires a in Live(h) && Served(h, g, b, n)
    ensures a in Live(g)
  {
  }

  lemma FitsRounded(h: Heap, a: nat, size: nat, n: nat)
    requires Rounded(h) && a in h.blocks && n % 8 == 0 && size <= n < size + 8
    ensures size <= h.blocks[a].size <==> n <= h.blocks[a].size
  {
    assert h.blocks[a].size % 8 == 0;
  }

  datatype Op = OpMalloc(size: nat) | OpFree(ptr: nat) | OpRealloc(ptr: nat, size: nat)

  /** The calls a client may make: requests that do not wrap, frees of known blocks (a second
      free of a block that still has its header included), reallocations of live blocks. */
  predicate Permitted(s: System, op: Op) {
    match op
    case OpMalloc(size) => size <= MAX_REQUEST
    case OpFree(ptr) => ptr != 0 ==> ptr >= HEADER && ptr - HEADER in s.heap.blocks
    case OpRealloc(ptr, size) => size <= MAX_REQUEST && (ptr != 0 ==> ptr >= HEADER && ptr - HEADER in Live(s.heap))
  }

  function Step(s: System, op: Op): (t: System)
    requires Good(s) && Permitted(s, op)
    ensures Good(t)
  {
    match op
    case OpMalloc(size) =>
      MallocReady(s.heap, s.frames, s.off, size);
      Updated(s, Malloc(s.heap, s.frames, s.off, size))
    case OpFree(ptr) => KfreeGood(s, ptr); Kfree(s, ptr)
    case OpRealloc(ptr, size) => KreallocGood(s, ptr, size); Krealloc(s, ptr, size).0
  }

  /** `t` is reached from `s` by a run of permitted calls. */
  ghost predicate Reaches(s: System, ops: seq<Op>, t: System)
    requires Good(s)
    decreases |ops|
  {
    if ops == [] then s == t
    else Permitted(s, ops[0]) && Reaches(Step(s, ops[0]), ops[1..], t)
  }

  /** Every state reached from a freshly initialised heap satisfies the invariant. */
  lemma {:induction false} EveryRunGood(s: System, ops: seq<Op>, t: System)
    requires Good(s) && Reaches(s, ops, t)
    ensures Good(t)
    decreases |ops|
  {
    if ops != [] { EveryRunGood(Step(s, ops[0]), ops[1..], t); }
  }

  lemma InitGood(f: F.Frames, off: nat)
    requires F.Inv(f) && F.ZeroTaken(f)
    ensures Good(System(EMPTY, f, off))
  {
    assert Shape(EMPTY);
  }

  // ----- what the invariant says -----

  predicate Covers(h: Heap, a: nat, x: nat)
    requires a in h.blocks
  {
    a <= x < End(h.blocks, a)
  }

  /** Walking `next` from `a`, the block that covers `x` is found before the segment ends. */
  lemma {:induction false} FindCover(h: Heap, a: nat, x: nat) returns (b: nat)
    requires Shape(h) && a in h.blocks && h.blocks[a].seg in h.segs
    requires a <= x < SegEnd(h.segs, h.blocks[a].seg)
    ensures b in h.blocks && Covers(h, b, x)
    decreases x - a
  {
    assert BlockOk(h.blocks, h.segs, a);
    if x < End(h.blocks, a) {
      b := a;
    } else {
      assert BlockOk(h.blocks, h.segs, h.blocks[a].next);
      b := FindCover(h, h.blocks[a].next, x);
    }
  }

  /** Each byte of a segment lies in exactly one block, header or payload. */
  lemma Tiling(h: Heap, s: nat, x: nat)
    requires Shape(h) && s in h.segs && s <= x < SegEnd(h.segs, s)
    ensures exists b :: b in h.blocks && Covers(h, b, x)
                        && forall c :: c in h.blocks && Covers(h, c, x) ==> c == b
  {
    assert SegOk(h.blocks, h.segs, s);
    var b := FindCover(h, s, x);
    forall c | c in h.blocks && Covers(h, c, x) ensures c == b {
      assert Clear(h.blocks, b, c) && Clear(h.blocks, c, b);
    }
  }

  /** Blocks, and so in particular live payloads and all headers, do not overlap. */
  lemma LivePayloadsApart(h: Heap, a: nat, b: nat)
    requires Shape(h) && a in Live(h) && b in h.blocks && a != b
    ensures End(h.blocks, a) <= b || End(h.blocks, b) <= a
  {
    assert Clear(h.blocks, a, b) && Clear(h.blocks, b, a);
  }

  /** When nothing is live, every segment is a single free block again. */
  lemma AllFreed(h: Heap)
    requires Inv(h) && Live(h) == {}
    ensures h.blocks.Keys == h.segs.Keys
    ensures forall s :: s in h.segs ==> h.blocks[s].size + HEADER == h.segs[s] && !h.blocks[s].used
  {
    forall a | a in h.blocks
      ensures a in h.segs && h.blocks[a].size + HEADER == h.segs[a] && !h.blocks[a].used
    {
      assert a !in Live(h);
      assert BlockOk(h.blocks, h.segs, a) && !FreePair(h.blocks, a);
      var p, n := h.blocks[a].prev, h.blocks[a].next;
      assert n !in Live(h) && p !in Live(h);
      assert p in h.blocks ==> !FreePair(h.blocks, p);
    }
    forall s | s in h.segs ensures s in h.blocks { assert SegOk(h.blocks, h.segs, s); }
  }

  /** `heap_get_used() + heap_get_free() + 48 * blocks` is the memory taken from the frame
      allocator, a whole number of pages. */
  lemma Conservation(h: Heap)
    requires Inv(h)
    ensures h.usedBytes + FreeBytes(h) + HEADER * |h.blocks| == Sum(h.segs, Bytes)
    ensures Sum(h.segs, Bytes) % PAGE == 0
  {
    forall s | s in h.segs ensures h.segs[s] % PAGE == 0 { assert SegOk(h.blocks, h.segs, s); }
    WholePages(h.segs);
  }

  lemma {:induction false} WholePages(segs: map<nat, nat>)
    requires forall s :: s in segs ==> segs[s] % PAGE == 0
    ensures Sum(segs, Bytes) % PAGE == 0
    decreases |segs|
  {
    if segs != map[] {
      var k :| k in segs;
      SumRemove(segs, Bytes, k);
      WholePages(segs - {k});
      hide Sum;
      D.AddMultiples(segs[k], Sum(segs - {k}, Bytes), PAGE);
    }
  }
}
