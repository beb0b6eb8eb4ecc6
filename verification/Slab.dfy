/** The slab allocator as the kernel runs it: free lists threaded through the free chunks, in the
    memory that also holds the data of the live ones. */
module SlabAllocator {
  import opened Bitmap
  import opened Memory
  import F = Frames
  import opened PhysicalMemory
  import M = SlabModel
  import opened Sums

  datatype Zone = Zone(freeList: nat, chunkSize: nat, allocCount: nat)

  function At(s: seq<nat>, i: nat): nat {
    if i < |s| then s[i] else 0
  }

  /** The first word of the `i`-th chunk leads to the next one. */
  predicate LinkAt(m: Cells, free: seq<nat>, i: nat)
    requires i < |free|
  {
    HasWord(m, free[i], At(free, i + 1))
  }

  /** The words of the listed chunks lead from each to the next, and from the last to null. */
  ghost predicate Listed(m: Cells, head: nat, free: seq<nat>) {
    && head == At(free, 0) && 0 !in free
    && forall i: nat {:trigger LinkAt(m, free, i)} :: i < |free| ==> LinkAt(m, free, i)
  }

  /** A list whose words are unchanged is intact. */
  lemma ListedFrame(m: Cells, n: Cells, head: nat, free: seq<nat>)
    requires Listed(m, head, free) && forall c {:trigger c in free} :: c in free ==> SameRange(m, n, c, 8)
    ensures Listed(n, head, free)
  {
    hide HasWord;
    forall i: nat | i < |free| ensures LinkAt(n, free, i) {
      assert LinkAt(m, free, i) && free[i] in free;
      WordKept(m, n, free[i], At(free, i + 1));
    }
  }

  lemma LinkFront(m: Cells, head: nat, free: seq<nat>, c: nat)
    requires Listed(m, head, free) && c !in free && c != 0 && HasWord(m, c, head)
    ensures Listed(m, c, [c] + free)
  {
    hide HasWord;
    var list := [c] + free;
    forall i: nat | i < |list| ensures LinkAt(m, list, i) {
      if i > 0 { assert LinkAt(m, free, i - 1); }
    }
  }

  lemma ListedNull(m: Cells, head: nat, free: seq<nat>)
    requires Listed(m, head, free)
    ensures head == 0 <==> free == []
  {
  }

  lemma ListedTail(m: Cells, free: seq<nat>)
    requires free != [] && Listed(m, free[0], free)
    ensures Load(m, free[0]) == At(free, 1) && Listed(m, At(free, 1), free[1..])
  {
    hide HasWord;
    assert LinkAt(m, free, 0);
    LoadWord(m, free[0], At(free, 1));
    var rest := free[1..];
    forall i: nat | i < |rest| ensures LinkAt(m, rest, i) {
      assert LinkAt(m, free, i + 1);
    }
  }

  lemma SizeAtLeast16(z: nat)
    requires z < M.ZONES
    ensures 16 <= M.ChunkSize(z) <= M.PAGE
  {
  }

  /** A change inside the chunk `c` leaves any other chunk as it is. */
  lemma OtherChunk(s: M.Slab, f: F.Frames, z: nat, c: nat, y: nat, d: nat, m: Cells, n: Cells, x: nat, len: nat)
    requires M.Inv(s, f) && z < M.ZONES && y < M.ZONES && M.Chunk(s, z, c) && M.Chunk(s, y, d) && c != d
    requires Changes(m, n, x, len) && c <= x && x + len <= c + M.ChunkSize(z)
    ensures SameRange(m, n, d, M.ChunkSize(y))
  {
    if c < d { M.ChunksApart(s, f, z, c, y, d); } else { M.ChunksApart(s, f, y, d, z, c); }
  }

  /** A change inside a chunk that is on no free list keeps the free list of zone `y`. */
  lemma ListAfterChange(s: M.Slab, f: F.Frames, z: nat, c: nat, y: nat, m: Cells, n: Cells, x: nat, len: nat, head: nat)
    requires M.Inv(s, f) && z < M.ZONES && y < M.ZONES && M.Chunk(s, z, c) && c !in s.free[y]
    requires Changes(m, n, x, len) && c <= x && x + len <= c + M.ChunkSize(z) && Listed(m, head, s.free[y])
    ensures Listed(n, head, s.free[y])
  {
    assert M.ZoneOk(s, y);
    SizeAtLeast16(y);
    forall d | d in s.free[y] ensures SameRange(m, n, d, 8) {
      OtherChunk(s, f, z, c, y, d, m, n, x, len);
    }
    ListedFrame(m, n, head, s.free[y]);
  }

  /** A page that belongs to no zone meets no chunk. */
  lemma PageApart(s: M.Slab, f: F.Frames, base: nat, y: nat, d: nat)
    requires M.Inv(s, f) && y < M.ZONES && M.Chunk(s, y, d)
    requires s.off < base && (base - s.off) % M.PAGE == 0 && base !in s.pages
    ensures d + M.ChunkSize(y) <= base || base + M.PAGE <= d
  {
    M.SizeDivides(y, (d - s.off) % M.PAGE);
    M.PageRange(s.off, base, d);
    if d < base { M.PagesApart(s.off, d, base); }
  }

  lemma ListAfterFresh(s: M.Slab, f: F.Frames, base: nat, y: nat, m: Cells, n: Cells, head: nat)
    requires M.Inv(s, f) && y < M.ZONES && s.off < base && (base - s.off) % M.PAGE == 0 && base !in s.pages
    requires Changes(m, n, base, M.PAGE) && Listed(m, head, s.free[y])
    ensures Listed(n, head, s.free[y])
  {
    assert M.ZoneOk(s, y);
    SizeAtLeast16(y);
    forall d | d in s.free[y] ensures SameRange(m, n, d, 8) {
      PageApart(s, f, base, y, d);
    }
    ListedFrame(m, n, head, s.free[y]);
  }

  // ----- what the allocator's own stores leave alone -----

  /** The byte lies in a page that `t` has and `s` had not. */
  ghost predicate InNewPage(s: M.Slab, t: M.Slab, x: nat) {
    exists p :: p in t.pages && p !in s.pages && p <= x < p + M.PAGE
  }

  ghost predicate OnlyNewPages(s: M.Slab, t: M.Slab, m: Cells, n: Cells) {
    forall x: nat {:trigger SameByte(m, n, x)} :: SameByte(m, n, x) || InNewPage(s, t, x)
  }

  /** The chunks that stay live keep their contents. */
  ghost predicate KeepsChunks(s: M.Slab, t: M.Slab, m: Cells, n: Cells)
    requires |s.live| == |t.live| == M.ZONES
  {
    forall z: nat, c {:trigger c in s.live[z]} :: z < M.ZONES && c in s.live[z] && c in t.live[z] ==> SameRange(m, n, c, M.ChunkSize(z))
  }

  /** `zalloc` stores into fresh pages only, and so into no live chunk. */
  lemma ZallocKeepsBytes(s: M.Slab, f: F.Frames, t: M.Slab, f': F.Frames, m: Cells, n: Cells)
    requires M.Inv(s, f) && M.Inv(t, f') && s.off == t.off && OnlyNewPages(s, t, m, n)
    ensures KeepsChunks(s, t, m, n)
  {
    forall z: nat, c | z < M.ZONES && c in s.live[z] && c in t.live[z] ensures SameRange(m, n, c, M.ChunkSize(z)) {
      assert M.ZoneOk(s, z);
      assert M.Chunk(s, z, c);
      forall x: nat | c <= x < c + M.ChunkSize(z) ensures SameByte(m, n, x) {
        if p :| p in t.pages && p !in s.pages && p <= x < p + M.PAGE {
          assert M.PageOk(t, f'.bits, p);
          PageApart(s, f, p, z, c);
          assert false;
        }
        assert SameByte(m, n, x) || InNewPage(s, t, x);
      }
    }
  }

  /** `zfree` stores into the freed chunk only. */
  lemma ZfreeKeepsBytes(s: M.Slab, f: F.Frames, ptr: nat, size: nat, m: Cells, n: Cells)
    requires M.Inv(s, f) && ptr != 0 && size > 0 && M.ZoneFor(size, 0) < M.ZONES && ptr in s.live[M.ZoneFor(size, 0)]
    requires Changes(m, n, ptr, 8)
    ensures |M.Zfree(s, ptr, size).live| == M.ZONES && KeepsChunks(s, M.Zfree(s, ptr, size), m, n)
  {
    var z, t := M.ZoneFor(size, 0), M.Zfree(s, ptr, size);
    SizeAtLeast16(z);
    assert M.ZoneOk(s, z);
    assert M.Chunk(s, z, ptr);
    forall y: nat, c | y < M.ZONES && c in s.live[y] && c in t.live[y] ensures SameRange(m, n, c, M.ChunkSize(y)) {
      assert M.ZoneOk(s, y);
      assert M.Chunk(s, y, c);
      assert c != ptr;
      OtherChunk(s, f, z, ptr, y, c, m, n, ptr, 8);
    }
  }

  class Zones {
    const ram: Ram
    const zones: array<Zone>
    const physOffset: nat
    const pmm: Pmm
    ghost var view: M.Slab

    ghost predicate ZoneTied(z: nat)
      requires zones.Length == M.ZONES && z < M.ZONES
      requires |view.free| == |view.counts| == M.ZONES
      reads this, ram, zones
    {
      && zones[z].chunkSize == M.ChunkSize(z) && zones[z].allocCount == view.counts[z]
      && Listed(ram.cells, zones[z].freeList, view.free[z])
    }

    ghost predicate Tied()
      reads this, ram, zones
    {
      && zones.Length == M.ZONES && |view.free| == |view.counts| == M.ZONES
      && forall z: nat {:trigger ZoneTied(z)} :: z < M.ZONES ==> ZoneTied(z)
    }

    ghost predicate Valid()
      reads this, ram, zones, pmm, pmm.bitmap
    {
      pmm.Valid() && M.Inv(view, pmm.Abs()) && view.off == physOffset && Tied()
    }

    /** `slab_init`. */
    constructor (pmm: Pmm, ram: Ram, offset: nat)
      requires pmm.Valid() && F.ZeroTaken(pmm.Abs())
      ensures Valid() && this.pmm == pmm && this.ram == ram && physOffset == offset && view == M.Empty(offset) && fresh(zones)
    {
      this.pmm := pmm;
      this.ram := ram;
      physOffset := offset;
      zones := new Zone[M.ZONES](i requires 0 <= i < M.ZONES => Zone(0, M.ChunkSize(i), 0));
      view := M.Empty(offset);
      new;
      M.EmptyInv(pmm.Abs(), offset);
    }

    method SizeToZoneIndex(size: nat) returns (idx: int)
      requires zones.Length == M.ZONES
      ensures idx == if M.ZoneFor(size, 0) == M.ZONES then -1 else M.ZoneFor(size, 0)
    {
      for i := 0 to M.ZONES
        invariant M.ZoneFor(size, 0) == M.ZoneFor(size, i)
      {
        if size <= M.ChunkSize(i) {
          return i;
        }
      }
      return -1;
    }

    /** A client stores one byte into its chunk: every free list stays as it is. */
    method WriteByte(x: nat, b: Byte, ghost z: nat, ghost c: nat)
      requires Valid() && z < M.ZONES && c in view.live[z] && c <= x < c + M.ChunkSize(z)
      modifies ram
      ensures Valid() && ram.cells == old(ram.cells)[x := Data(b)]
    {
      hide HasWord, Listed, F.Inv;
      assert M.ZoneOk(view, z);
      assert M.Chunk(view, z, c);
      ghost var m := ram.cells;
      ram.StoreByte(x, b);
      forall y: nat | y < M.ZONES ensures ZoneTied(y) {
        assert old(ZoneTied(y)) && M.ZoneOk(view, y);
        M.NotFree(view, pmm.Abs(), z, c, y);
        ListAfterChange(view, pmm.Abs(), z, c, y, m, ram.cells, x, 1, zones[y].freeList);
      }
    }

    /** `zone_refill`: a fresh frame, cut into chunks that are pushed one by one. */
    method ZoneRefill(z: nat)
      requires Valid() && z < M.ZONES && view.free[z] == []
      modifies ram, this`view, zones, pmm`usedFrames, pmm`allocHint, pmm.bitmap
      ensures Valid()
      ensures var (f, pa) := F.AllocFrame(old(pmm.Abs()));
              && pmm.Abs() == f
              && view == if pa == 0 then old(view) else M.Refill(old(view), z, pa + physOffset)
      ensures OnlyNewPages(old(view), view, old(ram.cells), ram.cells)
    {
      hide F.Inv, F.AllocFrame, M.ZoneOk, Listed;
      ghost var s, f := view, pmm.Abs();
      M.RefillInv(s, f, z);
      F.AllocFrameTakes(f);
      var pa := pmm.AllocFrame();
      forall y: nat | y < M.ZONES ensures ZoneTied(y) { assert old(ZoneTied(y)); }
      if pa == 0 {
        return;
      }
      var base := pa + physOffset;
      var head := CarvePage(z, base, f);
      label Carved:
      zones[z] := zones[z].(freeList := head, allocCount := zones[z].allocCount + 1);
      view := M.Refill(view, z, base);
      assert view.free[z] == M.Carve(base, M.ChunkSize(z), M.PAGE / M.ChunkSize(z));
      forall y: nat | y < M.ZONES ensures ZoneTied(y) { assert old@Carved(ZoneTied(y)); }
      assert base in view.pages;
    }

    /** The carving loop: links the chunks of the page at `base` in front of the empty list of `z`. */
    method CarvePage(z: nat, base: nat, ghost f: F.Frames) returns (head: nat)
      requires zones.Length == M.ZONES && z < M.ZONES && M.Inv(view, f) && view.free[z] == []
      requires view.off < base && (base - view.off) % M.PAGE == 0 && base !in view.pages
      requires forall y: nat {:trigger ZoneTied(y)} :: y < M.ZONES ==> ZoneTied(y)
      modifies ram
      ensures Listed(ram.cells, head, M.Carve(base, M.ChunkSize(z), M.PAGE / M.ChunkSize(z)))
      ensures forall y: nat {:trigger ZoneTied(y)} :: y < M.ZONES ==> ZoneTied(y)
      ensures Changes(old(ram.cells), ram.cells, base, M.PAGE)
    {
      hide HasWord, StoreWord, Listed, F.Inv;
      assert ZoneTied(z);
      var size := zones[z].chunkSize;
      var chunksPerPage := M.PAGE / size;
      head := zones[z].freeList;
      SizeAtLeast16(z);
      ghost var m := ram.cells;
      CarveStart(m, head, view.free[z], base, size);
      for i := 0 to chunksPerPage
        invariant Listed(ram.cells, head, M.Carve(base, size, i)) && Changes(m, ram.cells, base, M.PAGE)
      {
        var c := base + i * size;
        ghost var before := ram.cells;
        M.CarveInPage(z, base, i);
        ram.Store(c, head);
        CarveNext(before, ram.cells, head, M.Carve(base, size, i), c, size);
        ChangesTrans(m, before, ram.cells, base, M.PAGE, c, 8);
        head := c;
      }
      forall y: nat | y < M.ZONES ensures ZoneTied(y) {
        assert old(ZoneTied(y));
        ListAfterFresh(view, f, base, y, m, ram.cells, zones[y].freeList);
      }
    }

    /** The refill check of `zalloc`. */
    method Stock(z: nat)
      requires Valid() && z < M.ZONES
      modifies ram, this`view, zones, pmm`usedFrames, pmm`allocHint, pmm.bitmap
      ensures Valid() && (view, pmm.Abs()) == M.Stock(old(view), old(pmm.Abs()), z)
      ensures OnlyNewPages(old(view), view, old(ram.cells), ram.cells)
    {
      hide Listed;
      assert ZoneTied(z);
      ListedNull(ram.cells, zones[z].freeList, view.free[z]);
      if zones[z].freeList == 0 {
        ZoneRefill(z);
      }
    }

    /** The end of `zalloc`: takes the head of a non-empty list. */
    method PopHead(z: nat) returns (c: nat)
      requires Valid() && z < M.ZONES && view.free[z] != []
      modifies this`view, zones
      ensures Valid() && view == M.Pop(old(view), z) && c == old(view.free[z][0])
    {
      hide HasWord, LinkAt;
      assert ZoneTied(z);
      ghost var s := view;
      M.PopInv(s, pmm.Abs(), z);
      c := zones[z].freeList;
      assert c == s.free[z][0];
      ListedTail(ram.cells, s.free[z]);
      zones[z] := zones[z].(freeList := Load(ram.cells, c));
      view := M.Pop(view, z);
      forall y: nat | y < M.ZONES ensures ZoneTied(y) { assert old(ZoneTied(y)); }
    }

    /** `zalloc`. */
    method Zalloc(size: nat) returns (ptr: nat)
      requires Valid()
      modifies ram, this`view, zones, pmm`usedFrames, pmm`allocHint, pmm.bitmap
      ensures Valid() && M.Outcome(view, pmm.Abs(), ptr) == M.Zalloc(old(view), old(pmm.Abs()), size)
      ensures OnlyNewPages(old(view), view, old(ram.cells), ram.cells)
      ensures KeepsChunks(old(view), view, old(ram.cells), ram.cells)
    {
      hide M.ZoneOk, F.Inv, M.Stock, Listed, KeepsChunks;
      ghost var s, f, m := view, pmm.Abs(), ram.cells;
      ZallocKeepsBytes(s, f, s, f, m, m);
      if size == 0 {
        return 0;
      }
      var idx := SizeToZoneIndex(size);
      if idx < 0 {
        return 0;
      }
      M.StockInv(view, pmm.Abs(), idx);
      Stock(idx);
      assert ZoneTied(idx);
      ListedNull(ram.cells, zones[idx].freeList, view.free[idx]);
      if zones[idx].freeList == 0 {
        ZallocKeepsBytes(s, f, view, pmm.Abs(), m, ram.cells);
        return 0;
      }
      ptr := PopHead(idx);
      ZallocKeepsBytes(s, f, view, pmm.Abs(), m, ram.cells);
    }

    /** `zfree`, for a chunk that is live in the zone of `size`. */
    method Zfree(ptr: nat, size: nat)
      requires Valid()
      requires ptr != 0 && size > 0 && M.ZoneFor(size, 0) < M.ZONES ==> ptr in view.live[M.ZoneFor(size, 0)]
      modifies ram, this`view, zones
      ensures Valid() && view == M.Zfree(old(view), ptr, size)
      ensures if ptr == 0 || size == 0 || M.ZoneFor(size, 0) == M.ZONES then ram.cells == old(ram.cells)
              else Changes(old(ram.cells), ram.cells, ptr, 8)
      ensures KeepsChunks(old(view), view, old(ram.cells), ram.cells)
    {
      hide HasWord, StoreWord, Listed, F.Inv, KeepsChunks;
      ghost var s, m := view, ram.cells;
      ZallocKeepsBytes(s, pmm.Abs(), s, pmm.Abs(), m, m);
      if ptr == 0 || size == 0 {
        return;
      }
      var idx := SizeToZoneIndex(size);
      if idx < 0 {
        return;
      }
      M.ZfreeInv(view, pmm.Abs(), ptr, size);
      var z := zones[idx];
      assert M.ZoneOk(s, idx);
      SizeAtLeast16(idx);
      ram.Store(ptr, z.freeList);
      ZfreeKeepsBytes(s, pmm.Abs(), ptr, size, m, ram.cells);
      zones[idx] := z.(freeList := ptr);
      view := M.Zfree(view, ptr, size);
      forall y: nat | y < M.ZONES ensures ZoneTied(y) {
        assert old(ZoneTied(y));
        M.NotFree(s, pmm.Abs(), idx, ptr, y);
        ListAfterChange(s, pmm.Abs(), idx, ptr, y, m, ram.cells, ptr, 8, old(zones[y].freeList));
        if y == idx { LinkFront(ram.cells, z.freeList, s.free[y], ptr); }
      }
    }
  }

  lemma CarveStart(m: Cells, head: nat, free: seq<nat>, base: nat, size: nat)
    requires Listed(m, head, free) && free == []
    ensures Listed(m, head, M.Carve(base, size, 0)) && Changes(m, m, base, M.PAGE)
  {
  }

  /** One turn of the carving loop: the next chunk, linked to the list so far. */
  lemma CarveNext(m: Cells, n: Cells, head: nat, list: seq<nat>, c: nat, size: nat)
    requires Listed(m, head, list) && Changes(m, n, c, 8) && HasWord(n, c, head) && 8 <= size && c != 0
    requires forall d {:trigger d in list} :: d in list ==> d + size <= c
    ensures Listed(n, c, [c] + list)
  {
    ListedFrame(m, n, head, list);
    LinkFront(n, head, list, c);
  }
}
