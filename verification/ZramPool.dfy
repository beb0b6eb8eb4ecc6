/** The zRAM pool: 1024 slots whose compressed pages live in blocks of the kernel heap. */
module ZramPool {
  import opened Bitmap
  import opened Memory
  import opened Options
  import C = ZramCodec
  import X = ZramExact
  import T = ZramTokens
  import ZramPage
  import opened HeapModel
  import HeapSteps
  import HeapOps
  import R = HeapRuns
  import K = KernelHeap

  const MAX_PAGES: nat := 1024
  const ZPAGE: nat := C.PAGE
  const U32: nat := 0x1_0000_0000

  datatype Slot = Slot(data: nat, len: nat, used: bool)

  datatype Stats = Stats(pagesStored: nat, originalBytes: nat, compressedBytes: nat, ratio: nat,
                         totalCompressions: nat, totalDecompressions: nat)

  // ----- the contents of a slot -----

  ghost predicate Holds(mem: Cells, data: nat, len: nat) {
    forall x {:trigger x in mem} :: data <= x < data + len ==> x in mem && mem[x].Data?
  }

  function ByteAt(mem: Cells, x: nat): Byte {
    if x in mem && mem[x].Data? then mem[x].b else 0
  }

  function Payload(mem: Cells, data: nat, len: nat): (p: seq<Byte>)
    ensures |p| == len
  {
    if len == 0 then [] else Payload(mem, data, len - 1) + [ByteAt(mem, data + len - 1)]
  }

  lemma {:induction false} PayloadKept(m: Cells, n: Cells, data: nat, len: nat, size: nat)
    requires Holds(m, data, len) && len <= size && K.SameSpan(m, data, n, data, size)
    ensures Holds(n, data, len) && Payload(n, data, len) == Payload(m, data, len)
  {
    if len > 0 {
      PayloadKept(m, n, data, len - 1, size);
      assert K.SpanByte(m, data, n, data, len - 1);
    }
  }

  /** A used slot points to a live block that holds all its bytes. */
  ghost predicate SlotOk(h: Heap, mem: Cells, s: Slot) {
    s.used ==>
      && HEADER <= s.data && s.data - HEADER in Live(h)
      && 34 <= s.len < ZPAGE - 64 && s.len <= h.blocks[s.data - HEADER].size
      && Holds(mem, s.data, s.len)
  }

  ghost predicate PoolOk(h: Heap, mem: Cells, pool: seq<Slot>) {
    && (forall k {:trigger pool[k]} :: 0 <= k < |pool| ==> SlotOk(h, mem, pool[k]))
    && (forall j, k {:trigger pool[j], pool[k]} :: 0 <= j < k < |pool| && pool[j].used && pool[k].used ==> pool[j].data != pool[k].data)
  }

  /** The pool as a map from handles to encoded pages. */
  ghost function Contents(mem: Cells, s: Slot): Option<seq<Byte>>
  {
    if s.used then Some(Payload(mem, s.data, s.len)) else None
  }

  lemma SlotKept(h: Heap, g: Heap, m: Cells, n: Cells, live: set<nat>, s: Slot)
    requires SlotOk(h, m, s) && HeapSteps.Keeps(h, g, live)
    requires live <= h.blocks.Keys && K.KeepsBytes(h, m, n, live)
    requires s.used ==> s.data - HEADER in live
    ensures SlotOk(g, n, s) && Contents(n, s) == Contents(m, s)
  {
    if s.used {
      var a := s.data - HEADER;
      assert K.SameSpan(m, a + HEADER, n, a + HEADER, h.blocks[a].size);
      PayloadKept(m, n, s.data, s.len, h.blocks[a].size);
    }
  }

  // ----- statistics -----

  function SlotSum(pool: seq<Slot>, w: Slot -> nat): nat {
    if pool == [] then 0 else w(pool[0]) + SlotSum(pool[1..], w)
  }

  lemma {:induction false} SlotSumUpdate(pool: seq<Slot>, w: Slot -> nat, k: nat, s: Slot)
    requires k < |pool|
    ensures SlotSum(pool[k := s], w) + w(pool[k]) == SlotSum(pool, w) + w(s)
  {
    if k == 0 {
      assert pool[k := s][1..] == pool[1..];
    } else {
      SlotSumUpdate(pool[1..], w, k - 1, s);
      assert pool[k := s][1..] == pool[1..][k - 1 := s];
    }
  }

  function Used(s: Slot): nat { if s.used then 1 else 0 }

  function Length(s: Slot): nat { if s.used then s.len else 0 }

  function Ratio(original: nat, compressed: nat): nat {
    if compressed > 0 then original * 100 / compressed else 100
  }

  /** The counters are the count and the sums over the used slots. */
  ghost predicate StatsOk(st: Stats, pool: seq<Slot>) {
    && st.pagesStored == SlotSum(pool, Used)
    && st.originalBytes == ZPAGE * st.pagesStored
    && st.compressedBytes == SlotSum(pool, Length)
    && st.ratio == Ratio(st.originalBytes, st.compressedBytes)
  }

  /** The statistics after a page of `len` encoded bytes is stored. */
  function Stored(st: Stats, len: nat): Stats {
    var original, compressed := st.originalBytes + ZPAGE, st.compressedBytes + len;
    Stats(st.pagesStored + 1, original, compressed,
          if compressed > 0 then original * 100 / compressed else st.ratio,
          (st.totalCompressions + 1) % U32, st.totalDecompressions)
  }

  lemma StoredOk(st: Stats, pool: seq<Slot>, k: nat, s: Slot)
    requires StatsOk(st, pool) && k < |pool| && !pool[k].used && s.used && 0 < s.len
    ensures StatsOk(Stored(st, s.len), pool[k := s])
  {
    SlotSumUpdate(pool, Used, k, s);
    SlotSumUpdate(pool, Length, k, s);
  }

  lemma {:induction false} SumBounds(pool: seq<Slot>)
    requires forall k {:trigger pool[k]} :: 0 <= k < |pool| && pool[k].used ==> 34 <= pool[k].len < ZPAGE - 64
    ensures 34 * SlotSum(pool, Used) <= SlotSum(pool, Length) <= (ZPAGE - 65) * SlotSum(pool, Used)
    ensures SlotSum(pool, Used) <= |pool|
  {
    if pool != [] {
      forall k | 0 <= k < |pool[1..]| && pool[1..][k].used ensures 34 <= pool[1..][k].len < ZPAGE - 64 {
        assert pool[1..][k] == pool[k + 1];
      }
      SumBounds(pool[1..]);
    }
  }

  /** Compression always pays: the ratio is at least 1.01 while anything is stored, the counters fit
      in 32 bits, and the saving that sysmon computes is never negative. */
  lemma SavingsPositive(h: Heap, mem: Cells, pool: seq<Slot>, st: Stats)
    requires PoolOk(h, mem, pool) && StatsOk(st, pool) && |pool| == MAX_PAGES
    ensures st.compressedBytes <= st.originalBytes < U32 && st.ratio < U32
    ensures st.pagesStored > 0 ==> st.ratio >= 101 && st.compressedBytes < st.originalBytes
    ensures st.pagesStored == 0 ==> st.ratio == 100
  {
    SumBounds(pool);
    var o, c := st.originalBytes, st.compressedBytes;
    if c > 0 {
      RatioBounds(o, c, st.pagesStored);
    }
  }

  lemma RatioBounds(o: nat, c: nat, n: nat)
    requires o == ZPAGE * n && 34 * n <= c <= (ZPAGE - 65) * n && 0 < c && n <= MAX_PAGES
    ensures 101 <= o * 100 / c < U32
  {
    assert 101 * c <= o * 100;
    DivAtLeast(o * 100, c, 101);
    assert o * 100 / c <= o * 100;
  }

  lemma DivAtLeast(x: nat, c: nat, q: nat)
    requires 0 < c && q * c <= x
    ensures q <= x / c <= x
  {
    var d, r := x / c, x % c;
    assert x == d * c + r;
    QuotientAtLeast(x, c, d, r, q);
    MulMonotone(1, c, d);
  }

  lemma QuotientAtLeast(x: nat, c: nat, d: nat, r: nat, q: nat)
    requires x == d * c + r && r < c && q * c <= x
    ensures q <= d
  {
    if d < q {
      MulMonotone(d + 1, q, c);
      assert false;
    }
  }

  lemma MulMonotone(a: nat, b: nat, c: nat)
    requires a <= b
    ensures a * c <= b * c
  {
    assert (b - a) * c >= 0;
  }

  // ----- the pool -----

  class Zram {
    const pool: array<Slot>
    var stats: Stats
    const heap: K.Heap64

    ghost predicate Valid()
      reads this, pool, heap, heap.ram, heap.pmm, heap.pmm.bitmap
    {
      && heap.Valid() && pool.Length == MAX_PAGES
      && PoolOk(heap.view, heap.ram.cells, pool[..]) && StatsOk(stats, pool[..])
    }

    /** What the handle `k` stands for. */
    ghost function At(k: nat): Option<seq<Byte>>
      requires k < pool.Length
      reads pool, heap, heap.ram
    {
      Contents(heap.ram.cells, pool[k])
    }

    /** `zram_init`. */
    constructor (heap: K.Heap64)
      requires heap.Valid()
      ensures Valid() && this.heap == heap && fresh(pool)
      ensures forall k :: 0 <= k < MAX_PAGES ==> At(k) == None
      ensures stats == Stats(0, 0, 0, 100, 0, 0)
    {
      hide HeapOps.Ready, K.Linked, K.Agrees, K.Encoded;
      this.heap := heap;
      pool := new Slot[MAX_PAGES](i => Slot(0, 0, false));
      stats := Stats(0, 0, 0, 100, 0, 0);
      new;
      EmptySum(pool[..]);
    }

    /** The slot search of `zram_store`: the lowest free slot. */
    method FindSlot() returns (slot: int)
      requires Valid()
      ensures -1 <= slot < MAX_PAGES
      ensures slot >= 0 ==> !pool[slot].used
      ensures forall k :: 0 <= k < (if slot < 0 then MAX_PAGES else slot) ==> pool[k].used
    {
      hide HeapOps.Ready, K.Linked, K.Agrees, K.Encoded, PoolOk, StatsOk;
      for i := 0 to MAX_PAGES
        invariant forall k :: 0 <= k < i ==> pool[k].used
      {
        if !pool[i].used {
          return i;
        }
      }
      return -1;
    }

    /** The copy loop of `zram_store`, into the payload of the fresh live block at `a`. */
    method CopyIn(bytes: seq<Byte>, a: nat)
      requires heap.Valid() && a in Live(heap.view) && |bytes| <= heap.view.blocks[a].size
      modifies heap.ram
      ensures heap.Valid() && heap.hdr == old(heap.hdr)
      ensures Holds(heap.ram.cells, a + HEADER, |bytes|) && Payload(heap.ram.cells, a + HEADER, |bytes|) == bytes
      ensures forall x: nat :: !(a + HEADER <= x < End(heap.view.blocks, a)) ==> SameByte(old(heap.ram.cells), heap.ram.cells, x)
    {
      hide HeapOps.Ready, K.Linked, K.Agrees, K.Encoded;
      for i := 0 to |bytes|
        invariant heap.Valid() && heap.hdr == old(heap.hdr)
        invariant Holds(heap.ram.cells, a + HEADER, i) && Payload(heap.ram.cells, a + HEADER, i) == bytes[..i]
        invariant forall x: nat :: !(a + HEADER <= x < End(heap.view.blocks, a)) ==> SameByte(old(heap.ram.cells), heap.ram.cells, x)
      {
        ghost var before := heap.ram.cells;
        heap.WriteByte(a + HEADER + i, bytes[i], a);
        forall x: nat | !(a + HEADER <= x < End(heap.view.blocks, a)) ensures SameByte(old(heap.ram.cells), heap.ram.cells, x) {
          assert SameByte(old(heap.ram.cells), before, x);
        }
        PayloadExtend(before, heap.ram.cells, a + HEADER, i, bytes[i]);
        assert bytes[..i + 1] == bytes[..i] + [bytes[i]];
      }
      assert bytes[..|bytes|] == bytes;
    }

    /** `zram_store` once a slot and an encoding are at hand: a heap block, the copy, the slot. */
    method Fill(slot: nat, bytes: seq<Byte>) returns (ok: bool)
      requires Valid() && slot < MAX_PAGES && !pool[slot].used && 34 <= |bytes| < ZPAGE - 64
      modifies pool, heap, heap.ram, heap.pmm`usedFrames, heap.pmm.bitmap
      ensures heap.Valid() && PoolOk(heap.view, heap.ram.cells, pool[..])
      ensures var r := HeapOps.Malloc(old(heap.view), old(heap.pmm.Abs()), heap.physOffset, |bytes|);
              && HeapOps.Outcome(heap.view, heap.pmm.Abs(), if ok then pool[slot].data else 0) == r
              && ok == (r.ptr != 0)
      ensures !ok ==> pool[..] == old(pool[..])
      ensures ok ==> pool[slot].used && pool[slot].len == |bytes| && pool[..] == old(pool[..])[slot := pool[slot]]
      ensures ok ==> At(slot) == Some(bytes)
      ensures forall k :: 0 <= k < MAX_PAGES && (ok ==> k != slot) ==> At(k) == old(At(k))
    {
      hide HeapOps.Ready, HeapOps.Malloc, K.Linked, K.Agrees, K.Encoded, K.Untouched, K.KeepsBytes, Shape, Holds, PoolOk, StatsOk;
      ghost var h, m0 := heap.view, heap.ram.cells;
      var data := Allocate(|bytes|);
      ok := data != 0;
      if ok {
        ghost var m1 := heap.ram.cells;
        CopyIn(bytes, data - HEADER);
        ReadyShape(heap.view, heap.pmm.Abs(), heap.physOffset);
        K.PayloadWriteKeeps(h, heap.view, m0, m1, heap.ram.cells, data - HEADER);
      }
      PoolLive(h, m0, pool[..]);
      KeptPool(h, heap.view, m0, heap.ram.cells, Live(h), pool[..]);
      if ok {
        PoolInsert(heap.view, heap.ram.cells, pool[..], slot, Slot(data, |bytes|, true), h);
        pool[slot] := Slot(data, |bytes|, true);
      }
    }

    /** The `kmalloc` of `zram_store`, with what it leaves alone. */
    method Allocate(n: nat) returns (data: nat)
      requires heap.Valid() && n <= ZPAGE
      modifies heap, heap.ram, heap.pmm`usedFrames, heap.pmm.bitmap
      ensures heap.Valid()
      ensures HeapOps.Outcome(heap.view, heap.pmm.Abs(), data)
              == HeapOps.Malloc(old(heap.view), old(heap.pmm.Abs()), heap.physOffset, n)
      ensures HeapSteps.Keeps(old(heap.view), heap.view, Live(old(heap.view)))
      ensures Live(old(heap.view)) <= old(heap.view).blocks.Keys
              && K.KeepsBytes(old(heap.view), old(heap.ram.cells), heap.ram.cells, Live(old(heap.view)))
      ensures data != 0 ==> HEADER < data && data - HEADER in Live(heap.view) - Live(old(heap.view))
                            && n <= heap.view.blocks[data - HEADER].size
    {
      hide HeapOps.Ready, HeapOps.Malloc, K.Linked, K.Agrees, K.Encoded, K.Untouched, K.KeepsBytes, Shape;
      ghost var h, f, m0 := heap.view, heap.pmm.Abs(), heap.ram.cells;
      HeapOps.MallocReady(h, f, heap.physOffset, n);
      data := heap.Kmalloc(n);
      K.TiedKeys(old(heap.hdr), h);
      K.TiedKeys(heap.hdr, heap.view);
      K.MallocKeepsBytes(h, f, heap.physOffset, n, m0, heap.ram.cells);
    }

    /** The compression in `zram_store`, into a buffer of one page, and its acceptance test. */
    method Pack(page: seq<Byte>) returns (ok: bool, bytes: seq<Byte>)
      requires |page| == ZPAGE
      ensures ok == Compressible(page)
      ensures ok ==> bytes == Packed(page) && 34 <= |bytes| < ZPAGE - 64
    {
      var temp := new Byte[ZPAGE];
      var compLen := ZramPage.CompressPage(page, temp, temp.Length);
      PackedLength(page);
      if compLen <= 0 || compLen >= ZPAGE - 64 {
        return false, [];
      }
      return true, temp[..compLen];
    }

    /** `zram_store`: 0 and a handle, or -2 (pool full), -3 (incompressible), -4 (heap exhausted). */
    method Store(page: seq<Byte>) returns (r: int, handle: nat)
      requires Valid() && |page| == ZPAGE
      modifies this`stats, pool, heap, heap.ram,
               heap.pmm`usedFrames, heap.pmm.bitmap
      ensures Valid()
      ensures r == -2 <==> forall k :: 0 <= k < MAX_PAGES ==> old(pool[k].used)
      ensures r == -3 <==> r != -2 && !Compressible(page)
      ensures r == -4 <==>
              r != -2 && Compressible(page)
              && HeapOps.Malloc(old(heap.view), old(heap.pmm.Abs()), heap.physOffset, |Packed(page)|).ptr == 0
      ensures r == 0 || r == -2 || r == -3 || r == -4
      ensures r != 0 ==> stats == old(stats)
      ensures r == 0 ==>
                && handle < MAX_PAGES && old(At(handle)) == None && At(handle) == Some(Packed(page))
                && (forall k :: 0 <= k < handle ==> old(pool[k].used))
                && stats.totalCompressions == (old(stats).totalCompressions + 1) % U32
                && stats.totalDecompressions == old(stats).totalDecompressions
                && HeapOps.Outcome(heap.view, heap.pmm.Abs(), pool[handle].data)
                   == HeapOps.Malloc(old(heap.view), old(heap.pmm.Abs()), heap.physOffset, |Packed(page)|)
      ensures r != 0 ==> heap.view == old(heap.view) && heap.pmm.Abs() == old(heap.pmm.Abs())
      ensures forall k :: 0 <= k < MAX_PAGES && (r == 0 ==> k != handle) ==> At(k) == old(At(k))
    {
      hide HeapOps.Ready, HeapOps.Malloc, K.Linked, K.Agrees, K.Encoded, C.Encode, C.Stream, PoolOk, StatsOk;
      handle := 0;
      var slot := FindSlot();
      if slot < 0 {
        return -2, 0;
      }
      var packable, bytes := Pack(page);
      if !packable {
        return -3, 0;
      }
      ghost var before := pool[..];
      var ok := Fill(slot, bytes);
      if !ok {
        HeapOps.MallocReady(old(heap.view), old(heap.pmm.Abs()), heap.physOffset, |bytes|);
        return -4, 0;
      }
      StoredOk(stats, before, slot, pool[slot]);
      stats := Stored(stats, |bytes|);
      return 0, slot;
    }

    /** The bytes that `zram_load` hands to the decompressor. */
    method ReadOut(data: nat, len: nat) returns (bytes: seq<Byte>)
      ensures bytes == Payload(heap.ram.cells, data, len)
    {
      bytes := [];
      for i := 0 to len
        invariant bytes == Payload(heap.ram.cells, data, i)
      {
        bytes := bytes + [ByteAt(heap.ram.cells, data + i)];
      }
    }

    /** `zram_load`: what the handle stands for, decoded; the pool stays as it is. */
    method Load(handle: nat, dst: array<Byte>) returns (r: int)
      requires Valid() && dst.Length >= ZPAGE && dst != heap.pmm.bitmap
      modifies this`stats, dst
      ensures Valid()
      ensures handle >= MAX_PAGES || At(handle) == None ==> r == -1 && dst[..] == old(dst[..])
      ensures handle < MAX_PAGES && At(handle).Some? ==>
                match C.Decode(At(handle).value, [])
                case None => r == -1
                case Some(page) => r == 0 && dst[..ZPAGE] == page && dst[ZPAGE..] == old(dst[ZPAGE..])
      ensures stats == if r != 0 then old(stats)
                       else old(stats).(totalDecompressions := (old(stats).totalDecompressions + 1) % U32)
      ensures forall k :: 0 <= k < MAX_PAGES ==> At(k) == old(At(k))
    {
      hide HeapOps.Ready, K.Linked, K.Agrees, K.Encoded, C.Decode;
      if handle >= MAX_PAGES || !pool[handle].used {
        return -1;
      }
      var bytes := ReadOut(pool[handle].data, pool[handle].len);
      r := ZramPage.DecompressPage(bytes, dst);
      if r == 0 {
        stats := stats.(totalDecompressions := (stats.totalDecompressions + 1) % U32);
      }
    }

    /** The `kfree` of `zram_free`: every other slot keeps its page. */
    method ReleaseBlock(handle: nat)
      requires heap.Valid() && pool.Length == MAX_PAGES && PoolOk(heap.view, heap.ram.cells, pool[..])
      requires handle < MAX_PAGES && pool[handle].used
      modifies pool, heap, heap.ram
      ensures heap.Valid() && PoolOk(heap.view, heap.ram.cells, pool[..])
      ensures pool[..] == old(pool[..])[handle := Slot(0, 0, false)]
      ensures heap.pmm.Abs() == old(heap.pmm.Abs()) && heap.Sys() == Freed(old(heap.Sys()), old(pool[handle].data))
      ensures forall k :: 0 <= k < MAX_PAGES && k != handle ==> At(k) == old(At(k))
    {
      hide HeapOps.Ready, K.Linked, K.Agrees, K.Encoded, K.Untouched, K.KeepsBytes, Holds, PoolOk, R.FreeBlock, HeapSteps.Keeps;
      ghost var h, m, a := heap.view, heap.ram.cells, pool[handle].data - HEADER;
      SlotBlock(h, m, pool[..], handle);
      heap.Kfree(pool[handle].data);
      pool[handle] := Slot(0, 0, false);
      FreedKeeps(h, heap.view, heap.pmm.Abs(), heap.physOffset, a, m, heap.ram.cells, old(heap.hdr), heap.hdr);
      PoolUpdate(h, m, old(pool[..]), handle);
      KeptPool(h, heap.view, m, heap.ram.cells, Live(h) - {a}, pool[..]);
    }

    /** `zram_free`. */
    method Free(handle: nat) returns (r: int)
      requires Valid()
      modifies this`stats, pool, heap, heap.ram
      ensures Valid()
      ensures r == if handle >= MAX_PAGES || old(At(handle)) == None then -1 else 0
      ensures r == -1 ==> stats == old(stats)
      ensures r == 0 ==> At(handle) == None && heap.Sys() == Freed(old(heap.Sys()), old(pool[handle].data))
      ensures r != 0 ==> heap.Sys() == old(heap.Sys())
      ensures forall k :: 0 <= k < MAX_PAGES && (r == 0 ==> k != handle) ==> At(k) == old(At(k))
    {
      hide HeapOps.Ready, K.Linked, K.Agrees, K.Encoded, Holds;
      if handle >= MAX_PAGES || !pool[handle].used {
        return -1;
      }
      var s := pool[handle];
      SlotSumUpdate(pool[..], Used, handle, Slot(0, 0, false));
      SlotSumUpdate(pool[..], Length, handle, Slot(0, 0, false));
      var original, compressed := stats.originalBytes - ZPAGE, stats.compressedBytes - s.len;
      stats := stats.(pagesStored := stats.pagesStored - 1, originalBytes := original, compressedBytes := compressed,
                      ratio := if compressed > 0 then original * 100 / compressed else 100);
      ReleaseBlock(handle);
      return 0;
    }
  }

  lemma FreedKeeps(h: Heap, g: Heap, f: HeapOps.F.Frames, off: nat, a: nat, m: Cells, n: Cells,
                   was: map<nat, K.Header>, now: map<nat, K.Header>)
    requires HeapOps.Ready(h, f, off) && a in h.blocks && K.Agrees(was, h.blocks) && K.Agrees(now, g.blocks)
    requires g == R.FreeBlock(h, a) && K.Untouched(m, n, was.Keys) && now.Keys <= was.Keys
    ensures HeapSteps.Keeps(h, g, Live(h) - {a})
    ensures Live(h) - {a} <= h.blocks.Keys && K.KeepsBytes(h, m, n, Live(h) - {a})
  {
    R.FreeInv(h, a);
    K.FreeKeepsBytes(h, a, m, n);
  }

  /** The heap after `kfree` of a pointer to a block. */
  ghost function Freed(s: R.System, ptr: nat): R.System {
    if R.Good(s) && HEADER <= ptr && ptr - HEADER in s.heap.blocks then R.Kfree(s, ptr) else s
  }

  lemma SlotBlock(h: Heap, m: Cells, pool: seq<Slot>, k: nat)
    requires PoolOk(h, m, pool) && k < |pool| && pool[k].used
    ensures HEADER <= pool[k].data && pool[k].data - HEADER in h.blocks && pool[k].data - HEADER in Live(h)
  {
    assert SlotOk(h, m, pool[k]);
  }

  lemma PoolLive(h: Heap, m: Cells, pool: seq<Slot>)
    requires PoolOk(h, m, pool)
    ensures forall k {:trigger pool[k]} :: 0 <= k < |pool| && pool[k].used ==> pool[k].data - HEADER in Live(h)
  {
    forall k | 0 <= k < |pool| && pool[k].used ensures pool[k].data - HEADER in Live(h) {
      assert SlotOk(h, m, pool[k]);
    }
  }

  /** A block that was not live before is shared with no other slot. */
  lemma PoolInsert(h: Heap, m: Cells, pool: seq<Slot>, k: nat, s: Slot, was: Heap)
    requires PoolOk(h, m, pool) && k < |pool| && !pool[k].used && s.used && SlotOk(h, m, s)
    requires s.data - HEADER !in Live(was)
    requires forall j {:trigger pool[j]} :: 0 <= j < |pool| && pool[j].used ==> pool[j].data - HEADER in Live(was)
    ensures PoolOk(h, m, pool[k := s])
  {
    var q := pool[k := s];
    forall j | 0 <= j < |q| ensures SlotOk(h, m, q[j]) { assert j != k ==> SlotOk(h, m, pool[j]); }
    forall i, j | 0 <= i < j < |q| && q[i].used && q[j].used ensures q[i].data != q[j].data {
      assert i != k ==> q[i] == pool[i];
      assert j != k ==> q[j] == pool[j];
    }
  }

  lemma PoolUpdate(h: Heap, m: Cells, pool: seq<Slot>, k: nat)
    requires PoolOk(h, m, pool) && k < |pool| && pool[k].used
    ensures var q := pool[k := Slot(0, 0, false)];
            PoolOk(h, m, q) && forall j {:trigger q[j]} :: 0 <= j < |q| && q[j].used ==>
              q[j].data - HEADER in Live(h) - {pool[k].data - HEADER}
  {
  }

  predicate Compressible(page: seq<Byte>)
    requires |page| == ZPAGE
  {
    var r := C.Encode(page, 0, 0, ZPAGE);
    r.Some? && |C.Stream(r.value)| < ZPAGE - 64
  }

  /** The encoding that `zram_store` keeps. */
  function Packed(page: seq<Byte>): seq<Byte>
    requires |page| == ZPAGE && Compressible(page)
  {
    C.Stream(C.Encode(page, 0, 0, ZPAGE).value)
  }

  /** A page is kept when its encoding fits a page-sized buffer and saves more than 64 bytes; pages of one
      byte and the pattern of 64-byte runs are. */
  lemma CompressibleExactly(page: seq<Byte>, v: Byte)
    requires |page| == ZPAGE
    ensures Compressible(page) <==>
            C.Encode(page, 0, 0, 4096).Some? && |C.Stream(C.Encode(page, 0, 0, 4096).value)| <= 4031
    ensures Compressible(C.Repeat(v, ZPAGE)) && |Packed(C.Repeat(v, ZPAGE))| == (if v == 0 then 34 else 51)
    ensures Compressible(T.PatternPage()) && |Packed(T.PatternPage())| == 191
  {
    hide C.Encode, C.Stream;
    T.UniformPage(v);
    T.PatternCompresses();
  }

  /** A stored page loads back as itself exactly when its tokens are faithful. */
  lemma LoadsBack(page: seq<Byte>)
    requires |page| == ZPAGE && Compressible(page)
    ensures C.Decode(Packed(page), []) == Some(page) <==> X.Faithful(C.Encode(page, 0, 0, ZPAGE).value)
  {
    X.Exact(page, ZPAGE);
  }

  lemma PackedLength(page: seq<Byte>)
    requires |page| == ZPAGE
    ensures C.Encode(page, 0, 0, ZPAGE).Some? ==> |C.Stream(C.Encode(page, 0, 0, ZPAGE).value)| >= 34
  {
    if C.Encode(page, 0, 0, ZPAGE).Some? { ZramPage.AtLeast34(page, ZPAGE); }
  }

  lemma ReadyShape(h: Heap, f: HeapOps.F.Frames, off: nat)
    requires HeapOps.Ready(h, f, off)
    ensures Shape(h)
  {
  }

  lemma KeptPool(h: Heap, g: Heap, m: Cells, n: Cells, live: set<nat>, pool: seq<Slot>)
    requires PoolOk(h, m, pool) && HeapSteps.Keeps(h, g, live)
    requires live <= h.blocks.Keys && K.KeepsBytes(h, m, n, live)
    requires forall k {:trigger pool[k]} :: 0 <= k < |pool| && pool[k].used ==> pool[k].data - HEADER in live
    ensures PoolOk(g, n, pool)
    ensures forall k {:trigger pool[k]} :: 0 <= k < |pool| ==> Contents(n, pool[k]) == Contents(m, pool[k])
  {
    forall k | 0 <= k < |pool| ensures SlotOk(g, n, pool[k]) && Contents(n, pool[k]) == Contents(m, pool[k]) {
      SlotKept(h, g, m, n, live, pool[k]);
    }
  }

  lemma PayloadExtend(m: Cells, n: Cells, data: nat, len: nat, b: Byte)
    requires Holds(m, data, len) && n == m[data + len := Data(b)]
    ensures Holds(n, data, len + 1) && Payload(n, data, len + 1) == Payload(m, data, len) + [b]
  {
    forall i: nat | i < len ensures K.SpanByte(m, data, n, data, i) {}
    PayloadKept(m, n, data, len, len);
  }

  lemma {:induction false} EmptySum(pool: seq<Slot>)
    requires forall s :: s in pool ==> !s.used
    ensures SlotSum(pool, Used) == 0 && SlotSum(pool, Length) == 0
  {
    if pool != [] { EmptySum(pool[1..]); }
  }
}
