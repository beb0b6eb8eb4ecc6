/** The memory system as it runs: heap headers, free-list links, page tables and client data side by side
    in one identity-mapped memory, over any interleaving of calls and client writes. */
module Machine {
  import opened Bitmap
  import opened Memory
  import opened PhysicalMemory
  import F = Frames
  import B = Boot
  import H = HeapModel
  import HO = HeapOps
  import HR = HeapRuns
  import KH = KernelHeap
  import S = SlabModel
  import SA = SlabAllocator
  import PT = PageTables
  import A = AddressSpace
  import VM = VirtualMemory
  import opened Ownership
  import KM = KernelMemory

  // ----- whose byte it is -----

  /** The byte `x` lies in a frame of `o`. */
  ghost predicate ByteOf(k: Kernel, o: Owner, x: nat) {
    Owns(k, o, x / PAGE)
  }

  ghost predicate Ready(k: Kernel) {
    Inv(k) && k.boot > 0 && k.heapOff == 0 && k.slab.off == 0
  }

  lemma SegmentByte(k: Kernel, x: nat)
    requires Ready(k)
    ensures KH.InSegs(k.heap.segs, x) <==> ByteOf(k, InHeap, x)
  {
    if s :| s in k.heap.segs && s <= x < H.SegEnd(k.heap.segs, s) {
      assert HO.SegBacked(k.heap.segs, k.frames.bits, 0, s) && H.SegOk(k.heap.blocks, k.heap.segs, s);
      assert InSegment(k.heap.segs, 0, s, x / PAGE);
    }
    if s :| s in k.heap.segs && InSegment(k.heap.segs, 0, s, x / PAGE) {
      assert HO.SegBacked(k.heap.segs, k.frames.bits, 0, s) && H.SegOk(k.heap.blocks, k.heap.segs, s);
      InFrames(s, k.heap.segs[s], x);
    }
  }

  lemma InFrames(s: nat, len: nat, x: nat)
    requires s % PAGE == 0 && len % PAGE == 0
    ensures s / PAGE <= x / PAGE < s / PAGE + len / PAGE <==> s <= x < s + len
  {
  }

  lemma BlockByte(k: Kernel, a: nat, x: nat)
    requires Ready(k) && a in k.heap.blocks && a <= x < H.End(k.heap.blocks, a)
    ensures ByteOf(k, InHeap, x)
  {
    KH.BlockInSegs(k.heap, a, x);
    SegmentByte(k, x);
  }

  lemma PageByte(k: Kernel, p: nat, x: nat)
    requires Ready(k) && p in k.slab.pages && p <= x < p + PAGE
    ensures ByteOf(k, InSlab, x)
  {
    assert S.PageOk(k.slab, k.frames.bits, p);
    assert x / PAGE * PAGE == p;
  }

  lemma ChunkByte(k: Kernel, z: nat, c: nat, x: nat)
    requires Ready(k) && z < S.ZONES && S.Chunk(k.slab, z, c) && c <= x < c + S.ChunkSize(z)
    ensures ByteOf(k, InSlab, x)
  {
    var p := S.PageOf(0, c);
    S.SizeDivides(z, c % PAGE);
    PageByte(k, p, x);
  }

  lemma TableByte(k: Kernel, t: nat, x: nat)
    requires Ready(k) && (t in k.tables || t == 0) && t <= x < t + PAGE
    ensures ByteOf(k, InTables, x) || ByteOf(k, Reserved, x)
  {
    if t in k.tables {
      assert PT.TableOk(k.mem, k.tables, t) && A.FrameOk(Tables(k), t);
    }
    assert x / PAGE * PAGE == t && x / PAGE == t / PAGE;
  }

  // ----- client data -----

  ghost predicate PayloadByte(h: H.Heap, x: nat) {
    exists a :: a in H.Live(h) && a + H.HEADER <= x < H.End(h.blocks, a)
  }

  ghost predicate ChunkData(s: S.Slab, x: nat)
    requires |s.live| == S.ZONES
  {
    exists z: nat, c :: z < S.ZONES && c in s.live[z] && c <= x < c + S.ChunkSize(z)
  }

  /** The byte belongs to a client: to a live heap block, a live chunk, or a frame of its own. */
  ghost predicate ClientByte(k: Kernel, x: nat)
    requires |k.slab.live| == S.ZONES
  {
    PayloadByte(k.heap, x) || ChunkData(k.slab, x) || ByteOf(k, Client, x)
  }

  lemma PayloadOwner(k: Kernel, x: nat)
    requires Ready(k) && PayloadByte(k.heap, x)
    ensures ByteOf(k, InHeap, x)
  {
    var a :| a in H.Live(k.heap) && a + H.HEADER <= x < H.End(k.heap.blocks, a);
    BlockByte(k, a, x);
  }

  lemma ChunkOwner(k: Kernel, x: nat)
    requires Ready(k) && ChunkData(k.slab, x)
    ensures ByteOf(k, InSlab, x)
  {
    var z: nat, c :| z < S.ZONES && c in k.slab.live[z] && c <= x < c + S.ChunkSize(z);
    assert S.ZoneOk(k.slab, z);
    assert S.Chunk(k.slab, z, c);
    ChunkByte(k, z, c, x);
  }

  /** The owner of a client byte is the part that handed it out. */
  lemma ClientOwner(k: Kernel, x: nat)
    requires Ready(k) && ClientByte(k, x)
    ensures ByteOf(k, InHeap, x) || ByteOf(k, InSlab, x) || ByteOf(k, Client, x)
    ensures PayloadByte(k.heap, x) <==> ByteOf(k, InHeap, x)
    ensures ChunkData(k.slab, x) <==> ByteOf(k, InSlab, x)
  {
    if PayloadByte(k.heap, x) { PayloadOwner(k, x); }
    if ChunkData(k.slab, x) { ChunkOwner(k, x); }
  }

  // ----- what a store by one part leaves alone -----

  /** Only bytes of `o` differ; the page tables that boot left behind lie in reserved frames. */
  ghost predicate Within(k: Kernel, o: Owner, m: Cells, n: Cells) {
    forall x: nat {:trigger SameByte(m, n, x)} :: SameByte(m, n, x) || ByteOf(k, o, x) || (o == InTables && ByteOf(k, Reserved, x))
  }

  lemma SameOutside(k: Kernel, o: Owner, m: Cells, n: Cells, p: Owner, x: nat)
    requires Partition(k) && Within(k, o, m, n) && ByteOf(k, p, x) && p != o && (o != InTables || p != Reserved)
    ensures SameByte(m, n, x)
  {
    hide Owns;
    assert SameByte(m, n, x) || ByteOf(k, o, x) || (o == InTables && ByteOf(k, Reserved, x));
  }

  /** The headers stay in memory. */
  lemma HeadersStay(k: Kernel, o: Owner, m: Cells, n: Cells, hdr: map<nat, KH.Header>)
    requires Ready(k) && Within(k, o, m, n) && o != InHeap && KH.Encoded(m, hdr) && KH.Agrees(hdr, k.heap.blocks)
    ensures KH.Encoded(n, hdr)
  {
    hide Within, ByteOf, Inv;
    KH.TiedKeys(hdr, k.heap);
    forall a, x: nat | a in hdr && KH.Hits(a, x) ensures SameByte(m, n, x) {
      BlockByte(k, a, x);
      ReadyPartition(k);
      SameOutside(k, o, m, n, InHeap, x);
    }
    KH.EncodedFrame(m, n, hdr);
  }

  lemma ReadyPartition(k: Kernel)
    requires Ready(k)
    ensures Partition(k) && |k.slab.live| == S.ZONES
  {
  }

  /** The links of every zone stay in memory. */
  lemma ListStays(k: Kernel, o: Owner, m: Cells, n: Cells, z: nat, head: nat)
    requires Ready(k) && Within(k, o, m, n) && o != InSlab && z < S.ZONES && SA.Listed(m, head, k.slab.free[z])
    ensures SA.Listed(n, head, k.slab.free[z])
  {
    hide Within, ByteOf, SA.Listed;
    assert S.ZoneOk(k.slab, z);
    SA.SizeAtLeast16(z);
    forall c | c in k.slab.free[z] ensures SameRange(m, n, c, 8) {
      forall x: nat | c <= x < c + 8 ensures SameByte(m, n, x) {
        ChunkByte(k, z, c, x);
        SameOutside(k, o, m, n, InSlab, x);
      }
    }
    SA.ListedFrame(m, n, head, k.slab.free[z]);
  }

  /** The page tables stay in memory. */
  lemma TablesStayPut(k: Kernel, o: Owner, m: Cells, n: Cells)
    requires Ready(k) && Within(k, o, m, n) && o != InTables && o != Reserved && VM.Stored(m, k.mem, k.tables.Keys + {0})
    ensures VM.Stored(n, k.mem, k.tables.Keys + {0})
  {
    hide Within, ByteOf, VM.TableAt, Inv;
    ReadyPartition(k);
    forall t | t in k.tables.Keys + {0} ensures VM.TableAt(n, t, k.mem[t]) {
      forall x: nat | t <= x < t + PAGE ensures SameByte(m, n, x) {
        TableByte(k, t, x);
        if ByteOf(k, InTables, x) { SameOutside(k, o, m, n, InTables, x); } else { SameOutside(k, o, m, n, Reserved, x); }
      }
      VM.TableKept(m, n, t, k.mem[t]);
    }
  }

  // ----- client data stays -----

  /** What belongs to clients before and after holds the same bytes. */
  ghost predicate Kept(k: Kernel, k': Kernel, m: Cells, n: Cells)
    requires |k.slab.live| == |k'.slab.live| == S.ZONES
  {
    forall x: nat {:trigger SameByte(m, n, x)} :: ClientByte(k, x) && ClientByte(k', x) ==> SameByte(m, n, x)
  }

  ghost predicate PayloadKept(h: H.Heap, g: H.Heap, m: Cells, n: Cells) {
    forall x: nat {:trigger SameByte(m, n, x)} :: PayloadByte(h, x) && PayloadByte(g, x) ==> SameByte(m, n, x)
  }

  ghost predicate ChunksKept(s: S.Slab, t: S.Slab, m: Cells, n: Cells)
    requires |s.live| == |t.live| == S.ZONES
  {
    forall x: nat {:trigger SameByte(m, n, x)} :: ChunkData(s, x) && ChunkData(t, x) ==> SameByte(m, n, x)
  }

  /** No owner other than a client loses a frame. */
  ghost predicate OwnersStay(k: Kernel, k': Kernel) {
    forall i: nat, o {:trigger Owns(k', o, i)} :: Owns(k, o, i) ==> Owns(k', o, i)
  }

  /** When `o` stores into its own frames, only its own clients need a second look. */
  lemma PartKept(k: Kernel, k': Kernel, o: Owner, m: Cells, n: Cells)
    requires Ready(k) && Ready(k') && OwnersStay(k, k') && Within(k', o, m, n)
    requires o == InHeap ==> PayloadKept(k.heap, k'.heap, m, n)
    requires o == InSlab ==> ChunksKept(k.slab, k'.slab, m, n)
    requires o != Client && o != Reserved
    ensures Kept(k, k', m, n)
  {
    hide Within, Owns, PayloadByte, ChunkData, Inv;
    ReadyPartition(k);
    ReadyPartition(k');
    forall x: nat | ClientByte(k, x) && ClientByte(k', x) ensures SameByte(m, n, x) {
      ClientOwner(k, x);
      ClientOwner(k', x);
      var p := if ByteOf(k, InHeap, x) then InHeap else if ByteOf(k, InSlab, x) then InSlab else Client;
      assert Owns(k', p, x / PAGE);
      assert ByteOf(k', p, x);
      if p != o { SameOutside(k', o, m, n, p, x); }
    }
  }

  lemma WithinHeap(k: Kernel, m: Cells, n: Cells)
    requires Ready(k) && KH.WithinSegs(m, n, k.heap.segs)
    ensures Within(k, InHeap, m, n)
  {
    hide Inv, ByteOf, KH.InSegs;
    forall x: nat | !SameByte(m, n, x) ensures ByteOf(k, InHeap, x) {
      assert SameByte(m, n, x) || KH.InSegs(k.heap.segs, x);
      SegmentByte(k, x);
    }
  }

  /** The payloads of all live blocks but `gone` are kept, and nothing that is live afterwards meets `gone`. */
  lemma PayloadsKept(h: H.Heap, g: H.Heap, m: Cells, n: Cells, gone: set<nat>)
    requires H.Live(h) <= h.blocks.Keys && KH.KeepsBytes(h, m, n, H.Live(h) - gone)
    requires forall a, x: nat {:trigger a in gone, PayloadByte(g, x)} ::
               a in gone && a in H.Live(h) && a + H.HEADER <= x < H.End(h.blocks, a) ==> !PayloadByte(g, x)
    ensures PayloadKept(h, g, m, n)
  {
    forall x: nat | PayloadByte(h, x) && PayloadByte(g, x) ensures SameByte(m, n, x) {
      var a :| a in H.Live(h) && a + H.HEADER <= x < H.End(h.blocks, a);
      assert a in gone ==> !PayloadByte(g, x);
      var p := a + H.HEADER;
      assert KH.SameSpan(m, p, n, p, h.blocks[a].size);
      assert KH.SpanByte(m, p, n, p, x - p);
    }
  }

  /** A freed block meets no block that is live afterwards. */
  lemma FreedApart(h: H.Heap, a: nat, x: nat)
    requires H.Inv(h) && HO.Rounded(h) && a in H.Live(h) && a + H.HEADER <= x < H.End(h.blocks, a)
    ensures !PayloadByte(HR.FreeBlock(h, a), x)
  {
    hide HO.Rounded, H.Sound, HR.FreeBlock;
    var g := HR.FreeBlock(h, a);
    HR.FreeInv(h, a);
    forall b | b in H.Live(g) ensures !(b + H.HEADER <= x < H.End(g.blocks, b)) {
      assert H.Shape(h) by { SoundShape(h); }
      HR.LivePayloadsApart(h, a, b);
    }
  }

  lemma SoundShape(h: H.Heap)
    requires H.Inv(h)
    ensures H.Shape(h)
  {
  }

  /** A block that `krealloc` has moved away from meets no block that is live afterwards. */
  lemma MovedApart(s: HR.System, a: nat, n: nat, x: nat)
    requires HR.Good(s) && a in H.Live(s.heap) && n % 8 == 0 && HR.Moved(s, a, n).1 != 0
    requires a + H.HEADER <= x < H.End(s.heap.blocks, a)
    ensures !PayloadByte(HR.Moved(s, a, n).0.heap, x)
  {
    hide HO.MallocRounded, H.Inv, HO.Rounded, HO.Backed, F.Inv, F.ZeroTaken, HR.FreeBlock;
    HO.MallocRoundedOk(s.heap, s.frames, s.off, n);
    var r := HO.MallocRounded(s.heap, s.frames, s.off, n);
    assert r.heap.blocks[a].size == s.heap.blocks[a].size;
    FreedApart(r.heap, a, x);
  }

  /** The chunks that stay live are kept; a chunk that `zfree` took meets no chunk that is live afterwards. */
  lemma ChunksStayKept(s: S.Slab, t: S.Slab, f: F.Frames, f': F.Frames, m: Cells, n: Cells)
    requires S.Inv(s, f) && S.Inv(t, f') && s.off == t.off && SA.KeepsChunks(s, t, m, n)
    requires (forall z: nat {:trigger s.live[z]} :: z < S.ZONES ==> s.live[z] <= t.live[z])
             || (s.pages == t.pages && forall z: nat {:trigger t.live[z]} :: z < S.ZONES ==> t.live[z] <= s.live[z])
    ensures ChunksKept(s, t, m, n)
  {
    forall x: nat | ChunkData(s, x) && ChunkData(t, x) ensures SameByte(m, n, x) {
      var z: nat, c :| z < S.ZONES && c in s.live[z] && c <= x < c + S.ChunkSize(z);
      var y: nat, d :| y < S.ZONES && d in t.live[y] && d <= x < d + S.ChunkSize(y);
      SameChunk(s, t, f, f', z, c, y, d, x);
      assert c in s.live[z] && c in t.live[z];
      assert SameRange(m, n, c, S.ChunkSize(z));
    }
  }

  lemma SameChunk(s: S.Slab, t: S.Slab, f: F.Frames, f': F.Frames, z: nat, c: nat, y: nat, d: nat, x: nat)
    requires S.Inv(s, f) && S.Inv(t, f') && z < S.ZONES && y < S.ZONES
    requires (forall z: nat {:trigger s.live[z]} :: z < S.ZONES ==> s.live[z] <= t.live[z])
             || (s.pages == t.pages && forall z: nat {:trigger t.live[z]} :: z < S.ZONES ==> t.live[z] <= s.live[z])
    requires c in s.live[z] && c <= x < c + S.ChunkSize(z) && d in t.live[y] && d <= x < d + S.ChunkSize(y)
    ensures c in t.live[z]
  {
    assert S.ZoneOk(s, z) && S.ZoneOk(s, y);
    assert S.Chunk(s, z, c);
    if c !in t.live[z] {
      assert t.live[y] <= s.live[y];
      assert S.Chunk(s, y, d);
      if c < d { S.ChunksApart(s, f, z, c, y, d); }
      if d < c { S.ChunksApart(s, f, y, d, z, c); }
    }
  }

  lemma WithinSlab(k: Kernel, was: S.Slab, m: Cells, n: Cells)
    requires Ready(k) && SA.OnlyNewPages(was, k.slab, m, n)
    ensures Within(k, InSlab, m, n)
  {
    hide Inv, ByteOf;
    forall x: nat | !SameByte(m, n, x) ensures ByteOf(k, InSlab, x) {
      assert SameByte(m, n, x) || SA.InNewPage(was, k.slab, x);
      var p :| p in k.slab.pages && p !in was.pages && p <= x < p + S.PAGE;
      PageByte(k, p, x);
    }
  }

  lemma WithinChunk(k: Kernel, z: nat, c: nat, m: Cells, n: Cells, a: nat, len: nat)
    requires Ready(k) && z < S.ZONES && S.Chunk(k.slab, z, c) && c <= a && a + len <= c + S.ChunkSize(z) && Changes(m, n, a, len)
    ensures Within(k, InSlab, m, n)
  {
    hide Inv, ByteOf;
    forall x: nat | !SameByte(m, n, x) ensures ByteOf(k, InSlab, x) {
      assert SameByte(m, n, x) || a <= x < a + len;
      ChunkByte(k, z, c, x);
    }
  }

  lemma WithinTables(k: Kernel, m: Cells, n: Cells)
    requires Ready(k) && VM.OnlyTables(m, n, k.tables.Keys)
    ensures Within(k, InTables, m, n)
  {
    hide Inv, ByteOf;
    forall x: nat | !SameByte(m, n, x) ensures ByteOf(k, InTables, x) || ByteOf(k, Reserved, x) {
      assert SameByte(m, n, x) || exists t :: t in k.tables.Keys && VM.InTable(t, x);
      var t :| t in k.tables.Keys && VM.InTable(t, x);
      TableByte(k, t, x);
    }
  }

  // ----- runs -----

  /** A call, or a byte that a client writes. */
  datatype Action = Call(op: KM.Op) | Write(x: nat, b: Byte)

  ghost predicate Allowed(k: Kernel, a: Action)
    requires Ready(k)
  {
    ReadyPartition(k);
    match a
    case Call(op) => KM.Permitted(k, op)
    case Write(x, _) => ClientByte(k, x)
  }

  function After(k: Kernel, a: Action): (k': Kernel)
    requires Ready(k) && Allowed(k, a)
    ensures Ready(k')
  {
    match a
    case Call(op) =>
      KM.StepInv(k, op);
      KM.BootKept(k, op);
      KM.Step(k, op)
    case Write(_, _) => k
  }

  ghost predicate AllowedRun(k: Kernel, run: seq<Action>)
    requires Ready(k)
    decreases |run|
  {
    run == [] || (Allowed(k, run[0]) && AllowedRun(After(k, run[0]), run[1..]))
  }

  function Final(k: Kernel, run: seq<Action>): Kernel
    requires Ready(k) && AllowedRun(k, run)
    decreases |run|
  {
    if run == [] then k else Final(After(k, run[0]), run[1..])
  }

  /** Throughout the run the byte belongs to a client, and no client writes it. */
  ghost predicate Undisturbed(k: Kernel, run: seq<Action>, x: nat)
    requires Ready(k) && AllowedRun(k, run)
    decreases |run|
  {
    ReadyPartition(k);
    ClientByte(k, x) && (run == [] || (!(run[0].Write? && run[0].x == x) && Undisturbed(After(k, run[0]), run[1..], x)))
  }

  /** The calls of a run are a run of calls, so that what holds of every run of calls after boot holds
      here: in particular `KernelMemory.ImageNeverHandedOut`. */
  function CallsOf(run: seq<Action>): seq<KM.Op> {
    if run == [] then []
    else if run[0].Call? then [run[0].op] + CallsOf(run[1..])
    else CallsOf(run[1..])
  }

  lemma {:induction false} FinalReached(k: Kernel, run: seq<Action>)
    requires Ready(k) && AllowedRun(k, run)
    ensures KM.Reaches(k, CallsOf(run), Final(k, run))
    decreases |run|
  {
    hide Inv, KM.Step, KM.Permitted;
    if run != [] {
      FinalReached(After(k, run[0]), run[1..]);
      if run[0].Call? {
        assert CallsOf(run)[1..] == CallsOf(run[1..]);
      }
    }
  }

  lemma BootTaken(end: nat, total: nat)
    ensures F.ZeroTaken(B.BootFrames(end, total)) && F.Inv(B.BootFrames(end, total))
  {
    B.BootTakes(end, total);
  }

  /** The pointer that `krealloc` returns where it may be called. */
  ghost function Reallocated(s: HR.System, ptr: nat, size: nat): nat {
    if HR.Good(s) && HR.Permitted(s, HR.OpRealloc(ptr, size)) then HR.Krealloc(s, ptr, size).1 else 0
  }

  /** The size of the block whose payload is at `ptr`. */
  function PayloadSize(h: H.Heap, ptr: nat): nat {
    if ptr >= H.HEADER && ptr - H.HEADER in h.blocks then h.blocks[ptr - H.HEADER].size else 0
  }

  // ----- the machine -----

  class Machine {
    const ram: Ram
    const pmm: Pmm
    const heap: KH.Heap64
    const zones: SA.Zones
    const vmm: VM.Vmm
    const root: nat
    ghost const boot: nat
    ghost var held: set<nat>

    ghost predicate Wired()
      reads this
    {
      && heap.pmm == pmm && zones.pmm == pmm && vmm.pmm == pmm
      && heap.ram == ram && zones.ram == ram && vmm.ram == ram
    }

    /** The abstract state that the parts represent. */
    ghost function View(): Kernel
      requires pmm.Sized()
      reads this, pmm, pmm.bitmap, heap, zones, vmm
    {
      Kernel(pmm.Abs(), heap.view, heap.physOffset, zones.view, vmm.mem, vmm.own, root, held, boot)
    }

    /** Headers, links and tables in the one memory represent the abstract state, which is sound. */
    ghost predicate Valid()
      reads this, ram, pmm, pmm.bitmap, heap, zones, zones.zones, vmm
    {
      Wired() && pmm.Valid() && heap.Tied() && zones.Tied() && zones.physOffset == 0 && vmm.Tied() && Ready(View())
    }

    /** The boot path, down to the initialised allocators; the page tables are those boot has left in memory. */
    constructor (end: nat, total: nat, bitmap: array<Byte>, ram: Ram,
                 ghost mem: map<nat, seq<nat>>, ghost tables: map<nat, PT.Node>, root: nat)
      requires B.BitmapBytes(B.RamSize(total)) <= bitmap.Length
      requires KM.HandedOver(end, total, mem, tables, root) && VM.Stored(ram.cells, mem, tables.Keys + {0})
      modifies bitmap
      ensures Valid() && this.ram == ram && View() == KM.Booted(end, total, 0, mem, tables, root)
      ensures ram.cells == old(ram.cells)
    {
      hide VM.Stored, VM.TableAt, KM.HandedOver, Partition, PT.Tree, S.ZoneOk, H.Shape, H.Accounts, H.FreeOk, H.Coalesced, HO.Backed, HO.Rounded, KH.Encoded, F.Inv, F.ZeroTaken, KH.Linked, KH.Agrees;
      KM.BootInv(end, total, 0, mem, tables, root);
      BootTaken(end, total);
      this.ram := ram;
      this.root := root;
      this.boot := B.ReservedFrames(end, B.RamSize(total));
      held := {};
      var p := B.InitFrames(end, total, bitmap);
      pmm := p;
      heap := new KH.Heap64(p, ram, 0);
      zones := new SA.Zones(p, ram, 0);
      vmm := new VM.Vmm(p, ram, mem, tables);
    }

    /** The parts that did not run are still represented in memory. */
    twostate lemma OthersTied(o: Owner)
      requires Wired() && old(zones.Tied()) && old(vmm.Tied()) && old(heap.Tied())
      requires pmm.Sized() && Ready(View()) && Within(View(), o, old(ram.cells), ram.cells)
      ensures o != InHeap && unchanged(heap) ==> heap.Tied()
      ensures o != InSlab && unchanged(zones) && unchanged(zones.zones) ==> zones.Tied()
      ensures o != InTables && o != Reserved && unchanged(vmm) ==> vmm.Tied()
    {
      hide Within, Inv, SA.Listed, KH.Encoded, KH.Agrees, KH.Linked, VM.Stored;
      var k, m, n := View(), old(ram.cells), ram.cells;
      if o != InHeap && unchanged(heap) { HeadersStay(k, o, m, n, heap.hdr); }
      if o != InTables && o != Reserved && unchanged(vmm) { TablesStayPut(k, o, m, n); }
      if o != InSlab && unchanged(zones) && unchanged(zones.zones) {
        forall z: nat | z < S.ZONES ensures zones.ZoneTied(z) {
          assert old(zones.ZoneTied(z));
          ListStays(k, o, m, n, z, zones.zones[z].freeList);
        }
      }
    }

    method Kmalloc(size: nat) returns (ptr: nat)
      requires Valid() && KM.Permitted(View(), KM.HeapOp(HR.OpMalloc(size)))
      modifies heap, ram, pmm`usedFrames, pmm`allocHint, pmm.bitmap
      ensures Valid() && View() == KM.Step(old(View()), KM.HeapOp(HR.OpMalloc(size)))
      ensures ptr == HO.Malloc(old(heap.view), old(pmm.Abs()), 0, size).ptr
      ensures Kept(old(View()), View(), old(ram.cells), ram.cells)
    {
      hide Within, Owns, Partition, KH.Encoded, KH.Linked, KH.Agrees, KH.Untouched, KH.WithinSegs, SA.Listed, VM.Stored, H.Inv, HO.Rounded, HO.Backed, S.Inv, A.SpaceOk, PayloadKept, KH.KeepsBytes, HO.Malloc, HO.SegsGrow;
      ghost var k, m, op := View(), ram.cells, KM.HeapOp(HR.OpMalloc(size));
      KM.StepInv(k, op);
      ptr := heap.Kmalloc(size);
      ghost var k', n := View(), ram.cells;
      assert k' == KM.Step(k, op);
      KH.TiedKeys(old(heap.hdr), k.heap);
      KH.TiedKeys(heap.hdr, k'.heap);
      KH.MallocWithin(k.heap, k.frames, 0, size, m, n);
      WithinHeap(k', m, n);
      KH.MallocKeepsBytes(k.heap, k.frames, 0, size, m, n);
      assert H.Live(k.heap) - {} == H.Live(k.heap);
      PayloadsKept(k.heap, k'.heap, m, n, {});
      PartKept(k, k', InHeap, m, n);
      OthersTied(InHeap);
    }
  
    method Kfree(ptr: nat)
      requires Valid() && KM.Permitted(View(), KM.HeapOp(HR.OpFree(ptr)))
      modifies heap, ram
      ensures Valid() && View() == KM.Step(old(View()), KM.HeapOp(HR.OpFree(ptr)))
      ensures Kept(old(View()), View(), old(ram.cells), ram.cells)
    {
      hide Within, Owns, Partition, KH.Encoded, KH.Linked, KH.Agrees, KH.Untouched, KH.WithinSegs, SA.Listed, VM.Stored, HO.Rounded, HO.Backed, S.Inv, A.SpaceOk, PayloadKept, KH.KeepsBytes, HO.SegsGrow, HR.FreeBlock, H.Shape, H.Accounts, H.FreeOk, H.Coalesced;
      ghost var k, m, op := View(), ram.cells, KM.HeapOp(HR.OpFree(ptr));
      KM.StepInv(k, op);
      KH.TiedKeys(heap.hdr, k.heap);
      heap.Kfree(ptr);
      ghost var k', n := View(), ram.cells;
      assert k' == KM.Step(k, op);
      assert H.Live(k.heap) - {} == H.Live(k.heap);
      if ptr == 0 {
        KH.WithinRefl(m, k'.heap.segs);
        KH.BytesRefl(k.heap, m, 0, H.Live(k.heap));
        PayloadsKept(k.heap, k'.heap, m, n, {});
      } else {
        KH.TiedKeys(heap.hdr, k'.heap);
        KH.FreeWithin(k.heap, ptr - H.HEADER, m, n);
        KH.FreeKeepsBytes(k.heap, ptr - H.HEADER, m, n);
        forall x: nat | ptr - H.HEADER in H.Live(k.heap) && ptr <= x < H.End(k.heap.blocks, ptr - H.HEADER)
          ensures !PayloadByte(k'.heap, x) { FreedApart(k.heap, ptr - H.HEADER, x); }
        PayloadsKept(k.heap, k'.heap, m, n, {ptr - H.HEADER});
      }
      WithinHeap(k', m, n);
      PartKept(k, k', InHeap, m, n);
      OthersTied(InHeap);
    }

    method Krealloc(ptr: nat, size: nat) returns (newPtr: nat)
      requires Valid() && KM.Permitted(View(), KM.HeapOp(HR.OpRealloc(ptr, size)))
      modifies heap, ram, pmm`usedFrames, pmm`allocHint, pmm.bitmap
      ensures Valid() && View() == KM.Step(old(View()), KM.HeapOp(HR.OpRealloc(ptr, size)))
      ensures newPtr == Reallocated(KM.HeapPart(old(View())), ptr, size)
      ensures Kept(old(View()), View(), old(ram.cells), ram.cells)
      ensures ptr != 0 && newPtr != 0 ==>
                KH.SameSpan(old(ram.cells), ptr, ram.cells, newPtr, PayloadSize(old(heap.view), ptr))
    {
      hide Within, Owns, Partition, KH.Encoded, KH.Linked, KH.Agrees, KH.Untouched, KH.WithinSegs, SA.Listed, VM.Stored, HO.Rounded, HO.Backed, S.Inv, A.SpaceOk, PayloadKept, KH.KeepsBytes, HO.SegsGrow, H.Inv, HR.Krealloc, HR.Moved, KH.SameSpan, HO.AlignUp, F.Inv, F.ZeroTaken, Kept;
      ghost var k, m, op := View(), ram.cells, KM.HeapOp(HR.OpRealloc(ptr, size));
      KM.StepInv(k, op);
      newPtr := heap.Krealloc(ptr, size);
      ghost var k', n := View(), ram.cells;
      assert k' == KM.Step(k, op);
      WithinHeap(k', m, n);
      ReallocKept(KM.HeapPart(k), ptr, size, m, n);
      PartKept(k, k', InHeap, m, n);
      OthersTied(InHeap);
    }

    method Zalloc(size: nat) returns (ptr: nat)
      requires Valid()
      modifies zones, zones.zones, ram, pmm`usedFrames, pmm`allocHint, pmm.bitmap
      ensures Valid() && View() == KM.Step(old(View()), KM.SlabAlloc(size))
      ensures ptr == S.Zalloc(old(zones.view), old(pmm.Abs()), size).ptr
      ensures Kept(old(View()), View(), old(ram.cells), ram.cells)
    {
      hide Within, Owns, Partition, KH.Encoded, KH.Linked, KH.Agrees, SA.Listed, VM.Stored, HO.Ready, A.SpaceOk, ChunksKept, SA.KeepsChunks, SA.OnlyNewPages, S.ZoneOk, F.Inv;
      ghost var k, m, op := View(), ram.cells, KM.SlabAlloc(size);
      KM.StepInv(k, op);
      S.ZallocInv(k.slab, k.frames, size);
      ptr := zones.Zalloc(size);
      ghost var k', n := View(), ram.cells;
      assert k' == KM.Step(k, op);
      WithinSlab(k', k.slab, m, n);
      ChunksStayKept(k.slab, k'.slab, k.frames, k'.frames, m, n);
      PartKept(k, k', InSlab, m, n);
      OthersTied(InSlab);
    }

    method Zfree(ptr: nat, size: nat)
      requires Valid() && KM.Permitted(View(), KM.SlabFree(ptr, size))
      modifies zones, zones.zones, ram
      ensures Valid() && View() == KM.Step(old(View()), KM.SlabFree(ptr, size))
      ensures Kept(old(View()), View(), old(ram.cells), ram.cells)
    {
      hide Within, Owns, Partition, KH.Encoded, KH.Linked, KH.Agrees, SA.Listed, VM.Stored, HO.Ready, A.SpaceOk, ChunksKept, SA.KeepsChunks, Changes, F.Inv;
      ghost var k, m, op := View(), ram.cells, KM.SlabFree(ptr, size);
      KM.StepInv(k, op);
      S.ZfreeInv(k.slab, k.frames, ptr, size);
      zones.Zfree(ptr, size);
      ghost var k', n := View(), ram.cells;
      assert k' == KM.Step(k, op);
      var z := S.ZoneFor(size, 0);
      if ptr != 0 && size > 0 && z < S.ZONES {
        assert S.ZoneOk(k.slab, z);
        assert S.Chunk(k.slab, z, ptr) == S.Chunk(k'.slab, z, ptr);
        SA.SizeAtLeast16(z);
        WithinChunk(k', z, ptr, m, n, ptr, 8);
      } else {
        SameWithin(k', InSlab, m);
      }
      ChunksStayKept(k.slab, k'.slab, k.frames, k'.frames, m, n);
      PartKept(k, k', InSlab, m, n);
      OthersTied(InSlab);
    }

    method MapPage(virt: nat, phys: nat, flags: nat)
      requires Valid() && KM.Permitted(View(), KM.Map(virt, phys, flags))
      modifies vmm, ram, pmm`usedFrames, pmm`allocHint, pmm.bitmap
      ensures Valid() && View() == KM.Step(old(View()), KM.Map(virt, phys, flags))
      ensures Kept(old(View()), View(), old(ram.cells), ram.cells)
    {
      hide Within, Owns, Partition, KH.Encoded, KH.Linked, KH.Agrees, SA.Listed, VM.Stored, HO.Ready, S.Inv, A.SpaceOk, A.MapPage, A.Missing, A.Small, VM.OnlyTables;
      ghost var k, m, op := View(), ram.cells, KM.Map(virt, phys, flags);
      KM.StepInv(k, op);
      vmm.MapPage(root, virt, phys, flags);
      ghost var k', n := View(), ram.cells;
      assert k' == KM.Step(k, op);
      WithinTables(k', m, n);
      PartKept(k, k', InTables, m, n);
      OthersTied(InTables);
    }

    method UnmapPage(virt: nat)
      requires Valid() && KM.Permitted(View(), KM.Unmap(virt))
      modifies vmm, ram
      ensures Valid() && View() == KM.Step(old(View()), KM.Unmap(virt))
      ensures Kept(old(View()), View(), old(ram.cells), ram.cells)
    {
      hide Within, Owns, Partition, KH.Encoded, KH.Linked, KH.Agrees, SA.Listed, VM.Stored, HO.Ready, S.Inv, A.SpaceOk, A.Small, VM.OnlyTables;
      ghost var k, m, op := View(), ram.cells, KM.Unmap(virt);
      KM.StepInv(k, op);
      A.UnmapRefines(Tables(k), root, virt);
      vmm.UnmapPage(root, virt);
      ghost var k', n := View(), ram.cells;
      assert k' == KM.Step(k, op);
      WithinTables(k', m, n);
      PartKept(k, k', InTables, m, n);
      OthersTied(InTables);
    }

    method VirtToPhys(virt: nat) returns (phys: nat)
      requires Valid() && A.Small(Tables(View()), root, PT.Vpn(virt))
      ensures phys == A.Translate(Tables(View()), root, virt)
    {
      phys := vmm.VirtToPhys(root, virt);
    }

    /** `pmm_alloc_frame` for a client. */
    method TakeFrame() returns (paddr: nat)
      requires Valid()
      modifies pmm`usedFrames, pmm`allocHint, pmm.bitmap, this`held
      ensures Valid() && View() == KM.Step(old(View()), KM.TakeFrame)
      ensures paddr == F.AllocFrame(old(pmm.Abs())).1 && ram.cells == old(ram.cells)
    {
      hide Owns, Partition, KH.Encoded, KH.Linked, KH.Agrees, SA.Listed, VM.Stored, HO.Ready, S.Inv, A.SpaceOk;
      KM.StepInv(View(), KM.TakeFrame);
      paddr := pmm.AllocFrame();
      held := if paddr == 0 then held else held + {paddr / PAGE};
      assert View() == KM.Step(old(View()), KM.TakeFrame);
    }

    /** `pmm_free_frame` by the client that holds the frame. */
    method GiveFrame(paddr: nat)
      requires Valid() && KM.Permitted(View(), KM.GiveFrame(paddr))
      modifies pmm`usedFrames, pmm`allocHint, pmm.bitmap, this`held
      ensures Valid() && View() == KM.Step(old(View()), KM.GiveFrame(paddr)) && ram.cells == old(ram.cells)
    {
      hide Owns, Partition, KH.Encoded, KH.Linked, KH.Agrees, SA.Listed, VM.Stored, HO.Ready, S.Inv, A.SpaceOk;
      KM.StepInv(View(), KM.GiveFrame(paddr));
      pmm.MarkFree(paddr);
      held := held - {paddr / PAGE};
      assert View() == KM.Step(old(View()), KM.GiveFrame(paddr));
    }

    /** A client writes a byte of its own: no header, link or table entry changes, and no other byte. */
    method WriteByte(x: nat, b: Byte)
      requires Valid() && |zones.view.live| == S.ZONES && ClientByte(View(), x)
      modifies ram
      ensures Valid() && View() == old(View()) && ram.cells == old(ram.cells)[x := Data(b)]
    {
      hide Within, Owns, Partition, KH.Linked, SA.Listed, VM.Stored, HO.Ready, A.SpaceOk, Inv, PayloadByte, ChunkData;
      ghost var k, m := View(), ram.cells;
      ClientOwner(k, x);
      ram.StoreByte(x, b);
      ghost var n := ram.cells;
      if PayloadByte(k.heap, x) {
        OneByteWithin(k, InHeap, m, n, x);
        OthersTied(InHeap);
        PayloadWrite(k, m, n, heap.hdr, x);
      } else if ChunkData(k.slab, x) {
        OneByteWithin(k, InSlab, m, n, x);
        OthersTied(InSlab);
        forall z: nat | z < S.ZONES ensures zones.ZoneTied(z) {
          assert old(zones.ZoneTied(z));
          ChunkWrite(k, m, n, z, zones.zones[z].freeList, x);
        }
      } else {
        OneByteWithin(k, Client, m, n, x);
        OthersTied(Client);
      }
    }
  
    /** One action, whatever it is. */
    method Do(a: Action)
      requires Valid() && Allowed(View(), a)
      modifies heap, zones, zones.zones, vmm, ram, pmm`usedFrames, pmm`allocHint, pmm.bitmap, this`held
      ensures Valid() && View() == After(old(View()), a)
      ensures forall x: nat {:trigger SameByte(old(ram.cells), ram.cells, x)} ::
                ClientByte(old(View()), x) && ClientByte(View(), x) && !(a.Write? && a.x == x) ==> SameByte(old(ram.cells), ram.cells, x)
    {
      hide Inv, KH.Encoded, KH.Linked, KH.Agrees, SA.Listed, VM.Stored, ClientByte, KM.Step;
      ReadyPartition(View());
      match a {
        case Call(op) =>
          match op {
            case HeapOp(h) =>
              match h {
                case OpMalloc(size) => var _ := Kmalloc(size);
                case OpFree(ptr) => Kfree(ptr);
                case OpRealloc(ptr, size) => var _ := Krealloc(ptr, size);
              }
            case SlabAlloc(size) => var _ := Zalloc(size);
            case SlabFree(ptr, size) => Zfree(ptr, size);
            case Map(virt, phys, flags) => MapPage(virt, phys, flags);
            case Unmap(virt) => UnmapPage(virt);
            case TakeFrame => var _ := TakeFrame();
            case GiveFrame(paddr) => GiveFrame(paddr);
          }
        case Write(x, b) => WriteByte(x, b);
      }
    }

    /** Any interleaving of calls and client writes: in the end headers, links and tables in memory
        represent the state the calls lead to, and every undisturbed client byte has kept its value. */
    method Execute(run: seq<Action>)
      requires Valid() && AllowedRun(View(), run)
      modifies heap, zones, zones.zones, vmm, ram, pmm`usedFrames, pmm`allocHint, pmm.bitmap, this`held
      ensures Valid() && View() == Final(old(View()), run)
      ensures forall x: nat {:trigger SameByte(old(ram.cells), ram.cells, x)} ::
                Undisturbed(old(View()), run, x) ==> SameByte(old(ram.cells), ram.cells, x)
    {
      hide Inv, KH.Encoded, KH.Linked, KH.Agrees, SA.Listed, VM.Stored, ClientByte, Allowed, After;
      ghost var k0, m0 := View(), ram.cells;
      assert run[0..] == run;
      for i := 0 to |run|
        invariant Valid() && AllowedRun(View(), run[i..]) && Final(View(), run[i..]) == Final(k0, run)
        invariant forall x: nat {:trigger SameByte(m0, ram.cells, x)} ::
                    Undisturbed(k0, run, x) ==> SameByte(m0, ram.cells, x) && Undisturbed(View(), run[i..], x)
      {
        ghost var k, m := View(), ram.cells;
        assert run[i..][1..] == run[i + 1..];
        Do(run[i]);
        forall x: nat | Undisturbed(k0, run, x) ensures SameByte(m0, ram.cells, x) && Undisturbed(View(), run[i + 1..], x) {
          assert SameByte(m0, m, x) && Undisturbed(k, run[i..], x);
          UndisturbedStep(k, run[i..], x);
        }
      }
      assert run[|run|..] == [];
    }
  }

  lemma UndisturbedStep(k: Kernel, run: seq<Action>, x: nat)
    requires Ready(k) && AllowedRun(k, run) && run != [] && Undisturbed(k, run, x)
    ensures var k' := After(k, run[0]);
            && |k.slab.live| == |k'.slab.live| == S.ZONES && ClientByte(k, x) && ClientByte(k', x)
            && Undisturbed(k', run[1..], x) && !(run[0].Write? && run[0].x == x)
  {
    ReadyPartition(k);
    ReadyPartition(After(k, run[0]));
  }

  lemma SameWithin(k: Kernel, o: Owner, m: Cells)
    ensures Within(k, o, m, m)
  {
  }

  lemma OneByteWithin(k: Kernel, o: Owner, m: Cells, n: Cells, x: nat)
    requires Changes(m, n, x, 1) && ByteOf(k, o, x)
    ensures Within(k, o, m, n)
  {
    hide Owns;
  }

  /** A store into a live payload leaves all headers in memory. */
  lemma PayloadWrite(k: Kernel, m: Cells, n: Cells, hdr: map<nat, KH.Header>, x: nat)
    requires Ready(k) && Changes(m, n, x, 1) && PayloadByte(k.heap, x)
    requires KH.Encoded(m, hdr) && KH.Agrees(hdr, k.heap.blocks)
    ensures KH.Encoded(n, hdr)
  {
    hide KH.Encoded, KH.Agrees, HO.Backed, HO.Rounded, S.Inv, A.SpaceOk, Partition;
    var a :| a in H.Live(k.heap) && a + H.HEADER <= x < H.End(k.heap.blocks, a);
    KH.PayloadWriteTied(m, n, hdr, k.heap, a);
  }

  /** A store into a live chunk leaves every free list in memory. */
  lemma ChunkWrite(k: Kernel, m: Cells, n: Cells, y: nat, head: nat, x: nat)
    requires Ready(k) && Changes(m, n, x, 1) && ChunkData(k.slab, x) && y < S.ZONES && SA.Listed(m, head, k.slab.free[y])
    ensures SA.Listed(n, head, k.slab.free[y])
  {
    hide SA.Listed, HO.Ready, A.SpaceOk, Partition;
    var z: nat, c :| z < S.ZONES && c in k.slab.live[z] && c <= x < c + S.ChunkSize(z);
    S.NotFree(k.slab, k.frames, z, c, y);
    SA.ListAfterChange(k.slab, k.frames, z, c, y, m, n, x, 1, head);
  }

  /** What `krealloc` leaves alone: every payload that is live before and after. */
  lemma ReallocKept(s: HR.System, ptr: nat, size: nat, m: Cells, n: Cells)
    requires HR.Good(s) && HR.Permitted(s, HR.OpRealloc(ptr, size))
    requires var newPtr := HR.Krealloc(s, ptr, size).1;
             var gone := if ptr != 0 && (newPtr != 0 || size == 0) then {ptr - H.HEADER} else {};
             && H.Live(s.heap) - gone <= s.heap.blocks.Keys && KH.KeepsBytes(s.heap, m, n, H.Live(s.heap) - gone)
             && (ptr != 0 && newPtr != 0 ==> KH.SameSpan(m, ptr, n, newPtr, s.heap.blocks[ptr - H.HEADER].size))
    ensures PayloadKept(s.heap, HR.Krealloc(s, ptr, size).0.heap, m, n)
  {
    hide H.Inv, HO.Rounded, HO.Backed, F.Inv, HO.Malloc, HO.MallocRounded, HR.FreeBlock, KH.KeepsBytes, KH.SameSpan, HO.AlignUp, PayloadByte;
    var h := s.heap;
    var (t, newPtr) := HR.Krealloc(s, ptr, size);
    var a: nat := if ptr == 0 then 0 else ptr - H.HEADER;
    assert H.Live(h) <= h.blocks.Keys;
    HO.RoundedTo8(size);
    if ptr == 0 || (newPtr == 0 && size != 0) {
      assert H.Live(h) - {} == H.Live(h);
      PayloadsKept(h, t.heap, m, n, {});
    } else if size == 0 {
      forall x: nat | a in H.Live(h) && ptr <= x < H.End(h.blocks, a) ensures !PayloadByte(t.heap, x) { FreedApart(h, a, x); }
      PayloadsKept(h, t.heap, m, n, {a});
    } else if HO.AlignUp(size, 8) <= h.blocks[a].size {
      KeepsWith(h, m, n, a);
      PayloadsKept(h, t.heap, m, n, {});
    } else {
      forall x: nat | a in H.Live(h) && ptr <= x < H.End(h.blocks, a) ensures !PayloadByte(t.heap, x) {
        MovedApart(s, a, HO.AlignUp(size, 8), x);
      }
      PayloadsKept(h, t.heap, m, n, {a});
    }
  }

  lemma KeepsWith(h: H.Heap, m: Cells, n: Cells, a: nat)
    requires a in H.Live(h) && H.Live(h) <= h.blocks.Keys && KH.KeepsBytes(h, m, n, H.Live(h) - {a})
    requires KH.SameSpan(m, a + H.HEADER, n, a + H.HEADER, h.blocks[a].size)
    ensures KH.KeepsBytes(h, m, n, H.Live(h) - {})
  {
  }
}
