/** The memory system as a whole: heap, slab zones, page tables and direct clients of the frame
    allocator in any interleaving of calls. */
module KernelMemory {
  import F = Frames
  import B = Boot
  import H = HeapModel
  import HO = HeapOps
  import HR = HeapRuns
  import S = SlabModel
  import PT = PageTables
  import A = AddressSpace
  import opened Ownership

  datatype Op =
    | HeapOp(op: HR.Op)
    | SlabAlloc(size: nat)
    | SlabFree(ptr: nat, size: nat)
    | Map(virt: nat, phys: nat, flags: nat)
    | Unmap(virt: nat)
    | TakeFrame
    | GiveFrame(paddr: nat)

  function HeapPart(k: Kernel): HR.System {
    HR.System(k.heap, k.frames, k.heapOff)
  }

  /** Calls with correctly paired frees; direct clients free only frames they hold, and pages are mapped
      and unmapped outside large pages. */
  ghost predicate Permitted(k: Kernel, op: Op) {
    match op
    case HeapOp(h) => HR.Permitted(HeapPart(k), h)
    case SlabAlloc(_) => true
    case SlabFree(ptr, size) =>
      ptr != 0 && size > 0 && S.ZoneFor(size, 0) < S.ZONES ==>
        |k.slab.live| == S.ZONES && ptr in k.slab.live[S.ZoneFor(size, 0)]
    case Map(virt, _, _) => A.CanMap(Tables(k), k.root, virt)
    case Unmap(virt) => A.Small(Tables(k), k.root, PT.Vpn(virt))
    case TakeFrame => true
    case GiveFrame(paddr) => paddr / PAGE in k.held
  }

  function Step(k: Kernel, op: Op): Kernel
    requires Inv(k) && Permitted(k, op)
  {
    match op
    case HeapOp(h) =>
      var t := HR.Step(HeapPart(k), h);
      k.(heap := t.heap, frames := t.frames)
    case SlabAlloc(size) =>
      var r := S.Zalloc(k.slab, k.frames, size);
      k.(slab := r.slab, frames := r.frames)
    case SlabFree(ptr, size) => k.(slab := S.Zfree(k.slab, ptr, size))
    case Map(virt, phys, flags) =>
      var s := A.MapPage(Tables(k), k.root, virt, phys, flags);
      k.(mem := s.mem, tables := s.own, frames := s.frames)
    case Unmap(virt) => k.(mem := A.UnmapPage(Tables(k), k.root, virt).mem)
    case TakeFrame =>
      var (f, pa) := F.AllocFrame(k.frames);
      k.(frames := f, held := if pa == 0 then k.held else k.held + {pa / PAGE})
    case GiveFrame(paddr) => k.(frames := F.MarkFree(k.frames, paddr), held := k.held - {paddr / PAGE})
  }

  // ----- the heap -----

  /** The frames from `first` on, `n` of them. */
  function RunOf(first: nat, n: nat): (r: set<nat>)
    ensures forall i: nat :: i in r <==> first <= i < first + n
  {
    if n == 0 then {} else RunOf(first, n - 1) + {first + n - 1}
  }

  /** The segments after a heap call: the old ones, and possibly one made of frames that were free. */
  ghost predicate SegmentsGrow(s: HR.System, t: HR.System, pa: nat, n: nat) {
    if n == 0 then t.heap.segs == s.heap.segs && t.frames == s.frames
    else F.Granted(s.frames, t.frames, pa, n) && t.heap.segs == s.heap.segs[pa + s.off := n * PAGE]
         && pa + s.off !in s.heap.segs
  }

  lemma MallocSegments(s: HR.System, n: nat) returns (pa: nat, pages: nat)
    requires HR.Good(s)
    ensures SegmentsGrow(s, HR.Updated(s, HO.MallocRounded(s.heap, s.frames, s.off, n)), pa, pages)
  {
    hide HO.Take, F.AllocContiguous, HO.Rounded, HO.Backed, H.Coalesced, H.Accounts, F.ZeroTaken, F.Inv;
    var k := HO.FirstFit(s.heap, n, 0);
    pa, pages := 0, 0;
    if k == |s.heap.free| {
      var want := HO.PagesFor(n);
      F.AllocContiguousTakes(s.frames, want);
      var f := F.AllocContiguous(s.frames, want).0;
      pa := F.AllocContiguous(s.frames, want).1;
      if pa != 0 {
        pages := want;
        HO.GrowReady(s.heap, s.frames, f, s.off, pa, pages);
        HO.TakeSegs(HO.Grown(s.heap, pa + s.off, pages), pa + s.off, n);
        assert pa + s.off in s.heap.segs ==> H.SegOk(s.heap.blocks, s.heap.segs, pa + s.off);
      }
    } else {
      HO.TakeSegs(s.heap, s.heap.free[k], n);
    }
  }

  lemma FreeSegments(s: HR.System, ptr: nat)
    requires HR.Good(s) && (ptr != 0 ==> ptr >= H.HEADER && ptr - H.HEADER in s.heap.blocks)
    ensures HR.Kfree(s, ptr).heap.segs == s.heap.segs && HR.Kfree(s, ptr).frames == s.frames
  {
    if ptr != 0 { HR.FreeInv(s.heap, ptr - H.HEADER); }
  }

  lemma StepSegments(s: HR.System, op: HR.Op) returns (pa: nat, n: nat)
    requires HR.Good(s) && HR.Permitted(s, op)
    ensures SegmentsGrow(s, HR.Step(s, op), pa, n)
    ensures HR.Step(s, op).off == s.off
  {
    hide HO.MallocRounded, HO.Ready, HO.AlignUp, HR.FreeBlock;
    pa, n := 0, 0;
    if !op.OpFree? { HO.RoundedTo8(op.size); }
    match op
    case OpMalloc(size) =>
      if size > 0 { pa, n := MallocSegments(s, HO.AlignUp(size, 8)); }
    case OpFree(ptr) => FreeSegments(s, ptr);
    case OpRealloc(ptr, size) =>
      if size == 0 {
        if ptr != 0 { FreeSegments(s, ptr); }
      } else if ptr == 0 {
        pa, n := MallocSegments(s, HO.AlignUp(size, 8));
      } else if HO.AlignUp(size, 8) > s.heap.blocks[ptr - H.HEADER].size {
        var m := HO.AlignUp(size, 8);
        pa, n := MallocSegments(s, m);
        HO.MallocRoundedOk(s.heap, s.frames, s.off, m);
        var r := HO.MallocRounded(s.heap, s.frames, s.off, m);
        if r.ptr != 0 { FreeSegments(HR.Updated(s, r), ptr); }
      }
  }

  /** The frames of the segments after a heap call. */
  lemma HeapGains(k: Kernel, k': Kernel, pa: nat, n: nat)
    requires SegmentsGrow(HeapPart(k), HeapPart(k'), pa, n) && Partition(k)
    requires F.Inv(k.frames) && F.ZeroTaken(k.frames)
    requires k' == k.(heap := k'.heap, frames := k'.frames)
    ensures Takes(k.frames, k'.frames, RunOf(pa / PAGE, n)) && Gains(k, k', InHeap, RunOf(pa / PAGE, n))
  {
    var taken := RunOf(pa / PAGE, n);
    var segs, segs', off := k.heap.segs, k'.heap.segs, k.heapOff;
    forall i: nat, p ensures Owns(k', p, i) <==> Owns(k, p, i) || (p == InHeap && i in taken) {
      if p == InHeap {
        if n > 0 { assert InSegment(segs', off, pa + off, i) <==> i in taken; }
        if s :| s in segs && InSegment(segs, off, s, i) { assert InSegment(segs', off, s, i); }
        if s :| s in segs' && InSegment(segs', off, s, i) { assert s in segs ==> InSegment(segs, off, s, i); }
      }
    }
  }

  /** When one part gains frames that were free, the invariant needs to be checked for that part only. */
  lemma PartGains(k: Kernel, k': Kernel, o: Owner, taken: set<nat>)
    requires Inv(k) && Takes(k.frames, k'.frames, taken) && Gains(k, k', o, taken)
    ensures Partition(k')
    ensures HO.Ready(k.heap, k'.frames, k.heapOff) && S.Inv(k.slab, k'.frames) && A.SpaceOk(Tables(k).(frames := k'.frames))
  {
    hide Owns, Takes, HO.Ready, S.Inv, A.SpaceOk, StillTaken;
    PartitionGains(k, k', o, taken);
    AllStay(k, k'.frames, taken, InHeap);
    AllStay(k, k'.frames, taken, InSlab);
    AllStay(k, k'.frames, taken, InTables);
    AllStay(k, k'.frames, taken, Reserved);
    HeapStays(k, k'.frames);
    SlabStays(k, k'.frames);
    TablesStay(k, k'.frames);
  }

  lemma HeapInv(k: Kernel, op: HR.Op) returns (taken: set<nat>)
    requires Inv(k) && HR.Permitted(HeapPart(k), op)
    ensures Inv(Step(k, HeapOp(op))) && Gains(k, Step(k, HeapOp(op)), InHeap, taken)
  {
    hide Owns, Takes, S.Inv, A.SpaceOk, HR.Step, Partition, Gains;
    assert HR.Good(HeapPart(k));
    var k' := Step(k, HeapOp(op));
    var pa, n := StepSegments(HeapPart(k), op);
    assert HR.Good(HeapPart(k'));
    HeapGains(k, k', pa, n);
    taken := RunOf(pa / PAGE, n);
    PartGains(k, k', InHeap, taken);
  }

  // ----- the slab zones -----

  /** The pages after `zalloc`: the old ones, and possibly a frame that was free. */
  ghost predicate PagesGrow(k: Kernel, slab: S.Slab, f: F.Frames, pa: nat) {
    && slab.off == k.slab.off
    && if pa == 0 then slab.pages == k.slab.pages && f == k.frames
       else Takes(k.frames, f, {pa / PAGE}) && pa % PAGE == 0 && slab.pages.Keys == k.slab.pages.Keys + {pa + slab.off}
  }

  lemma AllocTakes(f: F.Frames)
    requires F.Inv(f) && F.ZeroTaken(f)
    ensures var (f', pa) := F.AllocFrame(f);
            && pa % PAGE == 0
            && if pa == 0 then f' == f else Takes(f, f', {pa / PAGE})
  {
    F.AllocFrameTakes(f);
  }

  lemma SlabPages(k: Kernel, size: nat) returns (pa: nat)
    requires S.Inv(k.slab, k.frames)
    ensures var r := S.Zalloc(k.slab, k.frames, size);
            PagesGrow(k, r.slab, r.frames, pa)
  {
    hide Takes, F.Inv, F.ZeroTaken, S.ZoneOk, S.ChunkSize, S.Carve, F.AllocFrame;
    pa := 0;
    var z := S.ZoneFor(size, 0);
    if size > 0 && z < S.ZONES && k.slab.free[z] == [] {
      S.StockInv(k.slab, k.frames, z);
      AllocTakes(k.frames);
      pa := F.AllocFrame(k.frames).1;
      if pa != 0 { S.RefillInv(k.slab, k.frames, z); }
    }
  }

  lemma SlabGains(k: Kernel, k': Kernel, pa: nat)
    requires PagesGrow(k, k'.slab, k'.frames, pa) && F.Inv(k.frames) && F.ZeroTaken(k.frames)
    requires k' == k.(slab := k'.slab, frames := k'.frames)
    ensures var taken := if pa == 0 then {} else {pa / PAGE};
            Takes(k.frames, k'.frames, taken) && Gains(k, k', InSlab, taken)
  {
    var taken := if pa == 0 then {} else {pa / PAGE};
    forall i: nat, p ensures Owns(k', p, i) <==> Owns(k, p, i) || (p == InSlab && i in taken) {
      if p == InSlab { assert i * PAGE + k.slab.off == pa + k.slab.off <==> i == pa / PAGE && pa % PAGE == 0; }
    }
  }

  lemma SlabAllocInv(k: Kernel, size: nat) returns (taken: set<nat>)
    requires Inv(k)
    ensures Inv(Step(k, SlabAlloc(size))) && Gains(k, Step(k, SlabAlloc(size)), InSlab, taken) && |taken| <= 1
  {
    hide Owns, Takes, HO.Ready, S.Inv, A.SpaceOk, S.Zalloc, Partition, Gains;
    var k' := Step(k, SlabAlloc(size));
    S.ZallocInv(k.slab, k.frames, size);
    var pa := SlabPages(k, size);
    assert F.Inv(k.frames) && F.ZeroTaken(k.frames) by { SlabFrames(k.slab, k.frames); }
    SlabGains(k, k', pa);
    taken := if pa == 0 then {} else {pa / PAGE};
    PartGains(k, k', InSlab, taken);
  }

  lemma SlabFrames(s: S.Slab, f: F.Frames)
    requires S.Inv(s, f)
    ensures F.Inv(f) && F.ZeroTaken(f)
  {
  }

  // ----- the page tables -----

  /** The tables after a descent: the old ones, and the frames of `taken`. */
  ghost predicate TablesGrow(s: A.Space, s': A.Space, taken: set<nat>) {
    && Takes(s.frames, s'.frames, taken)
    && forall t: nat {:trigger t in s'.own} :: t in s'.own <==> t in s.own || (t % PAGE == 0 && t / PAGE in taken)
  }

  lemma TablesGrowTrans(s: A.Space, t: A.Space, u: A.Space, a: set<nat>, b: set<nat>)
    requires TablesGrow(s, t, a) && TablesGrow(t, u, b)
    ensures TablesGrow(s, u, a + b)
  {
    forall i | i in a + b ensures i < |s.frames.bits| && !s.frames.bits[i] {
      assert Taken(t.frames, i) <==> Taken(s.frames, i) || i in a;
    }
    forall i: nat ensures Taken(u.frames, i) <==> Taken(s.frames, i) || i in a + b {
      assert Taken(t.frames, i) <==> Taken(s.frames, i) || i in a;
    }
  }

  lemma NextTableGrows(s: A.Space, root: nat, t: nat, level: nat, vpn: nat) returns (taken: set<nat>)
    requires A.CanDescend(s, root, t, level, vpn) && 1 < level
    ensures TablesGrow(s, A.NextTable(s, t, PT.Index(vpn, level)).0, taken)
  {
    taken := {};
    if !PT.Present(s.mem[t][PT.Index(vpn, level)]) {
      A.MissingFree(s, root, t, level, vpn);
      A.FreshFrame(s, t, PT.Index(vpn, level));
      AllocTakes(s.frames);
      F.AllocFrameTakes(s.frames);
      taken := {F.AllocFrame(s.frames).1 / PAGE};
    }
  }

  lemma {:induction false} PathGrows(s: A.Space, root: nat, t: nat, level: nat, vpn: nat) returns (taken: set<nat>)
    requires A.CanDescend(s, root, t, level, vpn)
    ensures TablesGrow(s, A.PathTo(s, t, level, vpn).0, taken)
    decreases level
  {
    hide TablesGrow, A.NextTable, A.Missing, PT.Tree, F.Inv, A.SamePages, A.Grows;
    if level == 1 {
      taken := {};
      GrowNothing(s);
    } else {
      A.StepDown(s, root, t, level, vpn);
      var (s1, next) := A.NextTable(s, t, PT.Index(vpn, level));
      var first := NextTableGrows(s, root, t, level, vpn);
      var rest := PathGrows(s1, root, next, level - 1, vpn);
      TablesGrowTrans(s, s1, A.PathTo(s1, next, level - 1, vpn).0, first, rest);
      taken := first + rest;
    }
  }

  lemma GrowNothing(s: A.Space)
    requires A.SpaceOk(s)
    ensures TablesGrow(s, s, {})
  {
  }

  lemma TablesGain(k: Kernel, k': Kernel, taken: set<nat>)
    requires Inv(k) && TablesGrow(Tables(k), Tables(k'), taken)
    requires k' == k.(mem := k'.mem, tables := k'.tables, frames := k'.frames)
    ensures Takes(k.frames, k'.frames, taken) && Gains(k, k', InTables, taken)
  {
    forall i: nat, p ensures Owns(k', p, i) <==> Owns(k, p, i) || (p == InTables && i in taken) {
      if p == InTables {
        assert i * PAGE / PAGE == i && i * PAGE % PAGE == 0;
        assert i in taken && i < k.boot ==> Owns(k, Reserved, i) && Owned(k, i);
        assert i in taken ==> !Taken(k.frames, i);
      }
    }
  }

  lemma MapInv(k: Kernel, virt: nat, phys: nat, flags: nat) returns (taken: set<nat>)
    requires Inv(k) && A.CanMap(Tables(k), k.root, virt)
    ensures Inv(Step(k, Map(virt, phys, flags))) && Gains(k, Step(k, Map(virt, phys, flags)), InTables, taken)
  {
    hide Owns, Takes, HO.Ready, S.Inv, A.SpaceOk, Partition, Gains, A.PathTo, A.Missing, A.Pages, A.Grows;
    A.SpaceParts(Tables(k));
    A.RootStands(Tables(k), k.root, virt);
    var k' := Step(k, Map(virt, phys, flags));
    A.MapRefines(Tables(k), k.root, virt, phys, flags);
    taken := PathGrows(Tables(k), k.root, k.root, 4, PT.Vpn(virt));
    assert TablesGrow(Tables(k), Tables(k'), taken);
    TablesGain(k, k', taken);
    PartGains(k, k', InTables, taken);
  }

  // ----- the other steps -----

  lemma UnmapInv(k: Kernel, virt: nat)
    requires Inv(k) && Permitted(k, Unmap(virt))
    ensures Inv(Step(k, Unmap(virt))) && Gains(k, Step(k, Unmap(virt)), Reserved, {})
  {
    A.UnmapRefines(Tables(k), k.root, virt);
    SameOwners(k, Step(k, Unmap(virt)));
  }

  lemma SlabFreeInv(k: Kernel, ptr: nat, size: nat)
    requires Inv(k) && Permitted(k, SlabFree(ptr, size))
    ensures Inv(Step(k, SlabFree(ptr, size))) && Gains(k, Step(k, SlabFree(ptr, size)), Reserved, {})
  {
    S.ZfreeInv(k.slab, k.frames, ptr, size);
    SameOwners(k, Step(k, SlabFree(ptr, size)));
  }

  lemma SameOwners(k: Kernel, k': Kernel)
    requires Partition(k) && k'.frames == k.frames && k'.heap == k.heap && k'.heapOff == k.heapOff
    requires k'.slab.pages == k.slab.pages && k'.slab.off == k.slab.off
    requires k'.tables == k.tables && k'.held == k.held && k'.boot == k.boot
    ensures Partition(k') && Gains(k, k', Reserved, {})
  {
    forall i: nat, p ensures Owns(k', p, i) <==> Owns(k, p, i) {}
    forall i: nat ensures Taken(k'.frames, i) <==> Owned(k', i) {
      assert Taken(k.frames, i) <==> Owned(k, i);
      if p :| Owns(k, p, i) { assert Owns(k', p, i); }
      if p :| Owns(k', p, i) { assert Owns(k, p, i); }
    }
  }

  lemma TakeInv(k: Kernel) returns (taken: set<nat>)
    requires Inv(k)
    ensures Inv(Step(k, TakeFrame)) && Gains(k, Step(k, TakeFrame), Client, taken)
  {
    hide HO.Ready, S.Inv, A.SpaceOk, Partition, Takes;
    var k' := Step(k, TakeFrame);
    assert F.Inv(k.frames) && F.ZeroTaken(k.frames) by { SlabFrames(k.slab, k.frames); }
    AllocTakes(k.frames);
    var pa := F.AllocFrame(k.frames).1;
    taken := if pa == 0 then {} else {pa / PAGE};
    if pa == 0 {
      SameOwners(k, k');
    } else {
      PartGains(k, k', Client, taken);
    }
  }

  /** The client gives up frame `i`; nobody else gains or loses a frame. */
  ghost predicate Loses(k: Kernel, k': Kernel, i: nat) {
    forall j: nat, p {:trigger Owns(k', p, j)} :: Owns(k', p, j) <==> Owns(k, p, j) && !(p == Client && j == i)
  }

  lemma FreeTaken(f: F.Frames, paddr: nat)
    requires F.Inv(f) && Taken(f, paddr / PAGE)
    ensures var f' := F.MarkFree(f, paddr);
            && |f'.bits| == |f.bits| && (paddr / PAGE != 0 && F.ZeroTaken(f) ==> F.ZeroTaken(f'))
            && forall j: nat {:trigger Taken(f', j)} :: Taken(f', j) <==> Taken(f, j) && j != paddr / PAGE
  {
  }

  lemma GiveInv(k: Kernel, paddr: nat)
    requires Inv(k) && paddr / PAGE in k.held && k.boot > 0
    ensures Inv(Step(k, GiveFrame(paddr))) && Loses(k, Step(k, GiveFrame(paddr)), paddr / PAGE)
  {
    hide HO.Ready, S.Inv, A.SpaceOk, StillTaken;
    var i := paddr / PAGE;
    var k' := Step(k, GiveFrame(paddr));
    assert F.Inv(k.frames) && F.ZeroTaken(k.frames) by { SlabFrames(k.slab, k.frames); }
    assert Owns(k, Client, i) && Owned(k, i) && Taken(k.frames, i);
    assert Owns(k, Reserved, 0);
    FreeTaken(k.frames, paddr);
    GivePartition(k, k', i);
    OthersStay(k, k'.frames, i, InHeap);
    OthersStay(k, k'.frames, i, InSlab);
    OthersStay(k, k'.frames, i, InTables);
    OthersStay(k, k'.frames, i, Reserved);
    HeapStays(k, k'.frames);
    SlabStays(k, k'.frames);
    TablesStay(k, k'.frames);
  }

  lemma OthersStay(k: Kernel, f: F.Frames, i: nat, o: Owner)
    requires Partition(k) && Owns(k, Client, i) && o != Client
    requires F.Inv(f) && F.ZeroTaken(f) && |f.bits| == |k.frames.bits|
    requires forall j: nat {:trigger Taken(f, j)} :: Taken(f, j) <==> Taken(k.frames, j) && j != i
    ensures StillTaken(k, o, f)
  {
    hide Owns;
    forall j: nat | Owns(k, o, j) ensures Taken(f, j) {
      assert Owned(k, j);
      assert Taken(k.frames, j);
    }
  }

  lemma GivePartition(k: Kernel, k': Kernel, i: nat)
    requires Partition(k) && Owns(k, Client, i) && Loses(k, k', i)
    requires forall j: nat {:trigger Taken(k'.frames, j)} :: Taken(k'.frames, j) <==> Taken(k.frames, j) && j != i
    ensures Partition(k')
  {
    hide Owns;
    forall j: nat ensures Taken(k'.frames, j) <==> Owned(k', j) {
      assert Taken(k.frames, j) <==> Owned(k, j);
      if p :| Owns(k, p, j) { assert Owns(k', p, j) <==> !(p == Client && j == i); }
      if p :| Owns(k', p, j) { assert Owns(k, p, j); }
    }
    forall j: nat, p, q | Owns(k', p, j) && Owns(k', q, j) ensures p == q {
      assert Owns(k, p, j) && Owns(k, q, j);
    }
  }

  // ----- whole runs -----

  /** Every step keeps the invariant of every part and gives each used frame exactly one owner; a
      frame changes hands only when it was free, or when the client that holds it gives it back. */
  lemma StepInv(k: Kernel, op: Op)
    requires Inv(k) && Permitted(k, op) && k.boot > 0
    ensures Inv(Step(k, op))
    ensures forall i: nat, o {:trigger Owns(Step(k, op), o, i)} :: Owns(k, o, i) && !(o == Client && op.GiveFrame? && i == op.paddr / PAGE)
              ==> Owns(Step(k, op), o, i)
  {
    hide Inv, Step, Owns;
    match op
    case HeapOp(h) => var _ := HeapInv(k, h);
    case SlabAlloc(size) => var _ := SlabAllocInv(k, size);
    case SlabFree(ptr, size) => SlabFreeInv(k, ptr, size);
    case Map(virt, phys, flags) => var _ := MapInv(k, virt, phys, flags);
    case Unmap(virt) => UnmapInv(k, virt);
    case TakeFrame => var _ := TakeInv(k);
    case GiveFrame(paddr) => GiveInv(k, paddr);
  }

  lemma BootKept(k: Kernel, op: Op)
    requires Inv(k) && Permitted(k, op)
    ensures var k' := Step(k, op); k'.boot == k.boot && k'.root == k.root && k'.heapOff == k.heapOff && k'.slab.off == k.slab.off
  {
    hide S.Inv;
    if op.SlabAlloc? { var _ := SlabPages(k, op.size); }
  }

  /** `t` is reached from `k` by a run of permitted calls. */
  ghost predicate Reaches(k: Kernel, ops: seq<Op>, t: Kernel)
    requires Inv(k) && k.boot > 0
    decreases |ops|
  {
    if ops == [] then k == t
    else
      Permitted(k, ops[0]) && (StepInv(k, ops[0]); BootKept(k, ops[0]); Reaches(Step(k, ops[0]), ops[1..], t))
  }

  /** Over every run the invariant holds, and what the heap, the slab zones and the page tables once
      own they own for good. */
  lemma {:induction false} RunInv(k: Kernel, ops: seq<Op>, t: Kernel)
    requires Inv(k) && k.boot > 0 && Reaches(k, ops, t)
    ensures Inv(t) && t.boot == k.boot && t.root == k.root && t.heapOff == k.heapOff && t.slab.off == k.slab.off
    ensures forall i: nat, o {:trigger Owns(t, o, i)} :: Owns(k, o, i) && o != Client ==> Owns(t, o, i)
    decreases |ops|
  {
    hide Inv, Step, Permitted, Owns;
    if ops != [] {
      StepInv(k, ops[0]);
      BootKept(k, ops[0]);
      var k' := Step(k, ops[0]);
      RunInv(k', ops[1..], t);
      forall i: nat, o | Owns(k, o, i) && o != Client ensures Owns(t, o, i) {
        assert Owns(k', o, i);
      }
    }
  }

  /** The memory system after boot: nothing handed out yet, the page tables in reserved frames. */
  function Booted(end: nat, total: nat, off: nat, mem: map<nat, seq<nat>>, tables: map<nat, PT.Node>, root: nat): Kernel {
    Kernel(B.BootFrames(end, total), H.EMPTY, off, S.Empty(off), mem, tables, root, {}, B.ReservedFrames(end, B.RamSize(total)))
  }

  /** The tables that boot hands over: a tree within the image, in a memory that can be read frame by frame. */
  ghost predicate HandedOver(end: nat, total: nat, mem: map<nat, seq<nat>>, tables: map<nat, PT.Node>, root: nat) {
    var n := B.RamSize(total) / PAGE;
    && PT.Tree(mem, tables) && root in tables && tables[root] == PT.Node(4, 0) && n <= 0x100_0000_0000
    && (forall t :: t in tables ==> t / PAGE < n && t < end)
    && (forall i: nat :: i < n ==> i * PAGE in mem && |mem[i * PAGE]| == PT.ENTRIES)
  }

  /** The page directory of boot: 512 large pages of 2 MB. */
  function LargePages(): seq<nat> {
    seq(PT.ENTRIES, i requires 0 <= i => 0x20_0000 * i + 0x83)
  }

  /** The three tables that boot leaves behind form a tree, and every page from 1 GB on is small: it can
      be mapped and unmapped. */
  lemma BootTables(pml4: nat, pdpt: nat, pd: nat, mem: map<nat, seq<nat>>)
    requires forall t :: t in {pml4, pdpt, pd} ==> t % PAGE == 0 && 0 < t < PT.ADDR_RANGE && t in mem
    requires pml4 != pdpt && pml4 != pd && pdpt != pd
    requires mem[pml4] == PT.ZeroTable()[0 := pdpt + 3] && mem[pdpt] == PT.ZeroTable()[0 := pd + 3] && mem[pd] == LargePages()
    ensures PT.Tree(mem, map[pml4 := PT.Node(4, 0), pdpt := PT.Node(3, 0), pd := PT.Node(2, 0)])
    ensures forall v: nat {:trigger PT.Plain(mem, pml4, 4, v)} :: 0x4_0000 <= v < PT.VPN_RANGE ==> PT.Plain(mem, pml4, 4, v)
  {
    var own := map[pml4 := PT.Node(4, 0), pdpt := PT.Node(3, 0), pd := PT.Node(2, 0)];
    BootEntry(pdpt);
    BootEntry(pd);
    forall t | t in own ensures PT.TableOk(mem, own, t) {}
    forall t, i: nat | t in own && t in mem && i < |mem[t]| ensures PT.EntryOk(mem, own, t, i) {
      if t == pd { LargeEntry(i); }
    }
    forall v: nat | 0x4_0000 <= v < PT.VPN_RANGE ensures PT.Plain(mem, pml4, 4, v) {
      PT.UpDigits(v);
      assert PT.Index(v, 4) != 0 || PT.Index(v, 3) != 0;
      AbsentIsPlain(mem, pml4, 4, v);
      AbsentIsPlain(mem, pdpt, 3, v);
    }
  }

  lemma BootEntry(t: nat)
    requires t % PAGE == 0 && t < PT.ADDR_RANGE
    ensures PT.Present(t + 3) && !PT.Huge(t + 3) && PT.Addr(t + 3) == t
  {
    PT.EntryParts(t / PAGE, 3, 0);
    assert (t + 3) / 128 == 32 * (t / PAGE);
  }

  lemma LargeEntry(i: nat)
    ensures PT.Huge(0x20_0000 * i + 0x83)
  {
    assert (0x20_0000 * i + 0x83) / 128 == 2 * (8192 * i) + 1;
  }

  lemma AbsentIsPlain(mem: map<nat, seq<nat>>, t: nat, level: nat, v: nat)
    requires A.IsTable(mem, t) && level > 1
    ensures !PT.Present(mem[t][PT.Index(v, level)]) ==> PT.Plain(mem, t, level, v)
    ensures var e := mem[t][PT.Index(v, level)];
            !PT.Huge(e) && PT.Plain(mem, PT.Addr(e), level - 1, v) ==> PT.Plain(mem, t, level, v)
  {
  }

  lemma BootInv(end: nat, total: nat, off: nat, mem: map<nat, seq<nat>>, tables: map<nat, PT.Node>, root: nat)
    requires HandedOver(end, total, mem, tables, root)
    ensures var k := Booted(end, total, off, mem, tables, root); Inv(k) && k.boot > 0
  {
    var k := Booted(end, total, off, mem, tables, root);
    B.BootTakes(end, total);
    HR.InitGood(k.frames, off);
    S.EmptyInv(k.frames, off);
    forall i: nat ensures i < k.boot <==> i * PAGE < B.BitmapBase(end) + B.BitmapBytes(B.RamSize(total)) {
      B.ReservedExactly(end, B.RamSize(total), i);
    }
    B.ReservedExactly(end, B.RamSize(total), 0);
    forall t | t in tables ensures A.FrameOk(Tables(k), t) && t / PAGE < k.boot {}
    forall i: nat | i < |k.frames.bits| ensures A.Readable(Tables(k), i) {}
    forall i: nat ensures Taken(k.frames, i) <==> Owned(k, i) {
      assert Owns(k, Reserved, i) <==> Taken(k.frames, i);
      assert i * PAGE in k.tables ==> i * PAGE / PAGE < k.boot;
    }
  }

  /** Over every run after boot, what the heap, the slab zones, the page tables and the clients hold
      lies in frames of their own, none of which is frame 0 or has a byte of the kernel image or of
      the bitmap. */
  lemma ImageNeverHandedOut(end: nat, total: nat, off: nat, mem: map<nat, seq<nat>>, tables: map<nat, PT.Node>, root: nat,
                            ops: seq<Op>, t: Kernel, o: Owner, i: nat)
    requires HandedOver(end, total, mem, tables, root)
    requires var k := Booted(end, total, off, mem, tables, root); Inv(k) && k.boot > 0 && Reaches(k, ops, t)
    requires Owns(t, o, i) && o != Reserved
    ensures i > 0 && B.BitmapBase(end) + B.BitmapBytes(B.RamSize(total)) <= i * PAGE
    ensures forall p :: Owns(t, p, i) ==> p == o
  {
    hide Reaches, HandedOver, HO.Ready, S.Inv, A.SpaceOk;
    var k := Booted(end, total, off, mem, tables, root);
    RunInv(k, ops, t);
    assert Owned(t, i) && Taken(t.frames, i);
    assert i < t.boot ==> Owns(t, Reserved, i);
    B.ReservedExactly(end, B.RamSize(total), i);
  }

  /** The allocator returns 0 exactly when every frame has an owner; any other result is a frame
      that had none. */
  lemma ZeroMeansFailure(k: Kernel)
    requires Inv(k)
    ensures var pa := F.AllocFrame(k.frames).1;
            && (pa == 0 <==> forall i: nat {:trigger Owned(k, i)} :: i < |k.frames.bits| ==> Owned(k, i))
            && (pa != 0 ==> pa / PAGE < |k.frames.bits| && !Owned(k, pa / PAGE))
  {
    hide Owned, A.SpaceOk, HO.Ready;
    F.AllocFrameTakes(k.frames);
    F.CountFull(k.frames.bits);
    forall i: nat | i < |k.frames.bits| ensures k.frames.bits[i] <==> Owned(k, i) {
      assert Taken(k.frames, i) <==> Owned(k, i);
    }
    var pa := F.AllocFrame(k.frames).1;
    assert pa != 0 ==> !k.frames.bits[pa / PAGE];
  }

  /** No heap block, header or payload, overlaps a slab chunk. */
  lemma HeapAndSlabApart(k: Kernel, a: nat, z: nat, c: nat)
    requires Inv(k) && k.heapOff == k.slab.off && a in k.heap.blocks && z < S.ZONES && S.Chunk(k.slab, z, c)
    ensures H.End(k.heap.blocks, a) <= c || c + S.ChunkSize(z) <= a
  {
    hide A.SpaceOk, H.FreeOk, H.Accounts, H.Coalesced, S.ZoneOk, F.Inv;
    var off, base := k.slab.off, S.PageOf(k.slab.off, c);
    assert H.BlockOk(k.heap.blocks, k.heap.segs, a);
    var s := k.heap.blocks[a].seg;
    assert HO.SegBacked(k.heap.segs, k.frames.bits, off, s) && H.SegOk(k.heap.blocks, k.heap.segs, s);
    assert S.PageOk(k.slab, k.frames.bits, base);
    S.SizeDivides(z, (c - off) % PAGE);
    var i := (base - off) / PAGE;
    assert Owns(k, InHeap, i) || !InSegment(k.heap.segs, off, s, i);
    assert Owns(k, InSlab, i);
  }
}
