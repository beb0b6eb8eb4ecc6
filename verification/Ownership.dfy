/** Who holds which physical frame: the boot reservation, the heap, the slab zones, the page tables,
    or a client that asked the frame allocator itself. */
module Ownership {
  import F = Frames
  import H = HeapModel
  import HO = HeapOps
  import S = SlabModel
  import PT = PageTables
  import A = AddressSpace

  const PAGE: nat := F.PAGE_SIZE

  datatype Owner = Reserved | InHeap | InSlab | InTables | Client

  /** The parts of the memory system, sharing one frame allocator. */
  datatype Kernel = Kernel(frames: F.Frames, heap: H.Heap, heapOff: nat, slab: S.Slab,
                           mem: map<nat, seq<nat>>, tables: map<nat, PT.Node>, root: nat,
                           held: set<nat>, boot: nat)

  function Tables(k: Kernel): A.Space {
    A.Space(k.mem, k.tables, k.frames)
  }

  /** Frame `i` lies in the segment `s` of the heap. */
  predicate InSegment(segs: map<nat, nat>, off: nat, s: nat, i: nat)
    requires s in segs
  {
    off <= s && (s - off) / PAGE <= i < (s - off) / PAGE + segs[s] / PAGE
  }

  ghost predicate Owns(k: Kernel, o: Owner, i: nat) {
    match o
    case Reserved => i < k.boot && i < |k.frames.bits|
    case InHeap => exists s :: s in k.heap.segs && InSegment(k.heap.segs, k.heapOff, s, i)
    case InSlab => i * PAGE + k.slab.off in k.slab.pages
    case InTables => k.boot <= i && i * PAGE in k.tables
    case Client => i in k.held
  }

  ghost predicate Taken(f: F.Frames, i: nat) {
    i < |f.bits| && f.bits[i]
  }

  ghost predicate Owned(k: Kernel, i: nat) {
    exists o :: Owns(k, o, i)
  }

  /** A frame has at most one owner, and it is used exactly when it has one. */
  ghost predicate Partition(k: Kernel) {
    && (forall i: nat, o, p {:trigger Owns(k, o, i), Owns(k, p, i)} :: Owns(k, o, i) && Owns(k, p, i) ==> o == p)
    && (forall i: nat {:trigger Taken(k.frames, i)} {:trigger Owned(k, i)} :: Taken(k.frames, i) <==> Owned(k, i))
  }

  ghost predicate Inv(k: Kernel) {
    && HO.Ready(k.heap, k.frames, k.heapOff) && S.Inv(k.slab, k.frames)
    && A.SpaceOk(Tables(k)) && A.IsRoot(Tables(k), k.root) && Partition(k)
  }

  // ----- taking and giving back frames -----

  /** The frames of `taken` were free and become used; nothing else changes. */
  ghost predicate Takes(f: F.Frames, f': F.Frames, taken: set<nat>) {
    && |f'.bits| == |f.bits| && F.Inv(f') && F.ZeroTaken(f')
    && (forall i {:trigger i in taken} :: i in taken ==> i < |f.bits| && !f.bits[i])
    && (forall i: nat {:trigger Taken(f', i)} :: Taken(f', i) <==> Taken(f, i) || i in taken)
  }

  /** `o` gains the frames of `taken`, every other owner keeps exactly what it had. */
  ghost predicate Gains(k: Kernel, k': Kernel, o: Owner, taken: set<nat>) {
    forall i: nat, p {:trigger Owns(k', p, i)} :: Owns(k', p, i) <==> Owns(k, p, i) || (p == o && i in taken)
  }

  lemma PartitionGains(k: Kernel, k': Kernel, o: Owner, taken: set<nat>)
    requires Partition(k) && Takes(k.frames, k'.frames, taken) && Gains(k, k', o, taken)
    ensures Partition(k')
  {
    hide Owns;
    forall i: nat ensures Taken(k'.frames, i) <==> Owned(k', i) {
      assert Taken(k.frames, i) <==> Owned(k, i);
      if i in taken { assert Owns(k', o, i); }
      if p :| Owns(k, p, i) { assert Owns(k', p, i); }
      if p :| Owns(k', p, i) { assert Owns(k, p, i) || i in taken; }
    }
    forall i: nat, p, q | Owns(k', p, i) && Owns(k', q, i) ensures p == q {
      assert Taken(k.frames, i) <==> Owned(k, i);
      assert Owns(k, p, i) || i in taken;
      assert Owns(k, q, i) || i in taken;
    }
  }

  // ----- the parts under a change of the allocator -----

  /** Every frame of `o` is still used in `f`. */
  ghost predicate StillTaken(k: Kernel, o: Owner, f: F.Frames) {
    && F.Inv(f) && F.ZeroTaken(f) && |f.bits| == |k.frames.bits|
    && forall i: nat {:trigger Owns(k, o, i)} :: Owns(k, o, i) ==> Taken(f, i)
  }

  lemma HeapStays(k: Kernel, f: F.Frames)
    requires HO.Ready(k.heap, k.frames, k.heapOff) && StillTaken(k, InHeap, f)
    ensures HO.Ready(k.heap, f, k.heapOff)
  {
    forall s | s in k.heap.segs ensures HO.SegBacked(k.heap.segs, f.bits, k.heapOff, s) {
      assert HO.SegBacked(k.heap.segs, k.frames.bits, k.heapOff, s);
      var first, n := (s - k.heapOff) / PAGE, k.heap.segs[s] / PAGE;
      forall j: nat | first <= j < first + n ensures f.bits[j] {
        assert InSegment(k.heap.segs, k.heapOff, s, j);
        assert Owns(k, InHeap, j);
        assert Taken(f, j);
      }
    }
  }

  lemma SlabStays(k: Kernel, f: F.Frames)
    requires S.Inv(k.slab, k.frames) && StillTaken(k, InSlab, f)
    ensures S.Inv(k.slab, f)
  {
    forall p | p in k.slab.pages ensures S.PageOk(k.slab, f.bits, p) {
      assert S.PageOk(k.slab, k.frames.bits, p);
      var i := (p - k.slab.off) / PAGE;
      assert Owns(k, InSlab, i);
      assert Taken(f, i);
    }
  }

  lemma TablesStay(k: Kernel, f: F.Frames)
    requires A.SpaceOk(Tables(k)) && StillTaken(k, InTables, f) && StillTaken(k, Reserved, f)
    ensures A.SpaceOk(Tables(k).(frames := f))
  {
    var s, s' := Tables(k), Tables(k).(frames := f);
    forall t | t in s.own ensures A.FrameOk(s', t) {
      assert A.FrameOk(s, t) && PT.TableOk(s.mem, s.own, t);
      var i := t / PAGE;
      assert Owns(k, InTables, i) || Owns(k, Reserved, i);
      assert Taken(f, i);
    }
    forall i: nat | i < |s'.frames.bits| ensures A.Readable(s', i) { assert A.Readable(s, i); }
  }

  lemma AllStay(k: Kernel, f: F.Frames, taken: set<nat>, o: Owner)
    requires Inv(k) && Takes(k.frames, f, taken)
    ensures StillTaken(k, o, f)
  {
    forall i: nat | Owns(k, o, i) ensures Taken(f, i) {
      assert Owned(k, i);
      assert Taken(k.frames, i);
    }
  }
}
