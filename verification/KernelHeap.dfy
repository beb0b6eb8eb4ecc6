/** The kernel heap as the kernel runs it: block headers in memory, relinked in place, next to the
    client data. The ghost field `hdr` is the memory read as headers, `view` the abstract heap. */
module KernelHeap {
  import opened Bitmap
  import opened Options
  import opened Memory
  import opened PhysicalMemory
  import F = Frames
  import opened HeapModel
  import opened HeapSteps
  import opened HeapOps
  import R = HeapRuns
  import opened Sums

  datatype Header = Header(size: nat, used: bool, next: nat, prev: nat, nextFree: nat, prevFree: nat)

  // ----- how the memory represents the abstract heap -----

  predicate SameTags(h: Header, b: Block) {
    h.size == b.size && h.used == b.used && h.next == b.next && h.prev == b.prev
  }

  ghost predicate Agrees(hdr: map<nat, Header>, bs: map<nat, Block>) {
    && hdr.Keys == bs.Keys
    && forall a {:trigger hdr[a]} {:trigger bs[a]} :: a in bs ==> SameTags(hdr[a], bs[a])
  }

  function At(s: seq<nat>, i: int): nat {
    if 0 <= i < |s| then s[i] else 0
  }

  /** The links of the `i`-th free block lead to its two neighbours in the list. */
  predicate LinkOk(hdr: map<nat, Header>, free: seq<nat>, i: nat)
    requires i < |free|
  {
    free[i] in hdr && hdr[free[i]].nextFree == At(free, i + 1) && hdr[free[i]].prevFree == At(free, i - 1)
  }

  ghost predicate Linked(hdr: map<nat, Header>, head: nat, free: seq<nat>) {
    && head == At(free, 0) && 0 !in free && NoDup(free)
    && forall i {:trigger LinkOk(hdr, free, i)} :: 0 <= i < |free| ==> LinkOk(hdr, free, i)
  }

  /** The two maps agree except for free-list links. */
  ghost predicate SameBlocks(old_: map<nat, Header>, new_: map<nat, Header>) {
    && old_.Keys == new_.Keys
    && forall a {:trigger old_[a]} {:trigger new_[a]} :: a in old_ ==>
         && old_[a].size == new_[a].size && old_[a].used == new_[a].used
         && old_[a].next == new_[a].next && old_[a].prev == new_[a].prev
  }

  // ----- client bytes -----

  predicate Hits(a: nat, x: nat) {
    a <= x < a + HEADER
  }

  ghost predicate InHeader(keys: set<nat>, x: nat) {
    exists a :: a in keys && Hits(a, x)
  }

  /** The `len` bytes at `dst` in `n` are the `len` bytes at `src` in `m`. */
  ghost predicate SameSpan(m: Cells, src: nat, n: Cells, dst: nat, len: nat) {
    forall i: nat {:trigger SpanByte(m, src, n, dst, i)} :: i < len ==> SpanByte(m, src, n, dst, i)
  }

  predicate SpanByte(m: Cells, src: nat, n: Cells, dst: nat, i: nat) {
    Peek(n, dst + i) == Peek(m, src + i)
  }

  /** The payloads of the blocks in `live` hold the same bytes. */
  ghost predicate KeepsBytes(h: Heap, m: Cells, n: Cells, live: set<nat>)
    requires live <= h.blocks.Keys
  {
    forall a {:trigger h.blocks[a]} :: a in live ==> SameSpan(m, a + HEADER, n, a + HEADER, h.blocks[a].size)
  }

  /** Header writes spare the payload of a block that is live before and after. */
  lemma LivePayloadKept(h: Heap, g: Heap, m: Cells, n: Cells, a: nat)
    requires Shape(h) && Shape(g) && a in Live(h) && a in Live(g) && g.blocks[a].size == h.blocks[a].size
    requires Untouched(m, n, h.blocks.Keys + g.blocks.Keys)
    ensures SameSpan(m, a + HEADER, n, a + HEADER, h.blocks[a].size)
  {
    var p := a + HEADER;
    forall i: nat | i < h.blocks[a].size ensures SpanByte(m, p, n, p, i) {
      var x := p + i;
      forall b | b in h.blocks.Keys + g.blocks.Keys ensures !Hits(b, x) {
        if b != a {
          if b in h.blocks { R.LivePayloadsApart(h, a, b); } else { R.LivePayloadsApart(g, a, b); }
        }
      }
      assert InHeader(h.blocks.Keys + g.blocks.Keys, x) || SameByte(m, n, x);
    }
  }

  lemma LivePayloadsKept(h: Heap, g: Heap, m: Cells, n: Cells, live: set<nat>)
    requires Shape(h) && Shape(g) && Keeps(h, g, live)
    requires Untouched(m, n, h.blocks.Keys + g.blocks.Keys)
    ensures live <= h.blocks.Keys && KeepsBytes(h, m, n, live)
  {
    forall a | a in live ensures SameSpan(m, a + HEADER, n, a + HEADER, h.blocks[a].size) {
      LivePayloadKept(h, g, m, n, a);
    }
  }

  /** Every byte outside the headers at `keys` is as before. */
  ghost predicate Untouched(m: Cells, n: Cells, keys: set<nat>) {
    forall x {:trigger SameByte(m, n, x)} :: InHeader(keys, x) || SameByte(m, n, x)
  }

  lemma UntouchedTrans(m: Cells, n: Cells, p: Cells, k: set<nat>, l: set<nat>, all: set<nat>)
    requires Untouched(m, n, k) && Untouched(n, p, l) && k <= all && l <= all
    ensures Untouched(m, p, all)
  {
    forall x: nat ensures InHeader(all, x) || SameByte(m, p, x) {
      assert (InHeader(k, x) || SameByte(m, n, x)) && (InHeader(l, x) || SameByte(n, p, x));
    }
  }

  // ----- headers in memory -----

  /** The fields of `struct block` at their offsets; `used` is a single byte. */
  predicate HeaderAt(m: Cells, a: nat, h: Header) {
    && HasWord(m, a, h.size) && Peek(m, a + 8) == Some(Data(if h.used then 1 else 0))
    && HasWord(m, a + 16, h.next) && HasWord(m, a + 24, h.prev)
    && HasWord(m, a + 32, h.nextFree) && HasWord(m, a + 40, h.prevFree)
  }

  /** Every header of `hdr` is in memory. */
  ghost predicate Encoded(m: Cells, hdr: map<nat, Header>) {
    forall a {:trigger hdr[a]} {:trigger HeaderAt(m, a, hdr[a])} :: a in hdr ==> HeaderAt(m, a, hdr[a])
  }

  /** Headers at `keys` do not overlap. */
  ghost predicate Spaced(keys: set<nat>) {
    forall a, b {:trigger a in keys, b in keys} :: a in keys && b in keys && a < b ==> a + HEADER <= b
  }

  /** The state of a sequence of header writes: since the memory was `m`, only bytes under headers at
      `keys` have changed, and the headers of `hdr` are in memory. */
  ghost predicate Framed(m: Cells, n: Cells, hdr: map<nat, Header>, keys: set<nat>) {
    Untouched(m, n, keys) && Spaced(keys) && hdr.Keys <= keys && Encoded(n, hdr)
  }

  lemma FramedStart(m: Cells, hdr: map<nat, Header>, keys: set<nat>)
    requires Spaced(keys) && hdr.Keys <= keys && Encoded(m, hdr)
    ensures Framed(m, m, hdr, keys)
  {
  }

  /** A store to the field at offset `k` leaves the other fields of the header. */
  lemma FieldStored(m: Cells, n: Cells, a: nat, h: Header, k: nat, len: nat)
    requires HeaderAt(m, a, h) && k < HEADER && k % 8 == 0 && len <= 8
    requires forall x: nat {:trigger SameByte(m, n, x)} :: SameByte(m, n, x) || a + k <= x < a + k + len
    ensures k != 0 ==> HasWord(n, a, h.size)
    ensures k != 8 ==> Peek(n, a + 8) == Some(Data(if h.used then 1 else 0))
    ensures k != 16 ==> HasWord(n, a + 16, h.next)
    ensures k != 24 ==> HasWord(n, a + 24, h.prev)
    ensures k != 32 ==> HasWord(n, a + 32, h.nextFree)
    ensures k != 40 ==> HasWord(n, a + 40, h.prevFree)
  {
    hide HasWord;
    assert SameByte(m, n, a + 8) || k == 8;
    if k != 0 { WordKept(m, n, a, h.size); }
    if k != 16 { WordKept(m, n, a + 16, h.next); }
    if k != 24 { WordKept(m, n, a + 24, h.prev); }
    if k != 32 { WordKept(m, n, a + 32, h.nextFree); }
    if k != 40 { WordKept(m, n, a + 40, h.prevFree); }
  }

  lemma HeaderKept(m: Cells, n: Cells, a: nat, h: Header)
    requires HeaderAt(m, a, h) && SameRange(m, n, a, HEADER)
    ensures HeaderAt(n, a, h)
  {
    hide HasWord;
    assert SameByte(m, n, a + 8);
    WordKept(m, n, a, h.size);
    WordKept(m, n, a + 16, h.next);
    WordKept(m, n, a + 24, h.prev);
    WordKept(m, n, a + 32, h.nextFree);
    WordKept(m, n, a + 40, h.prevFree);
  }

  /** Memory that changes outside the headers of `hdr` still holds them. */
  lemma EncodedFrame(m: Cells, n: Cells, hdr: map<nat, Header>)
    requires Encoded(m, hdr)
    requires forall a, x: nat {:trigger Hits(a, x), SameByte(m, n, x)} :: a in hdr && Hits(a, x) ==> SameByte(m, n, x)
    ensures Encoded(n, hdr)
  {
    forall a | a in hdr ensures HeaderAt(n, a, hdr[a]) {
      forall x: nat | a <= x < a + HEADER ensures SameByte(m, n, x) { assert Hits(a, x); }
      HeaderKept(m, n, a, hdr[a]);
    }
  }

  lemma UntouchedWrite(m: Cells, n: Cells, p: Cells, a: nat, keys: set<nat>)
    requires Untouched(m, n, keys) && a in keys
    requires forall x: nat {:trigger SameByte(n, p, x)} :: SameByte(n, p, x) || Hits(a, x)
    ensures Untouched(m, p, keys)
  {
    hide Hits, SameByte;
    forall x: nat ensures InHeader(keys, x) || SameByte(m, p, x) {
      assert InHeader(keys, x) || SameByte(m, n, x);
      assert SameByte(n, p, x) || Hits(a, x);
      SameTrans(m, n, p, x);
    }
  }

  lemma SameTrans(m: Cells, n: Cells, p: Cells, x: nat)
    ensures SameByte(m, n, x) && SameByte(n, p, x) ==> SameByte(m, p, x)
  {
  }

  lemma EncodedWrite(n: Cells, p: Cells, hdr: map<nat, Header>, a: nat, h: Header, keys: set<nat>)
    requires Encoded(n, hdr) && Spaced(keys) && hdr.Keys <= keys && a in keys && HeaderAt(p, a, h)
    requires forall x: nat {:trigger SameByte(n, p, x)} :: SameByte(n, p, x) || Hits(a, x)
    ensures Encoded(p, hdr[a := h])
  {
    hide HeaderAt, SameByte;
    forall b | b in hdr && b != a ensures HeaderAt(p, b, hdr[b]) {
      assert b in keys;
      forall x: nat | b <= x < b + HEADER ensures SameByte(n, p, x) {
        assert SameByte(n, p, x) || Hits(a, x);
      }
      HeaderKept(n, p, b, hdr[b]);
    }
  }

  /** A write inside the header at `a` that leaves the header `h` there. */
  lemma HeaderWrite(m: Cells, n: Cells, p: Cells, hdr: map<nat, Header>, a: nat, h: Header, keys: set<nat>)
    requires Framed(m, n, hdr, keys) && a in keys && HeaderAt(p, a, h)
    requires forall x: nat {:trigger SameByte(n, p, x)} :: SameByte(n, p, x) || Hits(a, x)
    ensures Framed(m, p, hdr[a := h], keys)
  {
    hide HeaderAt, SameByte, Hits, Spaced, Encoded, Untouched;
    UntouchedWrite(m, n, p, a, keys);
    EncodedWrite(n, p, hdr, a, h, keys);
  }

  lemma FramedAt(m: Cells, n: Cells, hdr: map<nat, Header>, keys: set<nat>, a: nat)
    requires Framed(m, n, hdr, keys) && a in hdr
    ensures HeaderAt(n, a, hdr[a]) && a in keys
  {
    hide HeaderAt;
  }

  /** `kmalloc` leaves the contents of every live block alone. */
  lemma MallocKeepsBytes(h: Heap, f: F.Frames, off: nat, size: nat, m: Cells, n: Cells)
    requires Ready(h, f, off) && size <= MAX_REQUEST
    requires Untouched(m, n, h.blocks.Keys + Malloc(h, f, off, size).heap.blocks.Keys)
    ensures Live(h) <= h.blocks.Keys && KeepsBytes(h, m, n, Live(h))
  {
    MallocReady(h, f, off, size);
    LivePayloadsKept(h, Malloc(h, f, off, size).heap, m, n, Live(h));
  }

  /** `kfree` leaves the contents of every other live block alone. */
  lemma FreeKeepsBytes(h: Heap, a: nat, m: Cells, n: Cells)
    requires Inv(h) && Rounded(h) && a in h.blocks && Untouched(m, n, h.blocks.Keys)
    requires R.FreeBlock(h, a).blocks.Keys <= h.blocks.Keys
    ensures Live(h) - {a} <= h.blocks.Keys && KeepsBytes(h, m, n, Live(h) - {a})
  {
    R.FreeInv(h, a);
    assert h.blocks.Keys + R.FreeBlock(h, a).blocks.Keys == h.blocks.Keys;
    LivePayloadsKept(h, R.FreeBlock(h, a), m, n, Live(h) - {a});
  }

  // ----- segments and bytes -----

  ghost predicate InSegs(segs: map<nat, nat>, x: nat) {
    exists s :: s in segs && s <= x < SegEnd(segs, s)
  }

  /** Every byte outside the segments is as before. */
  ghost predicate WithinSegs(m: Cells, n: Cells, segs: map<nat, nat>) {
    forall x: nat {:trigger SameByte(m, n, x)} :: SameByte(m, n, x) || InSegs(segs, x)
  }

  lemma BlockInSegs(h: Heap, a: nat, x: nat)
    requires Shape(h) && a in h.blocks && a <= x < End(h.blocks, a)
    ensures InSegs(h.segs, x)
  {
    assert BlockOk(h.blocks, h.segs, a);
  }

  lemma SegsGrowByte(h: Heap, g: Heap, x: nat)
    requires SegsGrow(h, g) && InSegs(h.segs, x)
    ensures InSegs(g.segs, x)
  {
    var s :| s in h.segs && s <= x < SegEnd(h.segs, s);
    assert s in g.segs;
  }

  /** Headers lie in segments. */
  lemma UntouchedWithin(h: Heap, g: Heap, m: Cells, n: Cells, keys: set<nat>)
    requires Shape(h) && Shape(g) && SegsGrow(h, g) && keys <= h.blocks.Keys + g.blocks.Keys && Untouched(m, n, keys)
    ensures WithinSegs(m, n, g.segs)
  {
    forall x: nat | !SameByte(m, n, x) ensures InSegs(g.segs, x) {
      assert InHeader(keys, x) || SameByte(m, n, x);
      var a :| a in keys && Hits(a, x);
      if a in h.blocks {
        BlockInSegs(h, a, x);
        SegsGrowByte(h, g, x);
      } else {
        BlockInSegs(g, a, x);
      }
    }
  }

  lemma WithinTrans(m: Cells, n: Cells, p: Cells, h: Heap, g: Heap)
    requires WithinSegs(m, n, h.segs) && WithinSegs(n, p, g.segs) && SegsGrow(h, g)
    ensures WithinSegs(m, p, g.segs)
  {
    forall x: nat | !SameByte(m, p, x) ensures InSegs(g.segs, x) {
      assert SameByte(m, n, x) || InSegs(h.segs, x);
      assert SameByte(n, p, x) || InSegs(g.segs, x);
      if InSegs(h.segs, x) { SegsGrowByte(h, g, x); }
    }
  }

  /** A write inside a block. */
  lemma BlockWithin(g: Heap, m: Cells, n: Cells, a: nat)
    requires Shape(g) && a in g.blocks
    requires forall x: nat {:trigger SameByte(m, n, x)} :: SameByte(m, n, x) || a <= x < End(g.blocks, a)
    ensures WithinSegs(m, n, g.segs)
  {
    forall x: nat | !SameByte(m, n, x) ensures InSegs(g.segs, x) {
      assert SameByte(m, n, x) || a <= x < End(g.blocks, a);
      BlockInSegs(g, a, x);
    }
  }

  class Heap64 {
    const ram: Ram
    var freeHead: nat
    var heapUsed: nat
    const physOffset: nat
    const pmm: Pmm
    ghost var hdr: map<nat, Header>
    ghost var view: Heap

    /** The headers in memory, the free list and the counter represent `view`. */
    ghost predicate Tied()
      reads this, ram
    {
      Encoded(ram.cells, hdr) && Agrees(hdr, view.blocks) && Linked(hdr, freeHead, view.free) && heapUsed == view.usedBytes
    }

    ghost predicate Valid()
      reads this, ram, pmm, pmm.bitmap
    {
      Tied() && pmm.Valid() && Ready(view, pmm.Abs(), physOffset)
    }

    /** The abstract heap with the frame allocator it grows from. */
    ghost function Sys(): R.System
      requires pmm.Sized()
      reads this, pmm, pmm.bitmap
    {
      R.System(view, pmm.Abs(), physOffset)
    }

    /** `heap_init`. */
    constructor (pmm: Pmm, ram: Ram, offset: nat)
      requires pmm.Valid() && F.ZeroTaken(pmm.Abs())
      ensures Valid() && this.pmm == pmm && this.ram == ram && physOffset == offset
      ensures view == EMPTY && R.Good(R.System(view, pmm.Abs(), offset))
    {
      freeHead, heapUsed := 0, 0;
      physOffset := offset;
      this.pmm := pmm;
      this.ram := ram;
      hdr, view := map[], EMPTY;
      R.InitGood(pmm.Abs(), offset);
    }

    // ----- the fields of a header -----

    function SizeOf(a: nat): (v: nat)
      requires Encoded(ram.cells, hdr) && a in hdr
      reads this, ram
      ensures v == hdr[a].size
    {
      LoadWord(ram.cells, a, hdr[a].size);
      Load(ram.cells, a)
    }

    function UsedAt(a: nat): (u: bool)
      requires Encoded(ram.cells, hdr) && a in hdr
      reads this, ram
      ensures u == hdr[a].used
    {
      Peek(ram.cells, a + 8) != Some(Data(0))
    }

    function NextOf(a: nat): (v: nat)
      requires Encoded(ram.cells, hdr) && a in hdr
      reads this, ram
      ensures v == hdr[a].next
    {
      LoadWord(ram.cells, a + 16, hdr[a].next);
      Load(ram.cells, a + 16)
    }

    function PrevOf(a: nat): (v: nat)
      requires Encoded(ram.cells, hdr) && a in hdr
      reads this, ram
      ensures v == hdr[a].prev
    {
      LoadWord(ram.cells, a + 24, hdr[a].prev);
      Load(ram.cells, a + 24)
    }

    function NextFreeOf(a: nat): (v: nat)
      requires Encoded(ram.cells, hdr) && a in hdr
      reads this, ram
      ensures v == hdr[a].nextFree
    {
      LoadWord(ram.cells, a + 32, hdr[a].nextFree);
      Load(ram.cells, a + 32)
    }

    function PrevFreeOf(a: nat): (v: nat)
      requires Encoded(ram.cells, hdr) && a in hdr
      reads this, ram
      ensures v == hdr[a].prevFree
    {
      LoadWord(ram.cells, a + 40, hdr[a].prevFree);
      Load(ram.cells, a + 40)
    }

    // The ghost arguments of the writing methods thread the claim `Framed`.

    method SetSize(a: nat, v: nat, ghost m: Cells, ghost keys: set<nat>)
      requires a in hdr && Framed(m, ram.cells, hdr, keys)
      modifies this`hdr, ram
      ensures hdr == old(hdr)[a := old(hdr)[a].(size := v)] && Framed(m, ram.cells, hdr, keys)
    {
      hide Framed, HasWord, StoreWord;
      ghost var n, h := ram.cells, hdr[a];
      FramedAt(m, n, hdr, keys, a);
      ram.Store(a, v);
      FieldStored(n, ram.cells, a, h, 0, 8);
      HeaderWrite(m, n, ram.cells, hdr, a, h.(size := v), keys);
      hdr := hdr[a := h.(size := v)];
    }

    method SetUsed(a: nat, u: bool, ghost m: Cells, ghost keys: set<nat>)
      requires a in hdr && Framed(m, ram.cells, hdr, keys)
      modifies this`hdr, ram
      ensures hdr == old(hdr)[a := old(hdr)[a].(used := u)] && Framed(m, ram.cells, hdr, keys)
    {
      hide Framed, HasWord, StoreWord;
      ghost var n, h := ram.cells, hdr[a];
      FramedAt(m, n, hdr, keys, a);
      ram.StoreByte(a + 8, if u then 1 else 0);
      FieldStored(n, ram.cells, a, h, 8, 1);
      HeaderWrite(m, n, ram.cells, hdr, a, h.(used := u), keys);
      hdr := hdr[a := h.(used := u)];
    }

    method SetNext(a: nat, v: nat, ghost m: Cells, ghost keys: set<nat>)
      requires a in hdr && Framed(m, ram.cells, hdr, keys)
      modifies this`hdr, ram
      ensures hdr == old(hdr)[a := old(hdr)[a].(next := v)] && Framed(m, ram.cells, hdr, keys)
    {
      hide Framed, HasWord, StoreWord;
      ghost var n, h := ram.cells, hdr[a];
      FramedAt(m, n, hdr, keys, a);
      ram.Store(a + 16, v);
      FieldStored(n, ram.cells, a, h, 16, 8);
      HeaderWrite(m, n, ram.cells, hdr, a, h.(next := v), keys);
      hdr := hdr[a := h.(next := v)];
    }

    method SetPrev(a: nat, v: nat, ghost m: Cells, ghost keys: set<nat>)
      requires a in hdr && Framed(m, ram.cells, hdr, keys)
      modifies this`hdr, ram
      ensures hdr == old(hdr)[a := old(hdr)[a].(prev := v)] && Framed(m, ram.cells, hdr, keys)
    {
      hide Framed, HasWord, StoreWord;
      ghost var n, h := ram.cells, hdr[a];
      FramedAt(m, n, hdr, keys, a);
      ram.Store(a + 24, v);
      FieldStored(n, ram.cells, a, h, 24, 8);
      HeaderWrite(m, n, ram.cells, hdr, a, h.(prev := v), keys);
      hdr := hdr[a := h.(prev := v)];
    }

    method SetNextFree(a: nat, v: nat, ghost m: Cells, ghost keys: set<nat>)
      requires a in hdr && Framed(m, ram.cells, hdr, keys)
      modifies this`hdr, ram
      ensures hdr == old(hdr)[a := old(hdr)[a].(nextFree := v)] && Framed(m, ram.cells, hdr, keys)
    {
      hide Framed, HasWord, StoreWord;
      ghost var n, h := ram.cells, hdr[a];
      FramedAt(m, n, hdr, keys, a);
      ram.Store(a + 32, v);
      FieldStored(n, ram.cells, a, h, 32, 8);
      HeaderWrite(m, n, ram.cells, hdr, a, h.(nextFree := v), keys);
      hdr := hdr[a := h.(nextFree := v)];
    }

    method SetPrevFree(a: nat, v: nat, ghost m: Cells, ghost keys: set<nat>)
      requires a in hdr && Framed(m, ram.cells, hdr, keys)
      modifies this`hdr, ram
      ensures hdr == old(hdr)[a := old(hdr)[a].(prevFree := v)] && Framed(m, ram.cells, hdr, keys)
    {
      hide Framed, HasWord, StoreWord;
      ghost var n, h := ram.cells, hdr[a];
      FramedAt(m, n, hdr, keys, a);
      ram.Store(a + 40, v);
      FieldStored(n, ram.cells, a, h, 40, 8);
      HeaderWrite(m, n, ram.cells, hdr, a, h.(prevFree := v), keys);
      hdr := hdr[a := h.(prevFree := v)];
    }

    /** A new, unlisted free block at `a`: all six fields are stored. */
    method PutFree(a: nat, size: nat, next: nat, prev: nat, ghost m: Cells, ghost keys: set<nat>)
      requires a in keys && Framed(m, ram.cells, hdr, keys)
      modifies this`hdr, ram
      ensures hdr == old(hdr)[a := Header(size, false, next, prev, 0, 0)] && Framed(m, ram.cells, hdr, keys)
    {
      hide Framed, HasWord, StoreWord;
      ghost var n := ram.cells;
      ram.Store(a, size);
      ghost var n1 := ram.cells;
      ram.StoreByte(a + 8, 0);
      ghost var n2 := ram.cells;
      ram.Store(a + 16, next);
      ghost var n3 := ram.cells;
      ram.Store(a + 24, prev);
      ghost var n4 := ram.cells;
      ram.Store(a + 32, 0);
      ghost var n5 := ram.cells;
      ram.Store(a + 40, 0);
      SixStores(n, n1, n2, n3, n4, n5, ram.cells, a, size, next, prev);
      HeaderWrite(m, n, ram.cells, hdr, a, Header(size, false, next, prev, 0, 0), keys);
      hdr := hdr[a := Header(size, false, next, prev, 0, 0)];
    }

    method FreeListAdd(blk: nat, ghost free: seq<nat>, ghost m: Cells, ghost keys: set<nat>)
      requires blk in hdr && blk != 0 && blk !in free && Linked(hdr, freeHead, free)
      requires Framed(m, ram.cells, hdr, keys)
      modifies this`hdr, this`freeHead, ram
      ensures Linked(hdr, freeHead, [blk] + free) && SameBlocks(old(hdr), hdr)
      ensures Framed(m, ram.cells, hdr, keys)
    {
      hide Framed, Encoded;
      SetNextFree(blk, freeHead, m, keys);
      SetPrevFree(blk, 0, m, keys);
      if freeHead != 0 {
        assert LinkOk(old(hdr), free, 0);
        SetPrevFree(freeHead, blk, m, keys);
      }
      freeHead := blk;
      ghost var g := [blk] + free;
      NoDupCons(blk, free);
      forall i | 0 <= i < |g| ensures LinkOk(hdr, g, i) {
        if i > 0 {
          assert LinkOk(old(hdr), free, i - 1);
          if i > 1 { NoDupPair(free, 0, i - 1); }
        }
      }
    }

    /** The header writes of `free_list_remove`, between the list neighbours `p` and `n`. */
    method Bridge(blk: nat, p: nat, n: nat, ghost m: Cells, ghost keys: set<nat>)
      requires blk in hdr && (p != 0 ==> p in hdr) && (n != 0 ==> n in hdr)
      requires Framed(m, ram.cells, hdr, keys)
      modifies this`hdr, ram
      ensures hdr == BridgeHeaders(old(hdr), blk, p, n) && Framed(m, ram.cells, hdr, keys)
    {
      hide Framed;
      if p != 0 {
        SetNextFree(p, n, m, keys);
      }
      if n != 0 {
        SetPrevFree(n, p, m, keys);
      }
      SetNextFree(blk, 0, m, keys);
      SetPrevFree(blk, 0, m, keys);
    }

    method FreeListRemove(blk: nat, ghost free: seq<nat>, ghost m: Cells, ghost keys: set<nat>)
      requires blk in free && blk in hdr && Linked(hdr, freeHead, free)
      requires Framed(m, ram.cells, hdr, keys)
      modifies this`hdr, this`freeHead, ram
      ensures Linked(hdr, freeHead, Without(free, blk)) && SameBlocks(old(hdr), hdr)
      ensures Framed(m, ram.cells, hdr, keys)
    {
      hide Untouched, Linked, Encoded, Spaced, HeaderAt, Bridged, BridgeHeaders, SameBlocks;
      var p, n := PrevFreeOf(blk), NextFreeOf(blk);
      NeighboursOf(hdr, freeHead, free, blk);
      if p == 0 {
        freeHead := n;
      }
      BridgeEffect(hdr, blk, p, n);
      Bridge(blk, p, n, m, keys);
      RemoveLinked(old(hdr), hdr, old(freeHead), freeHead, free, blk);
    }

    /** The split in `kmalloc`: a new header behind the first `n` bytes of the block `cur`. */
    method SplitBlock(cur: nat, n: nat, ghost m: Cells, ghost keys: set<nat>)
      requires Tied() && Sound(view) && CanSplit(view, cur, n) && cur in view.free
      requires hdr.Keys + {cur + HEADER + n} <= keys && Framed(m, ram.cells, hdr, keys)
      modifies this`hdr, this`freeHead, ram, this`view
      ensures Tied() && view == Split(old(view), cur, n) && Framed(m, ram.cells, hdr, keys)
    {
      hide Shape, FreeOk, Accounts, Agrees, Linked, Untouched, CanSplit, Encoded, Spaced, HeaderAt;
      SplitAgrees(hdr, view, cur, n);
      var oldSize := SizeOf(cur);
      SetSize(cur, n, m, keys);
      var split := cur + HEADER + n;
      PutFree(split, oldSize - n - HEADER, NextOf(cur), cur, m, keys);
      if NextOf(cur) != 0 {
        SetPrev(NextOf(cur), split, m, keys);
      }
      SetNext(cur, split, m, keys);
      assert hdr == SplitHeaders(old(hdr), cur, n);
      LinkedFrame(old(hdr), hdr, freeHead, view.free);
      ghost var before := hdr;
      FreeListAdd(split, view.free, m, keys);
      AgreesSame(before, hdr, Split(view, cur, n).blocks);
      view := Split(view, cur, n);
    }

    /** Marks the free block `cur` as used. */
    method ClaimBlock(cur: nat, ghost m: Cells, ghost keys: set<nat>)
      requires Tied() && Sound(view) && cur in view.free
      requires Framed(m, ram.cells, hdr, keys)
      modifies this`hdr, this`freeHead, this`heapUsed, ram, this`view
      ensures Tied() && view == Claim(old(view), cur) && Framed(m, ram.cells, hdr, keys)
    {
      hide Encoded, Spaced, Untouched, HeaderAt, Linked, Agrees, SameBlocks, Shape, Accounts;
      ClaimAgrees(hdr, view, cur);
      FreeListRemove(cur, view.free, m, keys);
      ghost var before := hdr;
      AgreesSame(old(hdr), before, view.blocks);
      ClaimAgrees(before, view, cur);
      SetUsed(cur, true, m, keys);
      heapUsed := heapUsed + SizeOf(cur);
      view := Claim(view, cur);
      LinkedFrame(before, hdr, freeHead, view.free);
    }

    /** Marks the used block `blk` as free and puts it at the head of the free list. */
    method ReleaseBlock(blk: nat, ghost m: Cells, ghost keys: set<nat>)
      requires Tied() && Sound(view) && blk in Live(view) && view.blocks[blk].size <= heapUsed
      requires Framed(m, ram.cells, hdr, keys)
      modifies this`hdr, this`freeHead, this`heapUsed, ram, this`view
      ensures old(view.blocks[blk].size) <= old(view.usedBytes)
      ensures Tied() && view == Release(old(view), blk) && Framed(m, ram.cells, hdr, keys)
    {
      hide Encoded, Spaced, Untouched, HeaderAt, Linked, Agrees, SameBlocks, Shape, Accounts, FreeOk;
      ReleaseAgrees(hdr, view, blk);
      SetUsed(blk, false, m, keys);
      heapUsed := heapUsed - SizeOf(blk);
      LinkedFrame(old(hdr), hdr, freeHead, view.free);
      ghost var before := hdr;
      FreeListAdd(blk, view.free, m, keys);
      view := Release(view, blk);
      AgreesSame(before, hdr, view.blocks);
    }

    /** The header writes of a merge: `a` takes over the bytes and the right neighbour of `nxt`. */
    method AbsorbHeader(a: nat, nxt: nat, ghost m: Cells, ghost keys: set<nat>)
      requires a in hdr && nxt in hdr && nxt != a && hdr[a].next == nxt
      requires hdr[nxt].next != 0 ==> hdr[nxt].next in hdr && hdr[nxt].next != a && hdr[nxt].next != nxt
      requires Framed(m, ram.cells, hdr, keys)
      modifies this`hdr, ram
      ensures hdr == MergeHeaders(old(hdr), a) && Framed(m, ram.cells, hdr, keys)
    {
      hide Untouched, Encoded, Spaced, HeaderAt;
      ghost var was := hdr;
      SetSize(a, SizeOf(a) + HEADER + SizeOf(nxt), m, keys);
      SetNext(a, NextOf(nxt), m, keys);
      assert hdr == was[a := was[a].(size := was[a].size + HEADER + was[nxt].size, next := was[nxt].next)];
      if NextOf(nxt) != 0 {
        SetPrev(NextOf(nxt), a, m, keys);
      }
      FramedLess(m, ram.cells, hdr, nxt, keys);
      hdr := hdr - {nxt};
    }

    /** One coalescing step of `kfree`: the block `a` absorbs its free right neighbour, whose
        header ceases to exist. */

    method MergeNext(a: nat, ghost m: Cells, ghost keys: set<nat>)
      requires Tied() && Sound(view) && CanMerge(view, a)
      requires Framed(m, ram.cells, hdr, keys)
      modifies this`hdr, this`freeHead, ram, this`view
      ensures Tied() && view == Merge(old(view), a) && Framed(m, ram.cells, hdr, keys)
      ensures hdr.Keys <= old(hdr.Keys)
    {
      hide Shape, FreeOk, Accounts, Agrees, Linked, Untouched, Encoded, Spaced, HeaderAt;
      MergeHeader(hdr, view, a);
      var nxt := NextOf(a);
      FreeListRemove(nxt, view.free, m, keys);
      ghost var before := hdr;
      AgreesSame(old(hdr), hdr, view.blocks);
      MergeAgrees(hdr, view, a);
      AbsorbHeader(a, nxt, m, keys);
      view := Merge(view, a);
      LinkedFrame(before, hdr, freeHead, view.free);
    }

    method TakeBlock(cur: nat, n: nat, ghost m: Cells, ghost keys: set<nat>)
      requires Tied() && Sound(view) && cur in view.free && n <= view.blocks[cur].size
      requires Framed(m, ram.cells, hdr, keys)
      requires n + HEADER + MIN_SPLIT <= view.blocks[cur].size ==> cur + HEADER + n in keys
      modifies this`hdr, this`freeHead, this`heapUsed, ram, this`view
      ensures Tied() && view == Take(old(view), cur, n) && Framed(m, ram.cells, hdr, keys)
    {
      hide Untouched, Linked, Accounts, Encoded, Spaced, HeaderAt;
      if SizeOf(cur) >= n + HEADER + MIN_SPLIT {
        SplitSound(view, cur, n);
        SplitBlock(cur, n, m, keys);
        assert cur in view.free;
      }
      ClaimBlock(cur, m, keys);
    }

    /** The hit branch of the search in `kmalloc`. */
    method TakeFit(cur: nat, n: nat)
      requires Valid() && n % 8 == 0 && cur in view.free && n <= view.blocks[cur].size
      modifies this`hdr, this`freeHead, this`heapUsed, ram, this`view
      ensures Valid() && view == Take(old(view), cur, n)
      ensures Untouched(old(ram.cells), ram.cells, old(hdr.Keys) + hdr.Keys)
    {
      hide Shape, Accounts, Coalesced, F.Inv, Untouched, Take, Agrees, Linked, Backed, Rounded, Encoded, Spaced, HeaderAt;
      ghost var rest := if n + HEADER + MIN_SPLIT <= view.blocks[cur].size then {cur + HEADER + n} else {};
      ghost var keys := hdr.Keys + rest;
      TiedKeys(hdr, view);
      TakeReady(view, view, pmm.Abs(), physOffset, cur, n);
      BlocksSpaced(Take(view, cur, n));
      TakeKeys(view, cur, n);
      FramedStart(ram.cells, hdr, keys);
      TakeBlock(cur, n, ram.cells, keys);
      TiedKeys(hdr, view);
      assert old(hdr.Keys) + hdr.Keys == keys;
    }

    /** The header that `grow_heap` writes: one free block over the whole new segment. */
    method AddBlock(blk: nat, pages: nat, ghost m: Cells, ghost keys: set<nat>)
      requires Tied() && FreeOk(view) && 0 < blk && blk !in view.blocks && 0 < pages
      requires hdr.Keys + {blk} <= keys && Framed(m, ram.cells, hdr, keys)
      modifies this`hdr, this`freeHead, ram, this`view
      ensures Tied() && view == Grown(old(view), blk, pages) && Framed(m, ram.cells, hdr, keys)
    {
      hide Encoded, Spaced, Untouched, HeaderAt;
      PutFree(blk, pages * PAGE - HEADER, 0, 0, m, keys);
      GrownAgrees(old(hdr), view, blk, pages, hdr[blk]);
      LinkedFrame(old(hdr), hdr, freeHead, view.free);
      ghost var before := hdr;
      FreeListAdd(blk, view.free, m, keys);
      AgreesSame(before, hdr, Grown(view, blk, pages).blocks);
      view := Grown(view, blk, pages);
    }

    /** `grow_heap`: a fresh segment with room for `n` bytes, as one block at the head of the list. */
    method GrowHeap(n: nat) returns (ok: bool)
      requires Valid() && n <= MAX_REQUEST
      modifies this`hdr, this`freeHead, ram, this`view, pmm`usedFrames, pmm.bitmap
      ensures Valid()
      ensures var (f, pa) := F.AllocContiguous(old(pmm.Abs()), PagesFor(n));
              pmm.Abs() == f && ok == (pa != 0)
              && view == (if ok then Grown(old(view), pa + physOffset, PagesFor(n)) else old(view))
      ensures Untouched(old(ram.cells), ram.cells, old(hdr.Keys) + hdr.Keys)
    {
      hide Shape, FreeOk, Accounts, Coalesced, F.Inv, Untouched, Agrees, Linked, Grown, Backed, Rounded, F.AllocContiguous, Encoded, Spaced, HeaderAt;
      var pages := (n + HEADER + PAGE - 1) / PAGE;
      ghost var f := pmm.Abs();
      var pa := pmm.AllocContiguous(pages);
      F.AllocContiguousTakes(f, pages);
      UntouchedRefl(ram.cells, hdr.Keys + hdr.Keys);
      if pa == 0 {
        return false;
      }
      GrowReady(view, f, pmm.Abs(), physOffset, pa, pages);
      var blk := pa + physOffset;
      TiedKeys(hdr, view);
      ghost var keys := hdr.Keys + {blk};
      GrownKeys(view, blk, pages);
      BlocksSpaced(Grown(view, blk, pages));
      FramedStart(ram.cells, hdr, keys);
      AddBlock(blk, pages, ram.cells, keys);
      TiedKeys(hdr, view);
      assert old(hdr.Keys) + hdr.Keys == keys;
      return true;
    }

    /** First-fit search, then growth and one retry. The measure says why there is at most one:
        after a successful `GrowHeap` the first block of the list fits. */
    method Kmalloc(size: nat) returns (ptr: nat)
      requires Valid() && size <= MAX_REQUEST
      modifies this`hdr, this`freeHead, this`heapUsed, ram, this`view, pmm`usedFrames, pmm.bitmap
      ensures Valid()
      ensures Outcome(view, pmm.Abs(), ptr) == Malloc(old(view), old(pmm.Abs()), physOffset, size)
      ensures Untouched(old(ram.cells), ram.cells, old(hdr.Keys) + hdr.Keys)
      decreases if FirstFit(view, AlignUp(size, 8), 0) < |view.free| then 0 else 1
    {
      hide Shape, Accounts, Coalesced, F.Inv, Untouched, Take, Grown, Backed, Rounded, F.AllocContiguous, AlignUp, Encoded, Spaced, HeaderAt;
      UntouchedRefl(ram.cells, hdr.Keys + hdr.Keys);
      if size == 0 {
        return 0;
      }
      AlignUpExact(size);
      RoundedTo8(size);
      var n := AlignUp(size, 8);
      var cur := freeHead;
      ghost var i := 0;
      while cur != 0
        invariant 0 <= i <= |view.free| && cur == At(view.free, i)
        invariant forall a :: a in view.free ==> a in view.blocks
        invariant forall j :: 0 <= j < i ==> view.blocks[view.free[j]].size < n
        decreases |view.free| - i
      {
        assert LinkOk(hdr, view.free, i);
        if SizeOf(cur) >= n {
          TakeFit(cur, n);
          return cur + HEADER;
        }
        cur := NextFreeOf(cur);
        i := i + 1;
      }
      assert FirstFit(view, n, 0) == |view.free|;
      var ok := GrowHeap(n);
      if !ok {
        return 0;
      }
      ghost var pa := F.AllocContiguous(old(pmm.Abs()), PagesFor(n)).1;
      RetryIsMalloc(old(view), view, old(pmm.Abs()), pmm.Abs(), physOffset, pa, n);
      ghost var m, keys := ram.cells, hdr.Keys;
      ptr := Kmalloc(n);
      UntouchedTrans(old(ram.cells), m, ram.cells, old(hdr.Keys) + keys, keys + hdr.Keys, old(hdr.Keys) + hdr.Keys);
    }

    method CoalesceRight(blk: nat, ghost m: Cells, ghost keys: set<nat>)
      requires Tied() && R.Freeing(view, blk) && Framed(m, ram.cells, hdr, keys)
      modifies this`hdr, this`freeHead, ram, this`view
      ensures Tied() && view == R.MergeRight(old(view), blk) && Framed(m, ram.cells, hdr, keys)
      ensures hdr.Keys <= old(hdr.Keys)
    {
      hide Shape, Accounts, Untouched, Linked, Encoded, Spaced, HeaderAt;
      NeighbourTags(hdr, view, blk);
      if NextOf(blk) != 0 && !UsedAt(NextOf(blk)) {
        assert view.blocks[blk].next in view.free;
        MergeNext(blk, m, keys);
      }
    }

    method CoalesceLeft(blk: nat, ghost m: Cells, ghost keys: set<nat>)
      requires Tied() && R.Freeing(view, blk) && Framed(m, ram.cells, hdr, keys)
      modifies this`hdr, this`freeHead, ram, this`view
      ensures Tied() && view == R.MergeLeft(old(view), blk) && Framed(m, ram.cells, hdr, keys)
      ensures hdr.Keys <= old(hdr.Keys)
    {
      hide Shape, Accounts, Untouched, Linked, Encoded, Spaced, HeaderAt;
      NeighbourTags(hdr, view, blk);
      if PrevOf(blk) != 0 && !UsedAt(PrevOf(blk)) {
        assert blk in view.free;
        MergeNext(PrevOf(blk), m, keys);
      }
    }

    /** The release of a used block in `kfree`: it is marked free, then merged to the right and to the left. */
    method Coalesce(blk: nat, ghost m: Cells, ghost keys: set<nat>)
      requires Tied() && Inv(view) && Rounded(view) && blk in Live(view)
      requires Framed(m, ram.cells, hdr, keys)
      modifies this`hdr, this`freeHead, this`heapUsed, ram, this`view
      ensures Tied() && view == R.FreeBlock(old(view), blk) && Framed(m, ram.cells, hdr, keys)
      ensures hdr.Keys <= old(hdr.Keys)
    {
      hide Shape, FreeOk, Accounts, Coalesced, Untouched, Linked, Merge, Release, Encoded, Spaced, HeaderAt, Agrees;
      R.ReleaseFreeing(view, blk);
      TiedKeys(hdr, view);
      ReleaseBlock(blk, m, keys);
      R.MergeRightFreeing(view, blk);
      ReleaseKeys(old(view), blk);
      TiedKeys(hdr, view);
      CoalesceRight(blk, m, keys);
      CoalesceLeft(blk, m, keys);
    }

    /** `kfree`. */
    method Kfree(ptr: nat)
      requires Valid() && (ptr != 0 ==> HEADER <= ptr && ptr - HEADER in view.blocks)
      modifies this`hdr, this`freeHead, this`heapUsed, ram, this`view
      ensures Valid()
      ensures pmm.Abs() == old(pmm.Abs()) && Sys() == R.Kfree(old(Sys()), ptr)
      ensures Untouched(old(ram.cells), ram.cells, old(hdr.Keys)) && hdr.Keys <= old(hdr.Keys)
      ensures ptr == 0 ==> ram.cells == old(ram.cells)
    {
      hide Shape, Accounts, Coalesced, FreeOk, F.Inv, Untouched, Linked, Backed, Rounded, Encoded, Spaced, HeaderAt, R.FreeBlock, Agrees;
      UntouchedRefl(ram.cells, hdr.Keys);
      if ptr == 0 {
        return;
      }
      var blk := ptr - HEADER;
      TiedKeys(hdr, view);
      TagsAt(hdr, view, blk);
      R.FreeInv(view, blk);
      if !UsedAt(blk) {
        UnusedStays(view, blk);
        return;
      }
      BlocksSpaced(view);
      FramedStart(ram.cells, hdr, hdr.Keys);
      Coalesce(blk, ram.cells, hdr.Keys);
    }

    /** The byte loop of `krealloc`, between two spans that do not overlap. */
    method CopyBytes(src: nat, dst: nat, len: nat)
      requires src + len <= dst || dst + len <= src
      modifies ram
      ensures SameSpan(old(ram.cells), src, ram.cells, dst, len)
      ensures forall x: nat :: !(dst <= x < dst + len) ==> SameByte(old(ram.cells), ram.cells, x)
    {
      for i := 0 to len
        invariant SameSpan(old(ram.cells), src, ram.cells, dst, i)
        invariant forall x: nat :: !(dst <= x < dst + i) ==> SameByte(old(ram.cells), ram.cells, x)
      {
        ghost var before := ram.cells;
        assert SameByte(old(ram.cells), ram.cells, src + i);
        ram.CopyByte(src + i, dst + i);
        forall x: nat | !(dst <= x < dst + i + 1) ensures SameByte(old(ram.cells), ram.cells, x) {
          assert SameByte(old(ram.cells), before, x);
        }
        forall j: nat | j < i + 1 ensures SpanByte(old(ram.cells), src, ram.cells, dst, j) {
          if j < i { assert SpanByte(old(ram.cells), src, before, dst, j); }
        }
      }
    }

    /** `krealloc` up to its copy loop: a new block that starts with the bytes of `blk`. */
    method AllocCopy(blk: nat, n: nat) returns (newPtr: nat)
      requires Valid() && blk in Live(view) && view.blocks[blk].size < n <= MAX_REQUEST && n % 8 == 0
      modifies this`hdr, this`freeHead, this`heapUsed, ram, this`view, pmm`usedFrames, pmm.bitmap
      ensures Valid()
      ensures Outcome(view, pmm.Abs(), newPtr) == MallocRounded(old(view), old(pmm.Abs()), physOffset, n)
      ensures newPtr != 0 ==> SameSpan(old(ram.cells), blk + HEADER, ram.cells, newPtr, old(view).blocks[blk].size)
      ensures Live(old(view)) <= old(view).blocks.Keys
      ensures KeepsBytes(old(view), old(ram.cells), ram.cells, Live(old(view)))
      ensures SegsGrow(old(view), view) && WithinSegs(old(ram.cells), ram.cells, view.segs)
    {
      hide Accounts, Coalesced, F.Inv, Untouched, Agrees, Linked, Backed, Rounded, MallocRounded, KeepsBytes, SameSpan, Encoded, Spaced, HeaderAt, WithinSegs, SegsGrow;
      ghost var h, f, off, m0 := view, pmm.Abs(), physOffset, ram.cells;
      assert AlignUp(n, 8) == n;
      MallocReady(h, f, off, n);
      newPtr := Kmalloc(n);
      TiedKeys(old(hdr), h);
      TiedKeys(hdr, view);
      MallocKeepsBytes(h, f, off, n, m0, ram.cells);
      MallocSegs(h, f, off, n);
      UntouchedWithin(h, view, m0, ram.cells, old(hdr.Keys) + hdr.Keys);
      if newPtr == 0 {
        return;
      }
      ghost var m1 := ram.cells;
      R.LivePayloadsApart(view, blk, newPtr - HEADER);
      TagsAt(hdr, view, blk);
      CopyBytes(blk + HEADER, newPtr, SizeOf(blk));
      PayloadWriteTied(m1, ram.cells, hdr, view, newPtr - HEADER);
      BlockWithin(view, m1, ram.cells, newPtr - HEADER);
      SegsRefl(view);
      WithinTrans(m0, m1, ram.cells, view, view);
      CopiedBytes(h, view, m0, m1, ram.cells, blk, newPtr - HEADER);
    }

    /** The growing case of `krealloc`: allocate, copy, free. */
    method Move(blk: nat, n: nat) returns (newPtr: nat)
      requires Valid() && blk in Live(view) && view.blocks[blk].size < n <= MAX_REQUEST && n % 8 == 0
      modifies this`hdr, this`freeHead, this`heapUsed, ram, this`view, pmm`usedFrames, pmm.bitmap
      ensures Valid()
      ensures (Sys(), newPtr) == R.Moved(old(Sys()), blk, n)
      ensures newPtr != 0 ==> SameSpan(old(ram.cells), blk + HEADER, ram.cells, newPtr, old(view).blocks[blk].size)
      ensures Live(old(view)) <= old(view).blocks.Keys
      ensures KeepsBytes(old(view), old(ram.cells), ram.cells, Live(old(view)) - (if newPtr != 0 then {blk} else {}))
      ensures SegsGrow(old(view), view) && WithinSegs(old(ram.cells), ram.cells, view.segs)
    {
      hide WithinSegs, SegsGrow, Shape, Accounts, Coalesced, F.Inv, Untouched, Agrees, Linked, Backed, Rounded, MallocRounded, KeepsBytes, SameSpan, Encoded, Spaced, HeaderAt;
      ghost var h, m0 := view, ram.cells;
      MallocRoundedOk(h, pmm.Abs(), physOffset, n);
      newPtr := AllocCopy(blk, n);
      ghost var g, m1 := view, ram.cells;
      if newPtr != 0 {
        TiedKeys(hdr, view);
        Kfree(blk + HEADER);
        TiedKeys(hdr, view);
        FreeKeepsBytes(g, blk, m1, ram.cells);
        FreeWithin(g, blk, m1, ram.cells);
        SegsSame(g, view);
        WithinTrans(m0, m1, ram.cells, g, view);
        SegsTrans(h, g, view);
        ThenFreed(h, g, m0, m1, ram.cells, blk, newPtr - HEADER);
      } else {
        assert Live(h) - {} == Live(h);
      }
    }

    /** `krealloc`: on success the returned block starts with the bytes of the old block, and all
        other live blocks keep their bytes; after a failed request the old block keeps its bytes too. */
    method Krealloc(ptr: nat, newSize: nat) returns (newPtr: nat)
      requires Valid() && newSize <= MAX_REQUEST
      requires ptr != 0 ==> HEADER <= ptr && ptr - HEADER in Live(view)
      modifies this`hdr, this`freeHead, this`heapUsed, ram, this`view, pmm`usedFrames, pmm.bitmap
      ensures Valid()
      ensures (Sys(), newPtr) == R.Krealloc(old(Sys()), ptr, newSize)
      ensures ptr != 0 && newPtr != 0 ==> SameSpan(old(ram.cells), ptr, ram.cells, newPtr, old(view).blocks[ptr - HEADER].size)
      ensures var gone := if ptr != 0 && (newPtr != 0 || newSize == 0) then {ptr - HEADER} else {};
              var rest := Live(old(view)) - gone;
              rest <= old(view).blocks.Keys && KeepsBytes(old(view), old(ram.cells), ram.cells, rest)
      ensures SegsGrow(old(view), view) && WithinSegs(old(ram.cells), ram.cells, view.segs)
    {
      hide WithinSegs, SegsGrow, Shape, Accounts, Coalesced, F.Inv, Untouched, Linked, Backed, Rounded, MallocRounded, KeepsBytes, SameSpan, Encoded, Spaced, HeaderAt;
      ghost var h, f, m := view, pmm.Abs(), ram.cells;
      assert Live(h) <= h.blocks.Keys;
      if ptr == 0 {
        newPtr := Kmalloc(newSize);
        TiedKeys(old(hdr), h);
        TiedKeys(hdr, view);
        MallocKeepsBytes(h, f, physOffset, newSize, m, ram.cells);
        MallocWithin(h, f, physOffset, newSize, m, ram.cells);
        assert Live(h) - {} == Live(h);
        return;
      }
      var blk := ptr - HEADER;
      if newSize == 0 {
        TiedKeys(hdr, view);
        Kfree(ptr);
        TiedKeys(hdr, view);
        FreeKeepsBytes(h, blk, m, ram.cells);
        FreeWithin(h, blk, m, ram.cells);
        return 0;
      }
      var n := AlignUp(newSize, 8);
      if SizeOf(blk) >= n {
        BytesRefl(h, m, ptr, Live(h) - {blk});
        SegsRefl(h);
        WithinRefl(m, h.segs);
        return ptr;
      }
      newPtr := Move(blk, n);
    }

    /** `kmalloc_aligned`: an aligned pointer, with the slot of the back pointer before it and
        `size` bytes behind it, all inside one live block. */
    method KmallocAligned(size: nat, align: nat) returns (ptr: nat)
      requires Valid() && size + align + HEADER + 8 <= MAX_REQUEST
      requires physOffset + PAGE * pmm.totalFrames <= WORD_RANGE
      modifies this`hdr, this`freeHead, this`heapUsed, ram, this`view, pmm`usedFrames, pmm.bitmap
      ensures Valid()
      ensures var r := Malloc(old(view), old(pmm.Abs()), physOffset, size + align + HEADER + 8);
              && (ptr == 0 <==> size == 0 || align == 0 || !PowerOfTwo(align) || r.ptr == 0)
              && (view, pmm.Abs()) == if ptr == 0 then (old(view), old(pmm.Abs())) else (r.heap, r.frames)
      ensures ptr != 0 ==>
                && ptr % align == 0
                && exists a :: a in Live(view) && a !in Live(old(view))
                               && a + HEADER <= ptr - 8 && ptr + size <= End(view.blocks, a)
      ensures ptr != 0 ==>
                var raw := Malloc(old(view), old(pmm.Abs()), physOffset, size + align + HEADER + 8).ptr;
                raw + 8 <= ptr < raw + 8 + align && HasWord(ram.cells, ptr - 8, raw)
      ensures Live(old(view)) <= old(view).blocks.Keys && KeepsBytes(old(view), old(ram.cells), ram.cells, Live(old(view)))
    {
      hide HasWord, StoreWord, Accounts, Coalesced, F.Inv, Untouched, Agrees, Linked, Rounded, Malloc, KeepsBytes, AlignUp, Encoded, Spaced, HeaderAt;
      ghost var h, f, m0 := view, pmm.Abs(), ram.cells;
      assert Live(h) <= h.blocks.Keys;
      BytesRefl(h, m0, 0, Live(h));
      if size == 0 || align == 0 {
        return 0;
      }
      if !PowerOfTwo(align) {
        return 0;
      }
      var padded := size + align + HEADER + 8;
      MallocReady(h, f, physOffset, padded);
      var raw := Kmalloc(padded);
      TiedKeys(old(hdr), h);
      TiedKeys(hdr, view);
      MallocKeepsBytes(h, f, physOffset, padded, m0, ram.cells);
      if raw == 0 {
        return 0;
      }
      InAddressSpace(view, pmm.Abs(), physOffset, raw - HEADER);
      var addr := raw + 8;
      AlignUpAligned(addr, align);
      ptr := AlignUp(addr, align);
      ghost var m1 := ram.cells;
      ram.Store(ptr - 8, raw);
      assert raw - HEADER in Live(view);
      PayloadWriteTied(m1, ram.cells, hdr, view, raw - HEADER);
      PayloadWriteKeeps(h, view, m0, m1, ram.cells, raw - HEADER);
    }

    method HeapGetUsed() returns (bytes: nat)
      requires Valid()
      ensures bytes == Sum(view.blocks, LiveSize)
    {
      bytes := heapUsed;
    }

    /** `heap_get_free`: the walk along the free list adds up the free payload bytes. */
    method HeapGetFree() returns (total: nat)
      requires Valid()
      ensures total == FreeBytes(view)
    {
      hide Shape, Accounts, Coalesced, F.Inv, Backed, Rounded, Encoded, Spaced, HeaderAt;
      total := 0;
      var cur := freeHead;
      ghost var i := 0;
      while cur != 0
        invariant 0 <= i <= |view.free| && cur == At(view.free, i)
        invariant total + ListSum(view.blocks, Size, view.free[i..]) == FreeBytes(view)
        decreases |view.free| - i
      {
        assert LinkOk(hdr, view.free, i);
        assert view.free[i] in view.free;
        assert view.free[i..][1..] == view.free[i + 1..];
        total := total + SizeOf(cur);
        cur := NextFreeOf(cur);
        i := i + 1;
      }
      assert i == |view.free|;
    }

    /** A client stores one byte into its block. */
    method WriteByte(x: nat, b: Byte, ghost a: nat)
      requires Valid() && a in Live(view) && a + HEADER <= x < End(view.blocks, a)
      modifies ram
      ensures Valid() && ram.cells == old(ram.cells)[x := Data(b)]
    {
      hide Encoded, HeaderAt, Agrees, Linked, Accounts, Coalesced, Backed, Rounded, F.Inv;
      ghost var m := ram.cells;
      ram.StoreByte(x, b);
      PayloadWriteTied(m, ram.cells, hdr, view, a);
    }
  }

  /** A write inside a live payload hits no header. */
  lemma PayloadWriteTied(m: Cells, n: Cells, hdr: map<nat, Header>, h: Heap, a: nat)
    requires Encoded(m, hdr) && Agrees(hdr, h.blocks) && Shape(h) && a in Live(h)
    requires forall x: nat {:trigger SameByte(m, n, x)} :: SameByte(m, n, x) || a + HEADER <= x < End(h.blocks, a)
    ensures Encoded(n, hdr)
  {
    forall k, x: nat | k in hdr && Hits(k, x) ensures SameByte(m, n, x) {
      assert k != a ==> End(h.blocks, a) <= k || k + HEADER <= a by { if k != a { R.LivePayloadsApart(h, a, k); } }
    }
    EncodedFrame(m, n, hdr);
  }

  lemma SegsRefl(h: Heap)
    ensures SegsGrow(h, h)
  {
  }

  lemma SegsSame(h: Heap, g: Heap)
    requires g.segs == h.segs
    ensures SegsGrow(h, g)
  {
  }

  lemma SegsTrans(h: Heap, g: Heap, k: Heap)
    requires SegsGrow(h, g) && SegsGrow(g, k)
    ensures SegsGrow(h, k)
  {
    forall s | s in h.segs ensures s in k.segs && k.segs[s] == h.segs[s] { assert s in g.segs; }
  }

  lemma WithinRefl(m: Cells, segs: map<nat, nat>)
    ensures WithinSegs(m, m, segs)
  {
  }

  /** `kmalloc` stores into segments only. */
  lemma MallocWithin(h: Heap, f: F.Frames, off: nat, size: nat, m: Cells, n: Cells)
    requires Ready(h, f, off) && size <= MAX_REQUEST
    requires Untouched(m, n, h.blocks.Keys + Malloc(h, f, off, size).heap.blocks.Keys)
    ensures SegsGrow(h, Malloc(h, f, off, size).heap) && WithinSegs(m, n, Malloc(h, f, off, size).heap.segs)
  {
    hide Malloc, Untouched, WithinSegs, SegsGrow, Accounts, Coalesced, Backed, Rounded, F.Inv;
    MallocReady(h, f, off, size);
    MallocSegs(h, f, off, size);
    var g := Malloc(h, f, off, size).heap;
    UntouchedWithin(h, g, m, n, h.blocks.Keys + g.blocks.Keys);
  }

  /** `kfree` stores into segments only. */
  lemma FreeWithin(h: Heap, a: nat, m: Cells, n: Cells)
    requires Inv(h) && Rounded(h) && a in h.blocks && Untouched(m, n, h.blocks.Keys)
    ensures R.FreeBlock(h, a).segs == h.segs && SegsGrow(h, R.FreeBlock(h, a)) && WithinSegs(m, n, R.FreeBlock(h, a).segs)
  {
    hide Untouched, WithinSegs, Accounts, Coalesced, Rounded;
    R.FreeInv(h, a);
    UntouchedWithin(h, R.FreeBlock(h, a), m, n, h.blocks.Keys);
  }

  lemma BlocksSpaced(h: Heap)
    requires Shape(h)
    ensures Spaced(h.blocks.Keys)
  {
    forall a, b | a in h.blocks.Keys && b in h.blocks.Keys && a < b ensures a + HEADER <= b {
      assert Clear(h.blocks, a, b);
    }
  }

  lemma FramedLess(m: Cells, n: Cells, hdr: map<nat, Header>, a: nat, keys: set<nat>)
    requires Framed(m, n, hdr, keys)
    ensures Framed(m, n, hdr - {a}, keys)
  {
  }

  lemma WordBefore(m: Cells, n: Cells, a: nat, v: nat, b: nat, len: nat)
    requires HasWord(m, a, v) && Changes(m, n, b, len) && (a + 8 <= b || b + len <= a)
    ensures HasWord(n, a, v)
  {
    WordKept(m, n, a, v);
  }

  lemma SixStores(m: Cells, n1: Cells, n2: Cells, n3: Cells, n4: Cells, n5: Cells, n6: Cells,
                  a: nat, size: nat, next: nat, prev: nat)
    requires HasWord(n1, a, size) && Changes(m, n1, a, 8)
    requires Peek(n2, a + 8) == Some(Data(0)) && Changes(n1, n2, a + 8, 1)
    requires HasWord(n3, a + 16, next) && Changes(n2, n3, a + 16, 8)
    requires HasWord(n4, a + 24, prev) && Changes(n3, n4, a + 24, 8)
    requires HasWord(n5, a + 32, 0) && Changes(n4, n5, a + 32, 8)
    requires HasWord(n6, a + 40, 0) && Changes(n5, n6, a + 40, 8)
    ensures HeaderAt(n6, a, Header(size, false, next, prev, 0, 0))
    ensures forall x: nat {:trigger SameByte(m, n6, x)} :: SameByte(m, n6, x) || Hits(a, x)
  {
    hide HasWord;
    WordBefore(n1, n2, a, size, a + 8, 1);
    WordBefore(n2, n3, a, size, a + 16, 8);
    WordBefore(n3, n4, a, size, a + 24, 8);
    WordBefore(n4, n5, a, size, a + 32, 8);
    WordBefore(n5, n6, a, size, a + 40, 8);
    WordBefore(n3, n4, a + 16, next, a + 24, 8);
    WordBefore(n4, n5, a + 16, next, a + 32, 8);
    WordBefore(n5, n6, a + 16, next, a + 40, 8);
    WordBefore(n4, n5, a + 24, prev, a + 32, 8);
    WordBefore(n5, n6, a + 24, prev, a + 40, 8);
    WordBefore(n5, n6, a + 32, 0, a + 40, 8);
    assert SameByte(n2, n3, a + 8) && SameByte(n3, n4, a + 8) && SameByte(n4, n5, a + 8) && SameByte(n5, n6, a + 8);
    forall x: nat | !Hits(a, x) ensures SameByte(m, n6, x) {
      assert SameByte(m, n1, x) && SameByte(n1, n2, x) && SameByte(n2, n3, x);
      assert SameByte(n3, n4, x) && SameByte(n4, n5, x) && SameByte(n5, n6, x);
    }
  }

  /** Every block ends inside the memory that the frame allocator manages. */
  lemma InAddressSpace(h: Heap, f: F.Frames, off: nat, a: nat)
    requires Shape(h) && Backed(h.segs, f.bits, off) && a in h.blocks
    ensures End(h.blocks, a) <= off + PAGE * |f.bits|
  {
    assert BlockOk(h.blocks, h.segs, a);
    var s := h.blocks[a].seg;
    assert SegBacked(h.segs, f.bits, off, s) && SegOk(h.blocks, h.segs, s);
  }

  lemma BytesRefl(h: Heap, m: Cells, p: nat, live: set<nat>)
    requires live <= h.blocks.Keys
    ensures KeepsBytes(h, m, m, live)
    ensures forall len: nat :: SameSpan(m, p, m, p, len)
  {
  }

  /** Writes into a payload that was not live spare the live ones. */
  lemma PayloadWriteKeeps(h: Heap, g: Heap, m0: Cells, m1: Cells, m2: Cells, nb: nat)
    requires Shape(g) && Keeps(h, g, Live(h)) && nb !in Live(h) && nb in Live(g)
    requires Live(h) <= h.blocks.Keys && KeepsBytes(h, m0, m1, Live(h))
    requires forall x: nat :: !(nb + HEADER <= x < End(g.blocks, nb)) ==> SameByte(m1, m2, x)
    ensures KeepsBytes(h, m0, m2, Live(h))
  {
    forall a | a in Live(h) ensures SameSpan(m0, a + HEADER, m2, a + HEADER, h.blocks[a].size) {
      var p := a + HEADER;
      R.LivePayloadsApart(g, a, nb);
      forall i: nat | i < h.blocks[a].size ensures SpanByte(m1, p, m2, p, i) {
        assert SameByte(m1, m2, p + i);
      }
      SpanTrans(m0, p, m1, p, m2, p, h.blocks[a].size);
    }
  }

  lemma CopiedBytes(h: Heap, g: Heap, m0: Cells, m1: Cells, m2: Cells, blk: nat, nb: nat)
    requires Shape(g) && blk in Live(h) && Keeps(h, g, Live(h)) && nb !in Live(h) && nb in Live(g)
    requires h.blocks[blk].size <= g.blocks[nb].size
    requires Live(h) <= h.blocks.Keys && KeepsBytes(h, m0, m1, Live(h))
    requires SameSpan(m1, blk + HEADER, m2, nb + HEADER, h.blocks[blk].size)
    requires forall x: nat :: !(nb + HEADER <= x < nb + HEADER + h.blocks[blk].size) ==> SameByte(m1, m2, x)
    ensures SameSpan(m0, blk + HEADER, m2, nb + HEADER, h.blocks[blk].size)
    ensures KeepsBytes(h, m0, m2, Live(h))
  {
    SpanTrans(m0, blk + HEADER, m1, blk + HEADER, m2, nb + HEADER, h.blocks[blk].size);
    PayloadWriteKeeps(h, g, m0, m1, m2, nb);
  }

  /** Freeing the old block spares the copy and the other live blocks. */
  lemma ThenFreed(h: Heap, g: Heap, m0: Cells, m1: Cells, m2: Cells, blk: nat, nb: nat)
    requires blk in Live(h) && Keeps(h, g, Live(h)) && nb !in Live(h) && nb in Live(g)
    requires h.blocks[blk].size <= g.blocks[nb].size
    requires SameSpan(m0, blk + HEADER, m1, nb + HEADER, h.blocks[blk].size)
    requires Live(h) <= h.blocks.Keys && KeepsBytes(h, m0, m1, Live(h))
    requires Live(g) - {blk} <= g.blocks.Keys && KeepsBytes(g, m1, m2, Live(g) - {blk})
    ensures SameSpan(m0, blk + HEADER, m2, nb + HEADER, h.blocks[blk].size)
    ensures KeepsBytes(h, m0, m2, Live(h) - {blk})
  {
    assert SameSpan(m1, nb + HEADER, m2, nb + HEADER, g.blocks[nb].size);
    SpanTrans(m0, blk + HEADER, m1, nb + HEADER, m2, nb + HEADER, h.blocks[blk].size);
    forall a | a in Live(h) - {blk} ensures SameSpan(m0, a + HEADER, m2, a + HEADER, h.blocks[a].size) {
      assert g.blocks[a].size == h.blocks[a].size;
      SpanTrans(m0, a + HEADER, m1, a + HEADER, m2, a + HEADER, h.blocks[a].size);
    }
  }

  lemma SpanTrans(m: Cells, src: nat, n: Cells, mid: nat, p: Cells, dst: nat, len: nat)
    requires SameSpan(m, src, n, mid, len)
    requires forall i: nat {:trigger SpanByte(n, mid, p, dst, i)} :: i < len ==> SpanByte(n, mid, p, dst, i)
    ensures SameSpan(m, src, p, dst, len)
  {
    forall i: nat | i < len ensures SpanByte(m, src, p, dst, i) {
      assert SpanByte(m, src, n, mid, i) && SpanByte(n, mid, p, dst, i);
    }
  }

  lemma UnusedStays(h: Heap, a: nat)
    requires Inv(h) && Rounded(h) && a in h.blocks && !h.blocks[a].used
    ensures R.FreeBlock(h, a) == h
  {
  }

  lemma ReleaseKeys(h: Heap, a: nat)
    requires a in h.blocks && h.blocks[a].size <= h.usedBytes
    ensures Release(h, a).blocks.Keys == h.blocks.Keys && Release(h, a).segs == h.segs
  {
  }

  /** The physical links of a block name blocks, linked back to it. */
  lemma NeighbourTags(hdr: map<nat, Header>, h: Heap, a: nat)
    requires Agrees(hdr, h.blocks) && Sound(h) && a in h.blocks
    ensures var p, n := hdr[a].prev, hdr[a].next;
            && (n != 0 ==> n in hdr && n in h.blocks && n != a && (!hdr[n].used ==> CanMerge(h, a)))
            && (p != 0 ==> p in hdr && p in h.blocks && h.blocks[p].next == a && a != 0
                           && (!hdr[a].used ==> CanMerge(h, p)))
  {
    assert BlockOk(h.blocks, h.segs, a);
  }

  lemma TagsAt(hdr: map<nat, Header>, h: Heap, a: nat)
    requires Agrees(hdr, h.blocks)
    ensures a in hdr <==> a in h.blocks
    ensures a in hdr ==> SameTags(hdr[a], h.blocks[a])
  {
  }

  lemma TakeKeys(h: Heap, c: nat, n: nat)
    requires FreeOk(h) && c in h.free && n <= h.blocks[c].size
    ensures Take(h, c, n).blocks.Keys ==
            h.blocks.Keys + if n + HEADER + MIN_SPLIT <= h.blocks[c].size then {c + HEADER + n} else {}
  {
  }

  /** Once the heap has grown, the search stops at its first block, with the result of `Malloc`. */
  lemma RetryIsMalloc(h: Heap, g: Heap, f: F.Frames, f': F.Frames, off: nat, pa: nat, n: nat)
    requires Ready(h, f, off) && 0 < n <= MAX_REQUEST && n % 8 == 0 && FirstFit(h, n, 0) == |h.free|
    requires (f', pa) == F.AllocContiguous(f, PagesFor(n)) && pa != 0
    requires g == Grown(h, pa + off, PagesFor(n)) && Ready(g, f', off)
    ensures AlignUp(n, 8) == n && |g.free| > 0 && FirstFit(g, n, 0) == 0
    ensures Malloc(g, f', off, n) == Malloc(h, f, off, n)
    ensures g.blocks.Keys <= Malloc(h, f, off, n).heap.blocks.Keys
  {
    hide Shape, Accounts, Coalesced, F.Inv, Backed, Rounded, F.AllocContiguous, Take, Grown, PagesFor, AlignUp;
    RoundedStays(n);
    GrownHead(h, pa + off, PagesFor(n));
    assert g.free[0] == pa + off;
    TakeKeys(g, pa + off, n);
  }

  lemma RoundedStays(n: nat)
    requires n <= MAX_REQUEST && n % 8 == 0
    ensures AlignUp(n, 8) == n
  {
  }

  lemma GrownHead(h: Heap, base: nat, pages: nat)
    requires 0 < pages
    ensures var g := Grown(h, base, pages);
            g.free == [base] + h.free && base in g.blocks && g.blocks[base].size == pages * PAGE - HEADER
  {
  }

  lemma UntouchedRefl(m: Cells, keys: set<nat>)
    ensures Untouched(m, m, keys)
  {
  }

  lemma TiedKeys(hdr: map<nat, Header>, h: Heap)
    requires Agrees(hdr, h.blocks)
    ensures hdr.Keys == h.blocks.Keys
  {
  }

  lemma GrownKeys(h: Heap, base: nat, pages: nat)
    requires 0 < pages
    ensures Grown(h, base, pages).blocks.Keys == h.blocks.Keys + {base}
  {
  }

  lemma GrownAgrees(hdr: map<nat, Header>, h: Heap, base: nat, pages: nat, hd: Header)
    requires Agrees(hdr, h.blocks) && FreeOk(h) && base !in h.blocks && 0 < pages
    requires hd == Header(pages * PAGE - HEADER, false, 0, 0, 0, 0)
    ensures Agrees(hdr[base := hd], Grown(h, base, pages).blocks)
    ensures base !in h.free && forall a :: a in h.free ==> a in hdr && a != base
  {
  }

  lemma ClaimAgrees(hdr: map<nat, Header>, h: Heap, c: nat)
    requires Agrees(hdr, h.blocks) && FreeOk(h) && c in h.free
    ensures c in hdr && hdr[c].size == h.blocks[c].size
    ensures Agrees(hdr[c := hdr[c].(used := true)], Claim(h, c).blocks)
    ensures forall a :: a in Without(h.free, c) ==> a != c
  {
    WithoutMembers(h.free, c);
  }

  lemma ReleaseAgrees(hdr: map<nat, Header>, h: Heap, a: nat)
    requires Agrees(hdr, h.blocks) && Sound(h) && a in Live(h) && h.blocks[a].size <= h.usedBytes
    ensures a in hdr && a != 0 && a !in h.free && hdr[a].size == h.blocks[a].size
    ensures Agrees(hdr[a := hdr[a].(used := false)], Release(h, a).blocks)
  {
    assert BlockOk(h.blocks, h.segs, a);
  }

  lemma AgreesSame(was: map<nat, Header>, now: map<nat, Header>, bs: map<nat, Block>)
    requires Agrees(was, bs) && SameBlocks(was, now)
    ensures Agrees(now, bs)
  {
  }

  /** The header writes of a split, before the remainder is listed. */
  function SplitHeaders(hdr: map<nat, Header>, c: nat, n: nat): map<nat, Header>
    requires c in hdr && n + HEADER <= hdr[c].size && hdr[c].next != c
  {
    var split := c + HEADER + n;
    var next := hdr[c].next;
    var h1 := hdr[c := hdr[c].(size := n)][split := Header(hdr[c].size - n - HEADER, false, next, c, 0, 0)];
    var h2 := if next != 0 && next in h1 then h1[next := h1[next].(prev := split)] else h1;
    h2[c := h2[c].(next := split)]
  }

  lemma SplitAgrees(hdr: map<nat, Header>, h: Heap, c: nat, n: nat)
    requires Agrees(hdr, h.blocks) && CanSplit(h, c, n) && FreeOk(h)
    ensures c in hdr && n + HEADER <= hdr[c].size && hdr.Keys == h.blocks.Keys
    ensures c + HEADER + n !in hdr && c + HEADER + n !in h.free
    ensures hdr[c].next != c && (hdr[c].next != 0 ==> hdr[c].next in hdr)
    ensures Agrees(SplitHeaders(hdr, c, n), Split(h, c, n).blocks)
    ensures forall a :: a in h.free ==> a in h.blocks
  {
    SplitFresh(h, c, n);
    assert BlockOk(h.blocks, h.segs, c);
  }

  /** The header writes of a merge, after the absorbed block is unlisted. */
  function MergeHeaders(hdr: map<nat, Header>, a: nat): map<nat, Header>
    requires a in hdr && hdr[a].next in hdr && hdr[a].next != a
  {
    var nxt := hdr[a].next;
    var after := hdr[nxt].next;
    var h1 := hdr[a := hdr[a].(size := hdr[a].size + HEADER + hdr[nxt].size, next := after)];
    (if after != 0 && after in h1 then h1[after := h1[after].(prev := a)] else h1) - {nxt}
  }

  lemma MergeHeader(hdr: map<nat, Header>, h: Heap, a: nat)
    requires Agrees(hdr, h.blocks) && CanMerge(h, a)
    ensures a in hdr && hdr[a].next in hdr && hdr[a].next != a && hdr[a].next in h.free
    ensures var after := hdr[hdr[a].next].next;
            after != 0 ==> after in hdr && after != a && after != hdr[a].next
  {
    assert BlockOk(h.blocks, h.segs, a);
    assert BlockOk(h.blocks, h.segs, h.blocks[a].next);
  }

  lemma MergeAgrees(hdr: map<nat, Header>, h: Heap, a: nat)
    requires Agrees(hdr, h.blocks) && CanMerge(h, a) && FreeOk(h)
    ensures hdr[a].next in hdr && hdr[a].next != a
    ensures Agrees(MergeHeaders(hdr, a), Merge(h, a).blocks)
    ensures forall x :: x in Merge(h, a).free ==> x in h.blocks && x != hdr[a].next
  {
    MergeHeader(hdr, h, a);
    WithoutMembers(h.free, hdr[a].next);
  }

  lemma LinkedFrame(was: map<nat, Header>, now: map<nat, Header>, head: nat, free: seq<nat>)
    requires Linked(was, head, free)
    requires forall a :: a in free && a in was ==>
               a in now && now[a].nextFree == was[a].nextFree && now[a].prevFree == was[a].prevFree
    ensures Linked(now, head, free)
  {
    forall i | 0 <= i < |free| ensures LinkOk(now, free, i) {
      assert LinkOk(was, free, i);
    }
  }

  /** The links of a listed block name its neighbours in the list, which are blocks other than it. */
  lemma NeighboursOf(hdr: map<nat, Header>, head: nat, free: seq<nat>, blk: nat)
    requires Linked(hdr, head, free) && blk in free
    ensures blk in hdr
    ensures var k := IndexOf(free, blk);
            var p, n := hdr[blk].prevFree, hdr[blk].nextFree;
            && p == At(free, k - 1) && n == At(free, k + 1)
            && (p != 0 ==> p in hdr && p != blk && p != n)
            && (n != 0 ==> n in hdr && n != blk)
  {
    var k := IndexOf(free, blk);
    assert LinkOk(hdr, free, k);
    if k > 0 {
      assert LinkOk(hdr, free, k - 1);
      NoDupPair(free, k - 1, k);
    }
    if k + 1 < |free| {
      assert LinkOk(hdr, free, k + 1);
      NoDupPair(free, k, k + 1);
      if k > 0 { NoDupPair(free, k - 1, k + 1); }
    }
  }

  /** The headers after the list element `k` was bridged: `p` and `n` are its neighbours. */
  ghost predicate Bridged(was: map<nat, Header>, now: map<nat, Header>, blk: nat, p: nat, n: nat) {
    was.Keys == now.Keys
    && forall a {:trigger now[a]} :: a in was && a != blk ==>
         && now[a].nextFree == (if p != 0 && a == p then n else was[a].nextFree)
         && now[a].prevFree == (if n != 0 && a == n then p else was[a].prevFree)
  }

  function BridgeHeaders(hdr: map<nat, Header>, blk: nat, p: nat, n: nat): map<nat, Header>
    requires blk in hdr
  {
    var h1 := if p != 0 && p in hdr then hdr[p := hdr[p].(nextFree := n)] else hdr;
    var h2 := if n != 0 && n in h1 then h1[n := h1[n].(prevFree := p)] else h1;
    h2[blk := h2[blk].(nextFree := 0, prevFree := 0)]
  }

  lemma BridgeEffect(hdr: map<nat, Header>, blk: nat, p: nat, n: nat)
    requires blk in hdr && (p != 0 ==> p in hdr && p != blk && p != n) && (n != 0 ==> n in hdr && n != blk)
    ensures var now := BridgeHeaders(hdr, blk, p, n);
            Bridged(hdr, now, blk, p, n) && SameBlocks(hdr, now)
  {
  }

  lemma DistinctFrom(free: seq<nat>, j: nat, k: nat)
    requires NoDup(free) && j < |free| && k < |free|
    ensures free[j] == free[k] <==> j == k
  {
    if j < k { NoDupPair(free, j, k); }
    if k < j { NoDupPair(free, k, j); }
  }

  /** The neighbours of an element other than `k` in the list without element `k`. */
  lemma NeighboursWithout(free: seq<nat>, g: seq<nat>, k: nat, i: nat, j: nat)
    requires k < |free| && g == free[..k] + free[k + 1..] && i < |g| && j == (if i < k then i else i + 1)
    ensures g[i] == free[j] && j != k
    ensures At(g, i + 1) == (if j + 1 == k then At(free, k + 1) else At(free, j + 1))
    ensures At(g, i - 1) == (if j == k + 1 then At(free, k - 1) else At(free, j - 1))
  {
  }

  lemma BridgedLinks(was: map<nat, Header>, now: map<nat, Header>, blk: nat, p: nat, n: nat, a: nat)
    requires Bridged(was, now, blk, p, n) && a in was && a != blk
    ensures a in now
    ensures now[a].nextFree == (if p != 0 && a == p then n else was[a].nextFree)
    ensures now[a].prevFree == (if n != 0 && a == n then p else was[a].prevFree)
  {
  }

  /** An element other than `k` keeps its place, with the links of the shorter list. */
  lemma BridgedAt(was: map<nat, Header>, now: map<nat, Header>, free: seq<nat>, g: seq<nat>, k: nat, i: nat, j: nat)
    requires NoDup(free) && 0 !in free && j < |free| && k < |free| && j == (if i < k then i else i + 1) && LinkOk(was, free, j)
    requires Bridged(was, now, free[k], At(free, k - 1), At(free, k + 1))
    requires g == free[..k] + free[k + 1..] && i < |g|
    ensures LinkOk(now, g, i)
  {
    DistinctFrom(free, j, k);
    if k > 0 { DistinctFrom(free, j, k - 1); }
    if k + 1 < |free| { DistinctFrom(free, j, k + 1); }
    NeighboursWithout(free, g, k, i, j);
    hide NoDup, Bridged;
    var a := free[j];
    assert a in was;
    BridgedLinks(was, now, free[k], At(free, k - 1), At(free, k + 1), a);
    assert k > 0 ==> free[k - 1] in free;
    assert k + 1 < |free| ==> free[k + 1] in free;
    assert now[a].nextFree == At(g, i + 1);
    assert now[a].prevFree == At(g, i - 1);
  }

  /** The three header writes of `free_list_remove` unlink `blk` from a well-linked list. */
  lemma RemoveLinked(was: map<nat, Header>, now: map<nat, Header>, oldHead: nat, head: nat, free: seq<nat>, blk: nat)
    requires Linked(was, oldHead, free) && blk in free
    requires var k := IndexOf(free, blk);
             var p, n := At(free, k - 1), At(free, k + 1);
             head == (if p != 0 then oldHead else n) && Bridged(was, now, blk, p, n)
    ensures Linked(now, head, Without(free, blk))
  {
    hide NoDup, Bridged, LinkOk;
    var k: int := IndexOf(free, blk);
    var g := Without(free, blk);
    WithoutMembers(free, blk);
    forall i | 0 <= i < |g| ensures LinkOk(now, g, i) {
      var j := if i < k then i else i + 1;
      assert LinkOk(was, free, j);
      BridgedAt(was, now, free, g, k, i, j);
    }
    assert k > 0 ==> free[k - 1] in free;
  }
}
