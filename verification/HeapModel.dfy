/** The kernel heap as a pure state: the blocks with their boundary tags, the segments taken
    from the frame allocator, and the free list as a sequence of block addresses. The five
    elementary steps below are what `kmalloc`, `kfree` and `grow_heap` are built from. */
module HeapModel {
  import F = Frames
  import opened Sums

  const HEADER: nat := 48
  const MIN_SPLIT: nat := 32
  const PAGE: nat := F.PAGE_SIZE

  /** A block header without its free-list links, and the base of the segment it lies in. */
  datatype Block = Block(size: nat, used: bool, next: nat, prev: nat, seg: nat)

  /** `segs` maps the base of a segment to its length in bytes. */
  datatype Heap = Heap(blocks: map<nat, Block>, segs: map<nat, nat>, free: seq<nat>, usedBytes: nat)

  const EMPTY := Heap(map[], map[], [], 0)

  function End(bs: map<nat, Block>, a: nat): nat
    requires a in bs
  {
    a + HEADER + bs[a].size
  }

  function SegEnd(segs: map<nat, nat>, s: nat): nat
    requires s in segs
  {
    s + segs[s]
  }

  // ----- the invariant -----

  /** The tags of the block at `a`: inside its segment, `next` directly behind it, `prev` mirrored. */
  ghost predicate BlockOk(bs: map<nat, Block>, segs: map<nat, nat>, a: nat)
    requires a in bs
  {
    var b := bs[a];
    && 0 < a
    && b.seg in segs && b.seg <= a && End(bs, a) <= SegEnd(segs, b.seg)
    && (b.prev == 0 <==> a == b.seg)
    && (b.prev != 0 ==> b.prev in bs && bs[b.prev].next == a)
    && (b.next == 0 <==> End(bs, a) == SegEnd(segs, b.seg))
    && (b.next != 0 ==> b.next == End(bs, a) && b.next in bs
                        && bs[b.next].prev == a && bs[b.next].seg == b.seg)
  }

  /** Blocks do not overlap; stated for one pair. */
  ghost predicate Clear(bs: map<nat, Block>, a: nat, b: nat)
    requires a in bs && b in bs
  {
    a < b ==> End(bs, a) <= b
  }

  /** A segment starts with a block of its own, and segments do not overlap. */
  ghost predicate SegOk(bs: map<nat, Block>, segs: map<nat, nat>, s: nat)
    requires s in segs
  {
    s in bs && bs[s].seg == s && HEADER <= segs[s] && segs[s] % PAGE == 0
  }

  ghost predicate SegClear(segs: map<nat, nat>, s: nat, t: nat)
    requires s in segs && t in segs
  {
    s < t ==> SegEnd(segs, s) <= t
  }

  ghost predicate Shape(h: Heap) {
    && (forall a {:trigger BlockOk(h.blocks, h.segs, a)} :: a in h.blocks ==> BlockOk(h.blocks, h.segs, a))
    && (forall a, b {:trigger Clear(h.blocks, a, b)} :: a in h.blocks && b in h.blocks ==> Clear(h.blocks, a, b))
    && (forall s {:trigger SegOk(h.blocks, h.segs, s)} :: s in h.segs ==> SegOk(h.blocks, h.segs, s))
    && (forall s, t {:trigger SegClear(h.segs, s, t)} :: s in h.segs && t in h.segs ==> SegClear(h.segs, s, t))
  }

  /** The free list holds every block that is not used, once. */
  ghost predicate FreeOk(h: Heap) {
    && NoDup(h.free)
    && forall a {:trigger a in h.free} :: a in h.free <==> a in h.blocks && !h.blocks[a].used
  }

  /** The addresses of the live blocks. */
  function Live(h: Heap): set<nat> {
    set a | a in h.blocks && h.blocks[a].used
  }

  function Size(b: Block): nat { b.size }

  function LiveSize(b: Block): nat { if b.used then b.size else 0 }

  function Bytes(n: nat): nat { n }

  function FreeBytes(h: Heap): nat {
    ListSum(h.blocks, Size, h.free)
  }

  /** The counter is the sum of the live sizes, and no byte of the segments is lost. */
  ghost predicate Accounts(h: Heap) {
    && h.usedBytes == Sum(h.blocks, LiveSize)
    && h.usedBytes + FreeBytes(h) + HEADER * |h.blocks| == Sum(h.segs, Bytes)
  }

  predicate FreePair(bs: map<nat, Block>, a: nat)
    requires a in bs
  {
    !bs[a].used && bs[a].next != 0 && bs[a].next in bs && !bs[bs[a].next].used
  }

  /** No two physical neighbours are both free. */
  ghost predicate Coalesced(h: Heap) {
    forall a {:trigger FreePair(h.blocks, a)} :: a in h.blocks ==> !FreePair(h.blocks, a)
  }

  ghost predicate Sound(h: Heap) {
    Shape(h) && FreeOk(h) && Accounts(h)
  }

  ghost predicate Inv(h: Heap) {
    Sound(h) && Coalesced(h)
  }

  // ----- elementary steps -----

  function SetPrev(bs: map<nat, Block>, a: nat, p: nat): map<nat, Block> {
    if a != 0 && a in bs then bs[a := bs[a].(prev := p)] else bs
  }

  /** A fresh segment is one free block, at the head of the free list. */
  function AddSegment(h: Heap, base: nat, bytes: nat): Heap
    requires HEADER <= bytes
  {
    h.(blocks := h.blocks[base := Block(bytes - HEADER, false, 0, 0, base)],
       segs := h.segs[base := bytes],
       free := [base] + h.free)
  }

  /** Cuts the free block `c` after `n` payload bytes; the remainder becomes a free block. */
  function Split(h: Heap, c: nat, n: nat): Heap
    requires c in h.blocks && n + HEADER <= h.blocks[c].size
  {
    var b := h.blocks[c];
    var rest := c + HEADER + n;
    var bs := SetPrev(h.blocks, b.next, rest);
    h.(blocks := bs[c := b.(size := n, next := rest)]
                   [rest := Block(b.size - n - HEADER, false, b.next, c, b.seg)],
       free := [rest] + h.free)
  }

  function Claim(h: Heap, c: nat): Heap
    requires c in h.blocks && c in h.free
  {
    h.(blocks := h.blocks[c := h.blocks[c].(used := true)],
       free := Without(h.free, c),
       usedBytes := h.usedBytes + h.blocks[c].size)
  }

  function Release(h: Heap, a: nat): Heap
    requires a in h.blocks && h.blocks[a].size <= h.usedBytes
  {
    h.(blocks := h.blocks[a := h.blocks[a].(used := false)],
       free := [a] + h.free,
       usedBytes := h.usedBytes - h.blocks[a].size)
  }

  /** The block `a` absorbs its free right neighbour. */
  function Merge(h: Heap, a: nat): Heap
    requires a in h.blocks && h.blocks[a].next in h.blocks && h.blocks[a].next in h.free
  {
    var b := h.blocks[a];
    var n := h.blocks[b.next];
    var bs := SetPrev(h.blocks, n.next, a);
    h.(blocks := bs[a := b.(size := b.size + HEADER + n.size, next := n.next)] - {b.next},
       free := Without(h.free, b.next))
  }
}
