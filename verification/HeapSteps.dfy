/** Each elementary step of the heap keeps `Sound`. */
module HeapSteps {
  import opened HeapModel
  import opened Sums

  // ----- Split -----

  ghost predicate CanSplit(h: Heap, c: nat, n: nat) {
    Shape(h) && c in h.blocks && n + HEADER <= h.blocks[c].size
  }

  lemma SplitFresh(h: Heap, c: nat, n: nat)
    requires CanSplit(h, c, n)
    ensures c + HEADER + n !in h.blocks
    ensures h.blocks[c].next != 0 ==> h.blocks[c].next in h.blocks && h.blocks[c].next > c + HEADER + n
  {
    assert BlockOk(h.blocks, h.segs, c);
    assert c + HEADER + n in h.blocks ==> Clear(h.blocks, c, c + HEADER + n);
  }

  lemma SplitBlockOk(h: Heap, c: nat, n: nat, x: nat)
    requires CanSplit(h, c, n) && x in Split(h, c, n).blocks
    ensures BlockOk(Split(h, c, n).blocks, h.segs, x)
  {
    SplitFresh(h, c, n);
    assert BlockOk(h.blocks, h.segs, c);
    if x in h.blocks {
      assert BlockOk(h.blocks, h.segs, x);
    }
  }

  lemma SplitClear(h: Heap, c: nat, n: nat, x: nat, y: nat)
    requires CanSplit(h, c, n) && x in Split(h, c, n).blocks && y in Split(h, c, n).blocks
    ensures Clear(Split(h, c, n).blocks, x, y)
  {
    SplitFresh(h, c, n);
    var p := if x in h.blocks then x else c;
    var q := if y in h.blocks then y else c;
    assert Clear(h.blocks, p, q) && Clear(h.blocks, q, p);
  }

  lemma SplitShape(h: Heap, c: nat, n: nat)
    requires CanSplit(h, c, n)
    ensures Shape(Split(h, c, n))
  {
    var bs := Split(h, c, n).blocks;
    forall x | x in bs ensures BlockOk(bs, h.segs, x) { SplitBlockOk(h, c, n, x); }
    forall x, y | x in bs && y in bs ensures Clear(bs, x, y) { SplitClear(h, c, n, x, y); }
    forall s | s in h.segs ensures SegOk(bs, h.segs, s) { assert SegOk(h.blocks, h.segs, s); SplitFresh(h, c, n); }
    forall s, t | s in h.segs && t in h.segs ensures SegClear(h.segs, s, t) {}
  }

  // ----- Merge -----

  ghost predicate CanMerge(h: Heap, a: nat) {
    Shape(h) && a in h.blocks && h.blocks[a].next != 0
    && h.blocks[a].next in h.blocks && h.blocks[a].next in h.free
  }

  lemma MergeBlockOk(h: Heap, a: nat, x: nat)
    requires CanMerge(h, a) && x in Merge(h, a).blocks
    ensures BlockOk(Merge(h, a).blocks, h.segs, x)
  {
    var bs := h.blocks;
    assert BlockOk(bs, h.segs, a);
    assert BlockOk(bs, h.segs, bs[a].next);
    assert BlockOk(bs, h.segs, x);
  }

  lemma MergeClear(h: Heap, a: nat, x: nat, y: nat)
    requires CanMerge(h, a) && x in Merge(h, a).blocks && y in Merge(h, a).blocks
    ensures Clear(Merge(h, a).blocks, x, y)
  {
    assert BlockOk(h.blocks, h.segs, a);
    assert Clear(h.blocks, x, y);
    assert Clear(h.blocks, h.blocks[a].next, y);
  }

  lemma MergeShape(h: Heap, a: nat)
    requires CanMerge(h, a)
    ensures Shape(Merge(h, a))
  {
    var bs := Merge(h, a).blocks;
    forall x | x in bs ensures BlockOk(bs, h.segs, x) { MergeBlockOk(h, a, x); }
    forall x, y | x in bs && y in bs ensures Clear(bs, x, y) { MergeClear(h, a, x, y); }
    forall s | s in h.segs ensures SegOk(bs, h.segs, s) {
      assert SegOk(h.blocks, h.segs, s);
      assert BlockOk(h.blocks, h.segs, s);
      assert BlockOk(h.blocks, h.segs, a);
    }
    forall s, t | s in h.segs && t in h.segs ensures SegClear(h.segs, s, t) {}
  }

  // ----- AddSegment -----

  ghost predicate Apart(h: Heap, base: nat, bytes: nat) {
    forall s :: s in h.segs ==> SegEnd(h.segs, s) <= base || base + bytes <= s
  }

  lemma Within(h: Heap, base: nat, bytes: nat, x: nat)
    requires Shape(h) && HEADER <= bytes && Apart(h, base, bytes) && x in h.blocks
    ensures End(h.blocks, x) <= base || base + bytes <= x
  {
    assert BlockOk(h.blocks, h.segs, x);
  }

  lemma AddSegmentShape(h: Heap, base: nat, bytes: nat)
    requires Shape(h) && 0 < base && HEADER <= bytes && bytes % PAGE == 0 && Apart(h, base, bytes)
    ensures Shape(AddSegment(h, base, bytes))
    ensures base !in h.blocks && base !in h.segs
  {
    var g := AddSegment(h, base, bytes);
    forall x | x in h.blocks ensures End(h.blocks, x) <= base || base + bytes <= x {
      Within(h, base, bytes, x);
    }
    forall s | s in h.segs ensures s in h.blocks { assert SegOk(h.blocks, h.segs, s); }
    forall x | x in g.blocks ensures BlockOk(g.blocks, g.segs, x) {
      if x in h.blocks { assert BlockOk(h.blocks, h.segs, x); }
    }
    forall x, y | x in g.blocks && y in g.blocks ensures Clear(g.blocks, x, y) {
      assert x in h.blocks && y in h.blocks ==> Clear(h.blocks, x, y);
    }
    forall s | s in g.segs ensures SegOk(g.blocks, g.segs, s) {
      assert s in h.segs ==> SegOk(h.blocks, h.segs, s);
    }
    forall s, t | s in g.segs && t in g.segs ensures SegClear(g.segs, s, t) {
      assert s in h.segs && t in h.segs ==> SegClear(h.segs, s, t);
    }
  }

  // ----- Claim and Release -----

  lemma RelabelShape(h: Heap, c: nat, used: bool)
    requires Shape(h) && c in h.blocks
    ensures Shape(h.(blocks := h.blocks[c := h.blocks[c].(used := used)]))
  {
    var bs := h.blocks[c := h.blocks[c].(used := used)];
    forall x | x in bs ensures BlockOk(bs, h.segs, x) { assert BlockOk(h.blocks, h.segs, x); }
    forall x, y | x in bs && y in bs ensures Clear(bs, x, y) { assert Clear(h.blocks, x, y); }
    forall s | s in h.segs ensures SegOk(bs, h.segs, s) { assert SegOk(h.blocks, h.segs, s); }
    forall s, t | s in h.segs && t in h.segs ensures SegClear(h.segs, s, t) {}
  }

  // ----- what the live blocks see -----

  /** The live blocks of `h` are live in `g` with the same sizes. */
  ghost predicate Keeps(h: Heap, g: Heap, live: set<nat>) {
    && live <= Live(h) && live <= Live(g)
    && forall a :: a in live ==> g.blocks[a].size == h.blocks[a].size
  }

  ghost predicate SameLive(h: Heap, g: Heap) {
    Live(g) == Live(h) && Keeps(h, g, Live(h))
  }

  // ----- the free list and the accounts -----

  lemma AddSegmentSound(h: Heap, base: nat, bytes: nat)
    requires Sound(h) && 0 < base && HEADER <= bytes && bytes % PAGE == 0 && Apart(h, base, bytes)
    ensures Sound(AddSegment(h, base, bytes))
    ensures SameLive(h, AddSegment(h, base, bytes))
    ensures base !in h.blocks && base !in h.segs
  {
    var g := AddSegment(h, base, bytes);
    AddSegmentShape(h, base, bytes);
    NoDupCons(base, h.free);
    assert FreeOk(g);
    assert Live(g) == Live(h);
    assert Accounts(g) by {
      SumInsert(h.segs, Bytes, base, bytes);
      SumInsert(h.blocks, LiveSize, base, g.blocks[base]);
      ListSumSame(h.blocks, g.blocks, Size, h.free);
      assert g.free[1..] == h.free;
    }
  }

  lemma SplitFreeOk(h: Heap, c: nat, n: nat)
    requires CanSplit(h, c, n) && FreeOk(h) && c in h.free
    ensures FreeOk(Split(h, c, n)) && SameLive(h, Split(h, c, n))
  {
    SplitFresh(h, c, n);
    var g := Split(h, c, n);
    NoDupCons(c + HEADER + n, h.free);
    assert Live(g) == Live(h);
  }

  lemma SplitLiveSum(h: Heap, c: nat, n: nat)
    requires CanSplit(h, c, n) && FreeOk(h) && c in h.free
    ensures Sum(Split(h, c, n).blocks, LiveSize) == Sum(h.blocks, LiveSize)
  {
    var g := Split(h, c, n);
    var rest := c + HEADER + n;
    SplitFresh(h, c, n);
    var b := h.blocks[c];
    var bs := SetPrev(h.blocks, b.next, rest);
    if b.next != 0 { SumUpdate(h.blocks, LiveSize, b.next, bs[b.next]); }
    SumUpdate(bs, LiveSize, c, g.blocks[c]);
    SumInsert(bs[c := g.blocks[c]], LiveSize, rest, g.blocks[rest]);
  }

  lemma SplitFreeSum(h: Heap, c: nat, n: nat)
    requires CanSplit(h, c, n) && FreeOk(h) && c in h.free
    ensures FreeBytes(Split(h, c, n)) + HEADER == FreeBytes(h)
    ensures |Split(h, c, n).blocks| == |h.blocks| + 1
  {
    hide Without;
    var g := Split(h, c, n);
    SplitFresh(h, c, n);
    WithoutMembers(h.free, c);
    ListSumWithout(h.blocks, Size, h.free, c);
    ListSumWithout(g.blocks, Size, h.free, c);
    ListSumSame(h.blocks, g.blocks, Size, Without(h.free, c));
    assert g.free[1..] == h.free;
    assert g.blocks.Keys == h.blocks.Keys + {c + HEADER + n};
  }

  lemma SplitSound(h: Heap, c: nat, n: nat)
    requires Sound(h) && CanSplit(h, c, n) && c in h.free
    ensures Sound(Split(h, c, n)) && SameLive(h, Split(h, c, n))
  {
    SplitShape(h, c, n);
    SplitFreeOk(h, c, n);
    SplitLiveSum(h, c, n);
    SplitFreeSum(h, c, n);
  }

  lemma ClaimSound(h: Heap, c: nat)
    requires Sound(h) && c in h.free
    ensures Sound(Claim(h, c))
    ensures Live(Claim(h, c)) == Live(h) + {c} && Keeps(h, Claim(h, c), Live(h))
  {
    var g := Claim(h, c);
    RelabelShape(h, c, true);
    WithoutMembers(h.free, c);
    assert Accounts(g) by {
      SumUpdate(h.blocks, LiveSize, c, g.blocks[c]);
      ListSumWithout(h.blocks, Size, h.free, c);
      ListSumSame(h.blocks, g.blocks, Size, g.free);
      assert g.blocks.Keys == h.blocks.Keys;
    }
  }

  /** The counter covers every live block, so `heap_used` cannot underflow. */
  lemma UsedCovers(h: Heap, a: nat)
    requires Accounts(h) && a in Live(h)
    ensures h.blocks[a].size <= h.usedBytes
  {
    SumRemove(h.blocks, LiveSize, a);
  }

  lemma ReleaseSound(h: Heap, a: nat)
    requires Sound(h) && a in Live(h) && h.blocks[a].size <= h.usedBytes
    ensures Sound(Release(h, a))
    ensures Live(Release(h, a)) == Live(h) - {a} && Keeps(h, Release(h, a), Live(h) - {a})
  {
    var g := Release(h, a);
    RelabelShape(h, a, false);
    NoDupCons(a, h.free);
    assert FreeOk(g);
    assert Accounts(g) by {
      SumUpdate(h.blocks, LiveSize, a, g.blocks[a]);
      ListSumSame(h.blocks, g.blocks, Size, h.free);
      assert g.free[1..] == h.free;
      assert g.blocks.Keys == h.blocks.Keys;
    }
  }

  lemma MergeFreeOk(h: Heap, a: nat)
    requires FreeOk(h) && CanMerge(h, a) && a in h.free
    ensures FreeOk(Merge(h, a)) && SameLive(h, Merge(h, a))
  {
    assert BlockOk(h.blocks, h.segs, a);
    WithoutMembers(h.free, h.blocks[a].next);
    assert Live(Merge(h, a)) == Live(h);
  }

  lemma MergeLiveSum(h: Heap, a: nat)
    requires FreeOk(h) && CanMerge(h, a) && a in h.free
    ensures Sum(Merge(h, a).blocks, LiveSize) == Sum(h.blocks, LiveSize)
  {
    var g := Merge(h, a);
    var n := h.blocks[a].next;
    assert BlockOk(h.blocks, h.segs, a);
    assert BlockOk(h.blocks, h.segs, n);
    var bs := SetPrev(h.blocks, h.blocks[n].next, a);
    if h.blocks[n].next != 0 { SumUpdate(h.blocks, LiveSize, h.blocks[n].next, bs[h.blocks[n].next]); }
    SumUpdate(bs, LiveSize, a, g.blocks[a]);
    SumRemove(bs[a := g.blocks[a]], LiveSize, n);
  }

  lemma MergeFreeSum(h: Heap, a: nat)
    requires FreeOk(h) && CanMerge(h, a) && a in h.free
    ensures FreeBytes(Merge(h, a)) == FreeBytes(h) + HEADER
    ensures |Merge(h, a).blocks| == |h.blocks| - 1
  {
    hide ListSum, Without;
    var g := Merge(h, a);
    var n := h.blocks[a].next;
    assert BlockOk(h.blocks, h.segs, a);
    WithoutMembers(h.free, n);
    ListSumWithout(h.blocks, Size, h.free, n);
    WithoutMembers(g.free, a);
    ListSumWithout(h.blocks, Size, g.free, a);
    ListSumWithout(g.blocks, Size, g.free, a);
    ListSumSame(h.blocks, g.blocks, Size, Without(g.free, a));
    assert h.blocks.Keys == g.blocks.Keys + {n};
  }

  lemma MergeSound(h: Heap, a: nat)
    requires Sound(h) && CanMerge(h, a) && a in h.free
    ensures Sound(Merge(h, a)) && SameLive(h, Merge(h, a))
  {
    MergeShape(h, a);
    MergeFreeOk(h, a);
    MergeLiveSum(h, a);
    MergeFreeSum(h, a);
  }
}
