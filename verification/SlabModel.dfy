/** The slab zones as a pure state: per zone the free list and the live chunks, and the pages that
    belong to zones. */
module SlabModel {
  import F = Frames
  import D = Division
  import opened Sums

  const ZONES: nat := 8
  const PAGE: nat := F.PAGE_SIZE

  function ChunkSize(z: nat): nat
    requires z < ZONES
  {
    [16, 32, 64, 128, 256, 512, 1024, 2048][z]
  }

  /** The smallest zone whose chunks hold `size` bytes; `ZONES` when there is none. */
  function ZoneFor(size: nat, z: nat): (r: nat)
    requires z <= ZONES
    ensures z <= r <= ZONES
    ensures r < ZONES ==> size <= ChunkSize(r)
    ensures forall y :: z <= y < r ==> ChunkSize(y) < size
    decreases ZONES - z
  {
    if z == ZONES || size <= ChunkSize(z) then z else ZoneFor(size, z + 1)
  }

  /** `pages` maps the base of a page to its zone; `off` is the physical-to-virtual offset. */
  datatype Slab = Slab(free: seq<seq<nat>>, live: seq<set<nat>>, pages: map<nat, nat>, counts: seq<nat>, off: nat)

  function PageOf(off: nat, c: nat): int {
    c - (c - off) % PAGE
  }

  /** `c` is the address of a chunk of zone `z`. */
  predicate Chunk(s: Slab, z: nat, c: nat)
    requires z < ZONES
  {
    && s.off <= c && PageOf(s.off, c) in s.pages && s.pages[PageOf(s.off, c)] == z
    && (c - s.off) % PAGE % ChunkSize(z) == 0
  }

  ghost predicate PageOk(s: Slab, bits: seq<bool>, p: nat)
    requires p in s.pages
  {
    && s.pages[p] < ZONES && s.off < p && (p - s.off) % PAGE == 0
    && (p - s.off) / PAGE < |bits| && bits[(p - s.off) / PAGE]
  }

  /** In every zone, each chunk of each of its pages is either on the free list, once, or live. */
  ghost predicate ZoneOk(s: Slab, z: nat)
    requires z < ZONES && |s.free| == |s.live| == |s.counts| == ZONES
  {
    && NoDup(s.free[z])
    && (forall c {:trigger Chunk(s, z, c)} :: Chunk(s, z, c) <==> c in s.free[z] || c in s.live[z])
    && (forall c {:trigger c in s.free[z]} :: c in s.free[z] ==> Chunk(s, z, c) && c !in s.live[z])
    && |s.free[z]| + |s.live[z]| == s.counts[z] * (PAGE / ChunkSize(z))
  }

  ghost predicate Inv(s: Slab, f: F.Frames) {
    && |s.free| == |s.live| == |s.counts| == ZONES
    && F.Inv(f) && F.ZeroTaken(f)
    && (forall p {:trigger PageOk(s, f.bits, p)} :: p in s.pages ==> PageOk(s, f.bits, p))
    && (forall z: nat {:trigger ZoneOk(s, z)} :: z < ZONES ==> ZoneOk(s, z))
  }

  function Empty(off: nat): Slab {
    Slab(seq(ZONES, i => []), seq(ZONES, i => {}), map[], seq(ZONES, i => 0), off)
  }

  lemma EmptyInv(f: F.Frames, off: nat)
    requires F.Inv(f) && F.ZeroTaken(f)
    ensures Inv(Empty(off), f)
  {
    var s := Empty(off);
    forall z: nat | z < ZONES ensures ZoneOk(s, z) {
      assert s.free[z] == [] && s.live[z] == {};
    }
  }

  // ----- disjointness -----

  lemma SizeDivides(z: nat, m: nat)
    requires z < ZONES && m < PAGE && m % ChunkSize(z) == 0
    ensures m + ChunkSize(z) <= PAGE && PAGE % ChunkSize(z) == 0
  {
    assert z == 0 || z == 1 || z == 2 || z == 3 || z == 4 || z == 5 || z == 6 || z == 7;
  }

  lemma MultiplesApart(z: nat, m: nat, n: nat)
    requires z < ZONES && m < n && m % ChunkSize(z) == 0 && n % ChunkSize(z) == 0
    ensures m + ChunkSize(z) <= n
  {
    SizePositive(z);
    hide ChunkSize;
    D.NextMultiple(m, n, ChunkSize(z));
  }

  /** Two different chunks, of the same or of different zones, do not overlap. */
  lemma ChunksApart(s: Slab, f: F.Frames, z: nat, c: nat, y: nat, d: nat)
    requires Inv(s, f) && z < ZONES && y < ZONES && Chunk(s, z, c) && Chunk(s, y, d) && c < d
    ensures c + ChunkSize(z) <= d
  {
    var m, n := (c - s.off) % PAGE, (d - s.off) % PAGE;
    assert PageOk(s, f.bits, c - m) && PageOk(s, f.bits, d - n);
    SizeDivides(z, m);
    if c - m == d - n {
      MultiplesApart(z, m, n);
    } else {
      PagesApart(s.off, c, d);
    }
  }

  lemma PagesApart(off: nat, c: nat, d: nat)
    requires off <= c < d && PageOf(off, c) != PageOf(off, d)
    ensures PageOf(off, c) + PAGE <= PageOf(off, d)
  {
    var a, b := (c - off) / PAGE, (d - off) / PAGE;
    assert PageOf(off, c) == off + PAGE * a && PageOf(off, d) == off + PAGE * b;
  }

  // ----- steps -----

  function WithFree(s: Slab, z: nat, list: seq<nat>): Slab
    requires z < |s.free|
  {
    var free: seq<seq<nat>> := s.free[z := list];
    s.(free := free)
  }

  function WithLive(s: Slab, z: nat, live: set<nat>): Slab
    requires z < |s.live|
  {
    var all: seq<set<nat>> := s.live[z := live];
    s.(live := all)
  }

  /** Takes the head of the free list of zone `z`. */
  function Pop(s: Slab, z: nat): Slab
    requires z < |s.free| == |s.live| && s.free[z] != []
  {
    WithLive(WithFree(s, z, s.free[z][1..]), z, s.live[z] + {s.free[z][0]})
  }

  /** Puts the live chunk `c` back at the head of the free list of zone `z`. */
  function Push(s: Slab, z: nat, c: nat): Slab
    requires z < |s.free| == |s.live|
  {
    WithLive(WithFree(s, z, [c] + s.free[z]), z, s.live[z] - {c})
  }

  /** The first `n` chunks of a page, pushed in ascending order: the highest address comes first. */
  function Carve(base: nat, size: nat, n: nat): seq<nat> {
    if n == 0 then [] else [base + (n - 1) * size] + Carve(base, size, n - 1)
  }

  function Refill(s: Slab, z: nat, base: nat): Slab
    requires z < ZONES && |s.free| == |s.live| == |s.counts| == ZONES
  {
    var counts: seq<nat> := s.counts[z := s.counts[z] + 1];
    WithFree(s, z, Carve(base, ChunkSize(z), PAGE / ChunkSize(z)) + s.free[z])
      .(pages := s.pages[base := z], counts := counts)
  }

  lemma OtherZones(s: Slab, t: Slab, z: nat)
    requires z < ZONES && ZoneOk.requires(s, z) && ZoneOk.requires(t, z)
    requires s.free[z] == t.free[z] && s.live[z] == t.live[z] && s.counts[z] == t.counts[z]
    requires s.pages == t.pages && s.off == t.off && ZoneOk(s, z)
    ensures ZoneOk(t, z)
  {
    forall c: nat ensures Chunk(t, z, c) <==> c in t.free[z] || c in t.live[z] {
      assert Chunk(s, z, c) == Chunk(t, z, c);
    }
    forall c | c in t.free[z] ensures Chunk(t, z, c) && c !in t.live[z] {
      assert c in s.free[z];
      assert Chunk(s, z, c) == Chunk(t, z, c);
    }
  }

  lemma PopInv(s: Slab, f: F.Frames, z: nat)
    requires Inv(s, f) && z < ZONES && s.free[z] != []
    ensures Inv(Pop(s, z), f)
    ensures Chunk(s, z, s.free[z][0]) && forall y: nat :: y < ZONES ==> s.free[z][0] !in s.live[y]
  {
    var t := Pop(s, z);
    var c := s.free[z][0];
    assert ZoneOk(s, z) && c in s.free[z];
    forall y: nat | y < ZONES ensures ZoneOk(t, y) {
      if y != z {
        assert ZoneOk(s, y);
        OtherZones(s, t, y);
      } else {
        forall x: nat ensures Chunk(t, z, x) <==> x in t.free[z] || x in t.live[z] {
          assert Chunk(s, z, x) == Chunk(t, z, x);
          assert x in s.free[z] <==> x == c || x in t.free[z];
        }
        forall x | x in t.free[z] ensures Chunk(t, z, x) && x !in t.live[z] {
          assert x in s.free[z];
          assert Chunk(s, z, x) == Chunk(t, z, x);
        }
      }
    }
    forall p | p in t.pages ensures PageOk(t, f.bits, p) { assert PageOk(s, f.bits, p); }
    forall y: nat | y < ZONES ensures c !in s.live[y] {
      assert ZoneOk(s, y);
      assert c in s.live[y] ==> Chunk(s, y, c);
    }
  }

  lemma PushInv(s: Slab, f: F.Frames, z: nat, c: nat)
    requires Inv(s, f) && z < ZONES && c in s.live[z]
    ensures Inv(Push(s, z, c), f)
  {
    var t := Push(s, z, c);
    assert ZoneOk(s, z);
    assert c !in s.free[z];
    forall y: nat | y < ZONES ensures ZoneOk(t, y) {
      if y != z {
        assert ZoneOk(s, y);
        OtherZones(s, t, y);
      } else {
        NoDupCons(c, s.free[z]);
        forall x: nat ensures Chunk(t, z, x) <==> x in t.free[z] || x in t.live[z] {
          assert Chunk(s, z, x) == Chunk(t, z, x);
        }
        forall x | x in t.free[z] ensures Chunk(t, z, x) && x !in t.live[z] {
          assert x == c || x in s.free[z];
          assert Chunk(s, z, x) == Chunk(t, z, x);
        }
      }
    }
    forall p | p in t.pages ensures PageOk(t, f.bits, p) { assert PageOk(s, f.bits, p); }
  }

  // ----- refilling a zone -----

  predicate Multiple(base: nat, size: nat, n: nat, x: nat, k: nat) {
    k < n && x == base + k * size
  }

  lemma {:induction false} CarveMembers(base: nat, size: nat, n: nat)
    requires 0 < size
    ensures NoDup(Carve(base, size, n)) && |Carve(base, size, n)| == n
    ensures forall x :: x in Carve(base, size, n) ==> base <= x < base + n * size
    ensures forall x :: x in Carve(base, size, n) <==> exists k: nat :: Multiple(base, size, n, x, k)
  {
    if n > 0 {
      CarveMembers(base, size, n - 1);
      var c := base + (n - 1) * size;
      NoDupCons(c, Carve(base, size, n - 1));
      forall x | x in Carve(base, size, n) ensures exists k: nat :: Multiple(base, size, n, x, k) {
        if x == c {
          assert Multiple(base, size, n, x, n - 1);
        } else {
          var k: nat :| Multiple(base, size, n - 1, x, k);
          assert Multiple(base, size, n, x, k);
        }
      }
      forall x, k: nat | Multiple(base, size, n, x, k) ensures x in Carve(base, size, n) {
        if k < n - 1 { assert Multiple(base, size, n - 1, x, k); }
      }
    }
  }

  lemma StepInPage(z: nat, k: nat)
    requires z < ZONES && k < PAGE / ChunkSize(z)
    ensures k * ChunkSize(z) + ChunkSize(z) <= PAGE
  {
    assert z == 0 || z == 1 || z == 2 || z == 3 || z == 4 || z == 5 || z == 6 || z == 7;
  }

  lemma StepOf(z: nat, r: nat)
    requires z < ZONES && r < PAGE && r % ChunkSize(z) == 0
    ensures r / ChunkSize(z) < PAGE / ChunkSize(z) && r == r / ChunkSize(z) * ChunkSize(z)
  {
    assert z == 0 || z == 1 || z == 2 || z == 3 || z == 4 || z == 5 || z == 6 || z == 7;
  }

  /** The multiples of the chunk size inside a page, counted and by remainder. */
  lemma MultipleMod(z: nat, base: nat, x: nat)
    requires z < ZONES
    ensures (exists k: nat :: Multiple(base, ChunkSize(z), PAGE / ChunkSize(z), x, k))
            <==> base <= x < base + PAGE && (x - base) % ChunkSize(z) == 0
  {
    hide ChunkSize;
    SizePositive(z);
    var size := ChunkSize(z);
    if base <= x < base + PAGE && (x - base) % size == 0 {
      StepOf(z, x - base);
      assert Multiple(base, size, PAGE / size, x, (x - base) / size);
    }
    if k: nat :| Multiple(base, size, PAGE / size, x, k) {
      StepInPage(z, k);
      D.MultipleMod(k, size);
    }
  }

  lemma CarveChunks(base: nat, z: nat, x: nat)
    requires z < ZONES
    ensures x in Carve(base, ChunkSize(z), PAGE / ChunkSize(z))
            <==> base <= x < base + PAGE && (x - base) % ChunkSize(z) == 0
  {
    CarveMembers(base, ChunkSize(z), PAGE / ChunkSize(z));
    MultipleMod(z, base, x);
  }

  /** The chunks carved so far, and the next one: inside the page and a chunk apart. */
  lemma CarveInPage(z: nat, base: nat, i: nat)
    requires z < ZONES && i < PAGE / ChunkSize(z)
    ensures var size := ChunkSize(z);
            var c := base + i * size;
            && base <= c && c + size <= base + PAGE
            && forall d :: d in Carve(base, size, i) ==> d + size <= c
  {
    var size := ChunkSize(z);
    CarveMembers(base, size, i);
    assert z == 0 || z == 1 || z == 2 || z == 3 || z == 4 || z == 5 || z == 6 || z == 7;
    forall d | d in Carve(base, size, i) ensures d + size <= base + i * size {
      var k: nat :| Multiple(base, size, i, d, k);
    }
  }

  /** The chunks after a page is added: the old ones, and those cut out of the page. */
  lemma RefilledChunk(s: Slab, z: nat, base: nat, y: nat, x: nat)
    requires z < ZONES && y < ZONES && Refill.requires(s, z, base)
    requires s.off < base && (base - s.off) % PAGE == 0 && base !in s.pages
    ensures Chunk(Refill(s, z, base), y, x)
            <==> Chunk(s, y, x) || (y == z && x in Carve(base, ChunkSize(z), PAGE / ChunkSize(z)))
  {
    CarveChunks(base, z, x);
    PageRange(s.off, base, x);
  }

  lemma PageRange(off: nat, base: nat, x: nat)
    requires off < base && (base - off) % PAGE == 0
    ensures off <= x && PageOf(off, x) == base <==> base <= x < base + PAGE
    ensures base <= x < base + PAGE ==> (x - off) % PAGE == x - base
  {
    var q := (base - off) / PAGE;
    assert base == off + PAGE * q;
    if off <= x {
      var r := (x - off) / PAGE;
      assert PageOf(off, x) == off + PAGE * r;
    }
  }

  lemma RefillInv(s: Slab, f: F.Frames, z: nat)
    requires Inv(s, f) && z < ZONES && s.free[z] == []
    ensures var (f', pa) := F.AllocFrame(f);
            var base, t := pa + s.off, Refill(s, z, pa + s.off);
            pa != 0 ==>
              && Inv(t, f') && base !in s.pages && t.pages == s.pages[base := z] && t.live == s.live && t.free[z] != []
              && (forall x {:trigger x in t.free[z]} :: x in t.free[z] <==> base <= x < base + PAGE && (x - base) % ChunkSize(z) == 0)
              && (forall y: nat {:trigger t.free[y]} :: y < ZONES && y != z ==> t.free[y] == s.free[y] && t.counts[y] == s.counts[y])
  {
    hide ZoneOk, Carve, ChunkSize, F.AllocFrame;
    F.AllocFrameTakes(f);
    var (f', pa) := F.AllocFrame(f);
    if pa != 0 {
      var base := pa + s.off;
      SizePositive(z);
      assert base in s.pages ==> PageOk(s, f.bits, base);
      RefillZones(s, f, z, base);
      var t := Refill(s, z, base);
      forall x ensures x in t.free[z] <==> base <= x < base + PAGE && (x - base) % ChunkSize(z) == 0 {
        if x >= 0 { CarveChunks(base, z, x); }
      }
      forall p | p in t.pages ensures PageOk(t, f'.bits, p) { assert p in s.pages ==> PageOk(s, f.bits, p); }
    }
  }

  lemma RefillZones(s: Slab, f: F.Frames, z: nat, base: nat)
    requires Inv(s, f) && z < ZONES && s.free[z] == []
    requires s.off < base && (base - s.off) % PAGE == 0 && base !in s.pages
    ensures var t := Refill(s, z, base);
            t.free[z] != [] && forall y: nat {:trigger ZoneOk(t, y)} :: y < ZONES ==> ZoneOk(t, y)
  {
    var t := Refill(s, z, base);
    var size := ChunkSize(z);
    var list := Carve(base, size, PAGE / size);
    CarveMembers(base, size, PAGE / size);
    assert t.free[z] == list;
    SizePositive(z);
    forall y: nat | y < ZONES ensures ZoneOk(t, y) {
      assert ZoneOk(s, y);
      forall x: nat ensures Chunk(t, y, x) <==> x in t.free[y] || x in t.live[y] {
        RefilledChunk(s, z, base, y, x);
        assert Chunk(s, y, x) <==> x in s.free[y] || x in s.live[y];
      }
      forall x | x in t.free[y] ensures Chunk(t, y, x) && x !in t.live[y] {
        RefilledChunk(s, z, base, y, x);
        if y == z {
          CarveChunks(base, z, x);
          PageRange(s.off, base, x);
          assert Chunk(s, z, x) <==> x in s.free[z] || x in s.live[z];
        } else {
          assert x in s.free[y];
        }
      }
      RefilledCount(s, z, base, y);
    }
  }

  lemma SizePositive(z: nat)
    requires z < ZONES
    ensures PAGE / ChunkSize(z) > 0 && ChunkSize(z) > 0
  {
    assert z == 0 || z == 1 || z == 2 || z == 3 || z == 4 || z == 5 || z == 6 || z == 7;
  }

  lemma RefilledCount(s: Slab, z: nat, base: nat, y: nat)
    requires z < ZONES && y < ZONES && Refill.requires(s, z, base) && s.free[z] == []
    requires |s.free[y]| + |s.live[y]| == s.counts[y] * (PAGE / ChunkSize(y))
    ensures var t := Refill(s, z, base);
            |t.free[y]| + |t.live[y]| == t.counts[y] * (PAGE / ChunkSize(y))
  {
    if y == z {
      var n := PAGE / ChunkSize(z);
      CarveMembers(base, ChunkSize(z), n);
      assert (s.counts[z] + 1) * n == s.counts[z] * n + n;
    }
  }

  // ----- zalloc and zfree -----

  datatype Outcome = Outcome(slab: Slab, frames: F.Frames, ptr: nat)

  /** The zone with its free list refilled if it was empty and a frame could be had. */
  function Stock(s: Slab, f: F.Frames, z: nat): (Slab, F.Frames)
    requires Inv(s, f) && z < ZONES
  {
    if s.free[z] != [] then (s, f)
    else
      var (f', pa) := F.AllocFrame(f);
      (if pa == 0 then s else Refill(s, z, pa + s.off), f')
  }

  lemma StockInv(s: Slab, f: F.Frames, z: nat)
    requires Inv(s, f) && z < ZONES
    ensures var (t, f') := Stock(s, f, z);
            && Inv(t, f') && t.live == s.live && (t.free[z] == [] ==> t == s && f' == f)
  {
    if s.free[z] == [] {
      RefillInv(s, f, z);
      F.AllocFrameTakes(f);
    }
  }

  function Zalloc(s: Slab, f: F.Frames, size: nat): Outcome
    requires Inv(s, f)
  {
    var z := ZoneFor(size, 0);
    if size == 0 || z == ZONES then Outcome(s, f, 0)
    else
      StockInv(s, f, z);
      var (t, f') := Stock(s, f, z);
      if t.free[z] == [] then Outcome(t, f', 0) else Outcome(Pop(t, z), f', t.free[z][0])
  }

  function Zfree(s: Slab, ptr: nat, size: nat): Slab
    requires |s.free| == |s.live| == ZONES
  {
    var z := ZoneFor(size, 0);
    if ptr == 0 || size == 0 || z == ZONES then s else Push(s, z, ptr)
  }

  /** `zalloc` yields a chunk that was not live, in the smallest zone that fits, or nothing, and then
      nothing changed. */
  lemma ZallocInv(s: Slab, f: F.Frames, size: nat)
    requires Inv(s, f)
    ensures var r := Zalloc(s, f, size);
            && Inv(r.slab, r.frames)
            && (r.ptr == 0 ==> r.slab == s && r.frames == f)
            && (r.ptr != 0 ==>
                  var z := ZoneFor(size, 0);
                  && 0 < size && z < ZONES && Chunk(r.slab, z, r.ptr)
                  && r.slab.live[z] == s.live[z] + {r.ptr}
                  && (forall y: nat :: y < ZONES && y != z ==> r.slab.live[y] == s.live[y])
                  && (forall y: nat :: y < ZONES ==> r.ptr !in s.live[y]))
  {
    hide F.Inv, ZoneOk, PageOk, ChunkSize, Stock;
    var z := ZoneFor(size, 0);
    if size > 0 && z < ZONES {
      StockInv(s, f, z);
      var (t, f') := Stock(s, f, z);
      if t.free[z] != [] {
        PopInv(t, f', z);
        ChunkNonNull(t, f', z, t.free[z][0]);
      }
    }
  }

  lemma ChunkNonNull(s: Slab, f: F.Frames, z: nat, c: nat)
    requires Inv(s, f) && z < ZONES && Chunk(s, z, c)
    ensures 0 < c
  {
    assert PageOk(s, f.bits, PageOf(s.off, c));
  }

  /** Eight zones, from 16 bytes up, each twice as large as the one before; requests of more than 2048
      bytes have no zone, and smaller ones get less than twice what they need. */
  lemma ZoneSizes(size: nat)
    ensures ChunkSize(0) == 16 && ChunkSize(7) == 2048
    ensures forall z: nat :: z + 1 < ZONES ==> ChunkSize(z + 1) == 2 * ChunkSize(z)
    ensures ZoneFor(size, 0) == ZONES <==> size > 2048
    ensures 8 < size <= 2048 ==> size <= ChunkSize(ZoneFor(size, 0)) && (ChunkSize(ZoneFor(size, 0)) < 2 * size)
  {
    forall z: nat | z + 1 < ZONES ensures ChunkSize(z + 1) == 2 * ChunkSize(z) {
      assert z == 0 || z == 1 || z == 2 || z == 3 || z == 4 || z == 5 || z == 6;
    }
    var z := ZoneFor(size, 0);
    assert ChunkSize(7) == 2048;
    assert 0 < z < ZONES ==> ChunkSize(z - 1) < size && ChunkSize(z - 1 + 1) == 2 * ChunkSize(z - 1);
  }

  lemma CarveHead(base: nat, z: nat)
    requires z < ZONES
    ensures var list := Carve(base, ChunkSize(z), PAGE / ChunkSize(z));
            list != [] && list[0] == base + PAGE - ChunkSize(z)
  {
    assert z == 0 || z == 1 || z == 2 || z == 3 || z == 4 || z == 5 || z == 6 || z == 7;
  }

  /** What a refill makes of the frame `i`: a page of the zone `z`, whose highest chunk is handed out and
      whose other chunks are listed. */
  ghost predicate TookFrame(s: Slab, f: F.Frames, r: Outcome, z: nat, i: nat)
    requires z < ZONES && |r.slab.free| == ZONES
  {
    var base := s.off + i * PAGE;
    && F.IsLowestFree(f.bits, i) && r.frames.bits == f.bits[i := true]
    && r.slab.pages == s.pages[base := z] && r.ptr == base + PAGE - ChunkSize(z)
    && forall x {:trigger x in r.slab.free[z]} :: x in r.slab.free[z] <==> base <= x < r.ptr && (x - base) % ChunkSize(z) == 0
  }

  /** When `zalloc` succeeds, and what it hands out: it fails only without a zone for the request, or
      with an empty free list and no free frame; it takes the head of a free list that is not empty, and
      otherwise makes the lowest free frame a page of the zone. */
  lemma ZallocExactly(s: Slab, f: F.Frames, size: nat)
    requires Inv(s, f)
    ensures var r := Zalloc(s, f, size);
            var z := ZoneFor(size, 0);
            && (r.ptr == 0 <==> size == 0 || size > 2048 || (s.free[z] == [] && F.FreeCount(f) == 0))
            && (0 < size <= 2048 && s.free[z] != [] ==>
                  && r.ptr == s.free[z][0] && r.slab.free == s.free[z := s.free[z][1..]]
                  && r.frames == f && r.slab.pages == s.pages && r.slab.counts == s.counts)
            && (0 < size <= 2048 && s.free[z] == [] && F.FreeCount(f) > 0 ==>
                  |r.slab.free| == ZONES && exists i: nat :: TookFrame(s, f, r, z, i))
  {
    hide ZoneOk, PageOk, F.Inv, ChunkSize, Carve;
    ZoneSizes(size);
    var z := ZoneFor(size, 0);
    if 0 < size <= 2048 {
      StockInv(s, f, z);
      if s.free[z] != [] {
        HeadNonNull(s, f, z);
      } else {
        F.AllocFrameTakes(f);
        if F.FreeCount(f) > 0 { RefillTakes(s, f, size); }
      }
    }
  }

  lemma HeadNonNull(s: Slab, f: F.Frames, z: nat)
    requires Inv(s, f) && z < ZONES && s.free[z] != []
    ensures s.free[z][0] != 0
  {
    PopInv(s, f, z);
    ChunkNonNull(s, f, z, s.free[z][0]);
  }

  lemma RefillTakes(s: Slab, f: F.Frames, size: nat)
    requires Inv(s, f) && 0 < size <= 2048 && ZoneFor(size, 0) < ZONES && s.free[ZoneFor(size, 0)] == [] && F.FreeCount(f) > 0
    ensures var r := Zalloc(s, f, size);
            r.ptr != 0 && |r.slab.free| == ZONES && exists i: nat :: TookFrame(s, f, r, ZoneFor(size, 0), i)
  {
    hide ZoneOk, PageOk, F.Inv, ChunkSize, Carve;
    var z, r := ZoneFor(size, 0), Zalloc(s, f, size);
    F.AllocFrameTakes(f);
    var pa := F.AllocFrame(f).1;
    var i, base := pa / PAGE, pa + s.off;
    assert pa == i * PAGE;
    RefillInv(s, f, z);
    StockInv(s, f, z);
    CarveHead(base, z);
    SizePositive(z);
    var t := Refill(s, z, base);
    assert t.free[z] == Carve(base, ChunkSize(z), PAGE / ChunkSize(z)) + [];
    var list := t.free[z];
    assert r.ptr == list[0] == base + PAGE - ChunkSize(z) && r.slab.free[z] == list[1..];
    CarveMembers(base, ChunkSize(z), PAGE / ChunkSize(z));
    assert list == Carve(base, ChunkSize(z), PAGE / ChunkSize(z));
    forall x ensures x in list[1..] <==> base <= x < r.ptr && (x - base) % ChunkSize(z) == 0 {
      if x >= 0 { BelowHighest(base, z, x); }
      assert x in list <==> x == list[0] || x in list[1..];
    }
    assert TookFrame(s, f, r, z, i);
  }

  /** The chunks of a page other than the highest one. */
  lemma BelowHighest(base: nat, z: nat, x: nat)
    requires z < ZONES
    ensures base <= x < base + PAGE && (x - base) % ChunkSize(z) == 0 && x != base + PAGE - ChunkSize(z)
            <==> base <= x < base + PAGE - ChunkSize(z) && (x - base) % ChunkSize(z) == 0
  {
    if base <= x < base + PAGE && (x - base) % ChunkSize(z) == 0 { SizeDivides(z, x - base); }
  }

  /** A live chunk is on no free list, of its own zone or of another. */
  lemma NotFree(s: Slab, f: F.Frames, z: nat, c: nat, y: nat)
    requires Inv(s, f) && z < ZONES && y < ZONES && c in s.live[z]
    ensures Chunk(s, z, c) && c !in s.free[y]
  {
    assert ZoneOk(s, z) && ZoneOk(s, y);
    assert Chunk(s, z, c);
    assert c in s.free[y] ==> Chunk(s, y, c);
  }

  /** `zfree` takes exactly its chunk out of the live ones of its zone. */
  lemma ZfreeInv(s: Slab, f: F.Frames, ptr: nat, size: nat)
    requires Inv(s, f)
    requires ptr != 0 && size > 0 && ZoneFor(size, 0) < ZONES ==> ptr in s.live[ZoneFor(size, 0)]
    ensures var t := Zfree(s, ptr, size);
            && Inv(t, f) && t.pages == s.pages
            && (ptr == 0 || size == 0 || ZoneFor(size, 0) == ZONES ==> t == s)
            && (ptr != 0 && size > 0 ==> forall z: nat {:trigger t.live[z]} :: z < ZONES ==>
                  t.live[z] == if z == ZoneFor(size, 0) then s.live[z] - {ptr} else s.live[z])
  {
    var z := ZoneFor(size, 0);
    if ptr != 0 && size > 0 && z < ZONES { PushInv(s, f, z, ptr); }
  }

  /** The last chunk freed is the first one reused, and handing it out again restores the zones exactly. */
  lemma FreeThenAlloc(s: Slab, f: F.Frames, ptr: nat, size: nat)
    requires Inv(s, f) && ptr != 0 && size > 0 && ZoneFor(size, 0) < ZONES && ptr in s.live[ZoneFor(size, 0)]
    ensures Inv(Zfree(s, ptr, size), f)
    ensures Zalloc(Zfree(s, ptr, size), f, size) == Outcome(s, f, ptr)
  {
    hide ZoneOk, PageOk, F.Inv;
    var z := ZoneFor(size, 0);
    ZfreeInv(s, f, ptr, size);
    var t := Push(s, z, ptr);
    assert t.free[z][1..] == s.free[z];
    assert Pop(t, z).free == s.free;
    assert Pop(t, z).live == s.live by { assert s.live[z] - {ptr} + {ptr} == s.live[z]; }
  }
}
