/** The physical memory manager as a pure state: one boolean per frame, the counter
    of used frames and the scan hint. `LowestFree` is the plain linear scan that the
    word scan of the implementation has to agree with. */
module Frames {

  const PAGE_SIZE: nat := 4096

  datatype Frames = Frames(bits: seq<bool>, used: nat, hint: nat)

  function CountSet(bits: seq<bool>): (n: nat)
    ensures n <= |bits|
  {
    if bits == [] then 0 else (if bits[0] then 1 else 0) + CountSet(bits[1..])
  }

  lemma {:induction false} CountUpdate(bits: seq<bool>, i: nat, v: bool)
    requires i < |bits|
    ensures CountSet(bits[i := v]) == CountSet(bits) - (if bits[i] then 1 else 0) + (if v then 1 else 0)
  {
    if i == 0 {
      assert bits[i := v][1..] == bits[1..];
    } else {
      CountUpdate(bits[1..], i - 1, v);
      assert bits[i := v][1..] == bits[1..][i - 1 := v];
    }
  }

  lemma {:induction false} CountFull(bits: seq<bool>)
    ensures CountSet(bits) == |bits| <==> forall i :: 0 <= i < |bits| ==> bits[i]
  {
    if bits != [] {
      CountFull(bits[1..]);
      assert (forall i :: 0 <= i < |bits| ==> bits[i])
          <==> bits[0] && forall i :: 0 <= i < |bits[1..]| ==> bits[1..][i] by {
        if bits[0] && forall i :: 0 <= i < |bits[1..]| ==> bits[1..][i] {
          forall i | 0 <= i < |bits| ensures bits[i] {
            if i > 0 { assert bits[i] == bits[1..][i - 1]; }
          }
        }
      }
    }
  }

  function FreeCount(f: Frames): int {
    |f.bits| - CountSet(f.bits)
  }

  /** The linear scan from frame `i`; `|bits|` when every frame from `i` on is used. */
  function LowestFree(bits: seq<bool>, i: nat): (r: nat)
    requires i <= |bits|
    ensures i <= r <= |bits|
    ensures forall j :: i <= j < r ==> bits[j]
    ensures r < |bits| ==> !bits[r]
    decreases |bits| - i
  {
    if i == |bits| || !bits[i] then i else LowestFree(bits, i + 1)
  }

  /** `i` is the first free frame. */
  ghost predicate IsLowestFree(bits: seq<bool>, i: nat) {
    i < |bits| && !bits[i] && forall j :: 0 <= j < i ==> bits[j]
  }

  /** `used` counts the set bits and every frame below `hint` is used. */
  ghost predicate Inv(f: Frames) {
    && f.used == CountSet(f.bits)
    && f.hint <= |f.bits|
    && forall i :: 0 <= i < f.hint ==> f.bits[i]
  }

  function Fresh(frames: nat): Frames {
    Frames(seq(frames, i => false), 0, 0)
  }

  lemma {:induction false} FreshInv(frames: nat)
    ensures Inv(Fresh(frames))
  {
    if frames > 0 {
      FreshInv(frames - 1);
      assert Fresh(frames).bits[1..] == Fresh(frames - 1).bits;
    }
  }

  function MarkUsed(f: Frames, paddr: nat): (r: Frames)
    requires Inv(f)
    ensures Inv(r) && |r.bits| == |f.bits|
  {
    var i := paddr / PAGE_SIZE;
    if i < |f.bits| && !f.bits[i] then
      CountUpdate(f.bits, i, true);
      f.(bits := f.bits[i := true], used := f.used + 1)
    else f
  }

  function MarkFree(f: Frames, paddr: nat): (r: Frames)
    requires Inv(f)
    ensures Inv(r) && |r.bits| == |f.bits|
  {
    var i := paddr / PAGE_SIZE;
    if i < |f.bits| && f.bits[i] then
      CountUpdate(f.bits, i, false);
      Frames(f.bits[i := false], f.used - 1, if i < f.hint then i else f.hint)
    else f
  }

  /** Takes the lowest free frame; the address 0 also stands for "no frame". */
  function AllocFrame(f: Frames): (r: (Frames, nat))
    requires Inv(f)
    ensures Inv(r.0) && |r.0.bits| == |f.bits|
  {
    var i := LowestFree(f.bits, 0);
    if i == |f.bits| then (f, 0)
    else
      CountUpdate(f.bits, i, true);
      (Frames(f.bits[i := true], f.used + 1, i + 1), i * PAGE_SIZE)
  }

  predicate FreeRun(bits: seq<bool>, start: nat, n: nat) {
    start + n <= |bits| && forall j :: start <= j < start + n ==> !bits[j]
  }

  predicate UsedRun(bits: seq<bool>, start: nat, n: nat) {
    start + n <= |bits| && forall j :: start <= j < start + n ==> bits[j]
  }

  lemma RunsApart(bits: seq<bool>, p: nat, n: nat, q: nat, m: nat)
    requires UsedRun(bits, p, n) && FreeRun(bits, q, m)
    ensures n == 0 || m == 0 || p + n <= q || q + m <= p
  {
    var i := if p < q then q else p;
    assert p <= i < p + n ==> bits[i];
    assert q <= i < q + m ==> !bits[i];
  }

  /** The lowest start of `n` consecutive free frames at or above `i`; `|bits|` when there is none. */
  function LowestRun(bits: seq<bool>, n: nat, i: nat): (r: nat)
    requires i <= |bits| && 0 < n
    ensures i <= r <= |bits|
    ensures r < |bits| ==> FreeRun(bits, r, n)
    ensures forall s {:trigger FreeRun(bits, s, n)} :: i <= s < r ==> !FreeRun(bits, s, n)
    decreases |bits| - i
  {
    if i == |bits| || FreeRun(bits, i, n) then i else LowestRun(bits, n, i + 1)
  }

  function SetRange(bits: seq<bool>, start: nat, n: nat): seq<bool>
    requires start + n <= |bits|
  {
    seq(|bits|, i requires 0 <= i < |bits| => bits[i] || start <= i < start + n)
  }

  lemma {:induction false} CountSetRange(bits: seq<bool>, start: nat, n: nat)
    requires FreeRun(bits, start, n)
    ensures CountSet(SetRange(bits, start, n)) == CountSet(bits) + n
  {
    if n == 0 {
      assert SetRange(bits, start, n) == bits;
    } else {
      CountSetRange(bits, start, n - 1);
      var almost := SetRange(bits, start, n - 1);
      assert SetRange(bits, start, n) == almost[start + n - 1 := true];
      CountUpdate(almost, start + n - 1, true);
    }
  }

  function AllocContiguous(f: Frames, n: nat): (r: (Frames, nat))
    requires Inv(f)
    ensures Inv(r.0) && |r.0.bits| == |f.bits|
  {
    if n == 0 then (f, 0) else
    var s := LowestRun(f.bits, n, 0);
    if s == |f.bits| then (f, 0)
    else
      CountSetRange(f.bits, s, n);
      (f.(bits := SetRange(f.bits, s, n), used := f.used + n), s * PAGE_SIZE)
  }

  /** Frame 0 is not free, so that the address 0 only stands for "no frame". */
  ghost predicate ZeroTaken(f: Frames) {
    |f.bits| > 0 ==> f.bits[0]
  }

  /** A run of `n` frames at the address `pa` was free in `f`; in `f'` it is used and nothing else changed. */
  ghost predicate Granted(f: Frames, f': Frames, pa: nat, n: nat) {
    && 0 < pa && pa % PAGE_SIZE == 0 && Inv(f') && ZeroTaken(f')
    && FreeRun(f.bits, pa / PAGE_SIZE, n) && f'.bits == SetRange(f.bits, pa / PAGE_SIZE, n)
  }

  /** The address 0 is returned exactly when no run of `n` free frames exists, and then nothing
      changes; any other address names the lowest run of free frames, which alone becomes used. */
  lemma AllocContiguousTakes(f: Frames, n: nat)
    requires Inv(f) && ZeroTaken(f) && 0 < n
    ensures var (f', pa) := AllocContiguous(f, n);
            && (pa == 0 <==> forall s {:trigger FreeRun(f.bits, s, n)} :: 0 <= s < |f.bits| ==> !FreeRun(f.bits, s, n))
            && (pa == 0 ==> f' == f)
            && (pa != 0 ==> Granted(f, f', pa, n)
                            && forall s {:trigger FreeRun(f.bits, s, n)} :: 0 <= s < pa / PAGE_SIZE ==> !FreeRun(f.bits, s, n))
  {
    var s := LowestRun(f.bits, n, 0);
    assert s < |f.bits| ==> s != 0;
  }

  /** The address 0 is returned exactly when every frame is used, and then nothing changes;
      any other address names the lowest free frame, which alone becomes used. */
  lemma AllocFrameTakes(f: Frames)
    requires Inv(f) && ZeroTaken(f)
    ensures var (f', pa) := AllocFrame(f);
            && pa % PAGE_SIZE == 0 && ZeroTaken(f')
            && (pa == 0 <==> FreeCount(f) == 0)
            && (pa == 0 ==> f' == f)
            && (pa != 0 ==> var i := pa / PAGE_SIZE;
                            && i < |f.bits| && !f.bits[i] && f'.bits == f.bits[i := true]
                            && (forall j :: 0 <= j < i ==> f.bits[j])
                            && FreeCount(f') == FreeCount(f) - 1)
  {
    CountFull(f.bits);
    var i := LowestFree(f.bits, 0);
    if i < |f.bits| { CountUpdate(f.bits, i, true); }
  }

  /** Marking changes exactly the frame of the address, if it exists, whatever it was before. */
  lemma MarkExactly(f: Frames, paddr: nat)
    requires Inv(f)
    ensures var i := paddr / PAGE_SIZE;
            && MarkUsed(f, paddr).bits == (if i < |f.bits| then f.bits[i := true] else f.bits)
            && MarkFree(f, paddr).bits == (if i < |f.bits| then f.bits[i := false] else f.bits)
            && (i < |f.bits| && !f.bits[i] ==>
                  MarkFree(MarkUsed(f, paddr), paddr).bits == f.bits && MarkFree(MarkUsed(f, paddr), paddr).used == f.used)
  {
    var i := paddr / PAGE_SIZE;
    if i < |f.bits| { assert f.bits[i := true][i := false] == f.bits[i := false]; }
  }

  /** Giving back an allocated frame undoes the allocation: the same frames are free, the counter is
      what it was, and the next allocation yields the same frame. */
  lemma AllocThenFree(f: Frames)
    requires Inv(f) && ZeroTaken(f) && AllocFrame(f).1 != 0
    ensures var (f', pa) := AllocFrame(f);
            var g := MarkFree(f', pa);
            g.bits == f.bits && g.used == f.used && AllocFrame(g).1 == pa
  {
    AllocFrameTakes(f);
    var (f', pa) := AllocFrame(f);
    assert f'.bits[pa / PAGE_SIZE := false] == f.bits;
  }

  // ----- every operation keeps the invariant -----

  datatype Op = OpMarkUsed(paddr: nat) | OpMarkFree(paddr: nat) | OpAlloc | OpAllocRun(n: nat)

  function Step(f: Frames, op: Op): (r: Frames)
    requires Inv(f)
    ensures Inv(r) && |r.bits| == |f.bits|
  {
    match op
    case OpMarkUsed(paddr) => MarkUsed(f, paddr)
    case OpMarkFree(paddr) => MarkFree(f, paddr)
    case OpAlloc => AllocFrame(f).0
    case OpAllocRun(n) => AllocContiguous(f, n).0
  }

  /** Every state reached by any sequence of operations satisfies `Inv`. */
  function Run(f: Frames, ops: seq<Op>): (r: Frames)
    requires Inv(f)
    ensures Inv(r) && |r.bits| == |f.bits|
    decreases |ops|
  {
    if ops == [] then f else Run(Step(f, ops[0]), ops[1..])
  }
}
