/** Four-level page tables in physical memory. A table is a frame of 512 entries; an entry is a
    64-bit number whose bit 0 is PTE_PRESENT and whose bits 12 to 51 are the address. */
module PageTables {
  import opened Options
  import B = Bitmap

  const ENTRIES: nat := 512
  const PAGE: nat := 4096
  const VPN_RANGE: nat := 0x10_0000_0000
  const ADDR_RANGE: nat := 0x10_0000_0000_0000

  predicate Present(e: nat) {
    e % 2 == 1
  }

  /** Bit 7, the page-size bit: above the last level such an entry maps a large page and leads to no table. */
  predicate Huge(e: nat) {
    e / 128 % 2 == 1
  }

  /** Bit 1, PTE_WRITABLE. */
  predicate Writable(e: nat) {
    e / 2 % 2 == 1
  }

  /** Bit 2, PTE_USER. */
  predicate User(e: nat) {
    e / 4 % 2 == 1
  }

  /** `e & PTE_ADDR_MASK`. */
  function Addr(e: nat): nat {
    e % ADDR_RANGE / PAGE * PAGE
  }

  /** `table | PTE_PRESENT | PTE_WRITABLE | PTE_USER` for a frame address. */
  function Link(table: nat): nat {
    table + 7
  }

  /** `(phys & PTE_ADDR_MASK) | (flags & ~PTE_ADDR_MASK) | PTE_PRESENT`. */
  function Leaf(phys: nat, flags: nat): nat {
    var low := flags % PAGE;
    Addr(phys) + (if low % 2 == 1 then low else low + 1) + flags / ADDR_RANGE * ADDR_RANGE
  }

  /** `PTE_ADDR_MASK` keeps bits 12 to 51, and the index macros shift and keep nine bits. */
  lemma MaskBits(e: nat, k: nat)
    ensures B.Bit(Addr(e), k) <==> 12 <= k < 52 && B.Bit(e, k)
    ensures B.Bit(e % PAGE, k) <==> k < 12 && B.Bit(e, k)
    ensures B.Bit(Pml4Index(e), k) <==> k < 9 && B.Bit(e, 39 + k)
    ensures B.Bit(PdptIndex(e), k) <==> k < 9 && B.Bit(e, 30 + k)
    ensures B.Bit(PdIndex(e), k) <==> k < 9 && B.Bit(e, 21 + k)
    ensures B.Bit(PtIndex(e), k) <==> k < 9 && B.Bit(e, 12 + k)
    ensures Present(e) == B.Bit(e, 0) && Writable(e) == B.Bit(e, 1) && User(e) == B.Bit(e, 2) && Huge(e) == B.Bit(e, 7)
  {
    Powers();
    var low := e % ADDR_RANGE;
    B.CutBits(e, 52, e / ADDR_RANGE, low, k);
    B.CutBits(e, 12, e / PAGE, e % PAGE, k);
    FieldBits(e, 12, e / PAGE, e % PAGE, k);
    FieldBits(e, 21, e / 0x20_0000, e % 0x20_0000, k);
    FieldBits(e, 30, e / 0x4000_0000, e % 0x4000_0000, k);
    FieldBits(e, 39, e / 0x80_0000_0000, e % 0x80_0000_0000, k);
    B.ShiftLeftBits(low / PAGE, 12, k);
    if k >= 12 {
      B.CutBits(low, 12, low / PAGE, low % PAGE, k - 12);
    }
    FlagBits(e);
  }

  lemma FlagBits(e: nat)
    ensures Present(e) == B.Bit(e, 0) && Writable(e) == B.Bit(e, 1) && User(e) == B.Bit(e, 2) && Huge(e) == B.Bit(e, 7)
  {
    SmallPowers();
    B.CutBits(e, 7, e / 128, e % 128, 0);
    B.CutBits(e, 2, e / 4, e % 4, 0);
    B.CutBits(e, 1, e / 2, e % 2, 0);
  }

  /** The nine bits above the lowest `shift` ones. */
  lemma FieldBits(e: nat, shift: nat, high: nat, low: nat, k: nat)
    requires B.Cut(e, shift, high, low)
    ensures B.Bit(high % 512, k) <==> k < 9 && B.Bit(e, shift + k)
  {
    hide B.Bit;
    assert B.Pow2(9) == 512 by { Powers(); }
    B.CutBits(high, 9, high / 512, high % 512, k);
    B.CutBits(e, shift, high, low, k);
  }

  lemma Powers()
    ensures B.Pow2(9) == 512 && B.Pow2(12) == PAGE && B.Pow2(21) == 0x20_0000 && B.Pow2(30) == 0x4000_0000
    ensures B.Pow2(39) == 0x80_0000_0000 && B.Pow2(52) == ADDR_RANGE
  {
    B.Pow2Add8(1);
    B.Pow2Add8(4);
    B.Pow2Add8(5);
    B.Pow2Add8(13);
    B.Pow2Add8(6);
    B.Pow2Add8(14);
    B.Pow2Add8(22);
    B.Pow2Add8(7);
    B.Pow2Add8(15);
    B.Pow2Add8(23);
    B.Pow2Add8(31);
    B.Pow2Add8(12);
    B.Pow2Add8(20);
    B.Pow2Add8(28);
    B.Pow2Add8(36);
    B.Pow2Add8(44);
    SmallPowers();
  }

  lemma SmallPowers()
    ensures B.Pow2(1) == 2 && B.Pow2(4) == 16 && B.Pow2(5) == 32 && B.Pow2(6) == 64 && B.Pow2(7) == 128 && B.Pow2(2) == 4
  {
    assert B.Pow2(3) == 8;
  }

  lemma LinkFields(table: nat)
    requires table % PAGE == 0 && table < ADDR_RANGE
    ensures Present(Link(table)) && Addr(Link(table)) == table && !Huge(Link(table))
    ensures Link(table) % PAGE == 7 && Link(table) / ADDR_RANGE == 0 && Writable(Link(table)) && User(Link(table))
  {
    LinkOfFrame(table / PAGE);
    EntryParts(table / PAGE, 7, 0);
    AccessBits(table / PAGE, 7, 0);
  }

  lemma LinkOfFrame(q: nat)
    requires q < 0x100_0000_0000
    ensures Present(Link(4096 * q)) && Addr(Link(4096 * q)) == 4096 * q && !Huge(Link(4096 * q))
  {
    var e := 4096 * q + 7;
    assert e < 0x10_0000_0000_0000 && e % 0x10_0000_0000_0000 == e;
    assert e / 4096 == q && e == 2 * (2048 * q + 3) + 1;
    assert e / 128 == 32 * q;
  }

  lemma LeafFields(phys: nat, flags: nat)
    ensures var e := Leaf(phys, flags);
            && Present(e) && Addr(e) == Addr(phys) && e / ADDR_RANGE == flags / ADDR_RANGE
            && (e % PAGE == flags % PAGE || e % PAGE == flags % PAGE + 1)
            && (Writable(e) <==> Writable(flags)) && (User(e) <==> User(flags))
  {
    var low, high := flags % PAGE, flags / ADDR_RANGE;
    var q := Frame(phys);
    assert low < PAGE;
    EntryParts(q, if low % 2 == 1 then low else low + 1, high);
    AccessBits(q, if low % 2 == 1 then low else low + 1, high);
    EvenNext(low);
    LowFlags(flags);
  }

  /** The number of the frame at the address field. */
  function Frame(e: nat): (q: nat)
    ensures q < 0x100_0000_0000 && Addr(e) == PAGE * q
  {
    Addr(e) / PAGE
  }

  lemma OverRange(h: nat, r: nat)
    requires r < ADDR_RANGE
    ensures (r + h * ADDR_RANGE) / ADDR_RANGE == h && (r + h * ADDR_RANGE) % ADDR_RANGE == r
  {
  }

  lemma OverPage(h: nat, r: nat)
    requires r < PAGE
    ensures (PAGE * h + r) / PAGE == h && (PAGE * h + r) % PAGE == r && (PAGE * h + r) % 2 == r % 2
  {
    assert PAGE * h + r == 2 * (2048 * h) + r;
  }

  /** An entry put together from a frame number, the low bits and the high bits. */
  lemma EntryParts(q: nat, low: nat, high: nat)
    requires q < 0x100_0000_0000 && low < PAGE
    ensures var e := PAGE * q + low + high * ADDR_RANGE;
            && e / ADDR_RANGE == high && e % PAGE == low && Addr(e) == PAGE * q && e % 2 == low % 2
  {
    OverRange(high, PAGE * q + low);
    OverPage(q, low);
    OverPage(q + high * 0x100_0000_0000, low);
  }

  lemma LowBits(h: nat, low: nat)
    ensures (Writable(8 * h + low) <==> Writable(low)) && (User(8 * h + low) <==> User(low))
  {
    assert (8 * h + low) / 2 == 2 * (2 * h) + low / 2;
    assert (8 * h + low) / 4 == 2 * h + low / 4;
    EvenPlus(2 * h, low / 2);
    EvenPlus(h, low / 4);
  }

  lemma EvenNext(low: nat)
    ensures low % 2 == 0 ==> (Writable(low + 1) <==> Writable(low)) && (User(low + 1) <==> User(low))
  {
    if low % 2 == 0 {
      assert (low + 1) / 2 == low / 2 && (low + 1) / 4 == low / 4;
    }
  }

  lemma EvenPlus(h: nat, x: nat)
    ensures (2 * h + x) % 2 == x % 2
  {
  }

  /** The access bits are those of the low bits. */
  lemma AccessBits(q: nat, low: nat, high: nat)
    requires low < PAGE
    ensures var e := PAGE * q + low + high * ADDR_RANGE;
            (Writable(e) <==> Writable(low)) && (User(e) <==> User(low))
  {
    var h := 512 * q + high * 0x2_0000_0000_0000;
    assert PAGE * q + low + high * ADDR_RANGE == 8 * h + low;
    LowBits(h, low);
  }

  lemma LowFlags(flags: nat)
    ensures (Writable(flags % PAGE) <==> Writable(flags)) && (User(flags % PAGE) <==> User(flags))
  {
    var k, low := flags / PAGE, flags % PAGE;
    assert flags == 8 * (512 * k) + low;
    LowBits(512 * k, low);
  }

  // ----- page numbers -----

  /** The 36-bit page number of a virtual address; higher bits are ignored. */
  function Vpn(virt: nat): nat {
    virt / PAGE % VPN_RANGE
  }

  /** The page number without its `k` lowest 9-bit digits. */
  function Up(vpn: nat, k: nat): nat {
    if k == 0 then vpn else Up(vpn, k - 1) / ENTRIES
  }

  /** The index into the table of a level: 4 for the PML4, 1 for the page table. */
  function Index(vpn: nat, level: nat): (i: nat)
    requires 1 <= level
    ensures i < ENTRIES
  {
    Up(vpn, level - 1) % ENTRIES
  }

  function Pml4Index(virt: nat): nat { virt / 0x80_0000_0000 % ENTRIES }
  function PdptIndex(virt: nat): nat { virt / 0x4000_0000 % ENTRIES }
  function PdIndex(virt: nat): nat { virt / 0x20_0000 % ENTRIES }
  function PtIndex(virt: nat): nat { virt / PAGE % ENTRIES }

  /** Dropping one 9-bit digit at a time, from the full number and from its 36-bit remainder. */
  lemma DropDigit(n: nat, high: nat, low: nat, w: nat)
    requires n == high * (512 * w) + low
    ensures n / 512 == high * w + low / 512
    ensures n % 512 == low % 512
  {
    assert high * (512 * w) == 512 * (high * w);
  }

  lemma Digits(n: nat)
    ensures var v := n % VPN_RANGE;
            && v % 512 == n % 512 && v / 512 % 512 == n / 512 % 512
            && v / 512 / 512 % 512 == n / 512 / 512 % 512
            && v / 512 / 512 / 512 % 512 == n / 512 / 512 / 512 % 512
            && v / 512 / 512 / 512 / 512 == 0
  {
    var v, h := n % VPN_RANGE, n / VPN_RANGE;
    DropDigit(n, h, v, 0x800_0000);
    DropDigit(n / 512, h, v / 512, 0x4_0000);
    DropDigit(n / 512 / 512, h, v / 512 / 512, 0x200);
    DropDigit(n / 512 / 512 / 512, h, v / 512 / 512 / 512, 1);
  }

  /** The index macros cut the page number into its four digits. */
  lemma IndexMacros(virt: nat)
    ensures Pml4Index(virt) == Index(Vpn(virt), 4) && PdptIndex(virt) == Index(Vpn(virt), 3)
    ensures PdIndex(virt) == Index(Vpn(virt), 2) && PtIndex(virt) == Index(Vpn(virt), 1)
    ensures Up(Vpn(virt), 4) == 0 && Vpn(virt) < VPN_RANGE
  {
    var n, v := virt / PAGE, Vpn(virt);
    Digits(n);
    UpDigits(v);
    assert virt / 0x20_0000 == n / 512;
    assert virt / 0x4000_0000 == n / 512 / 512;
    assert virt / 0x80_0000_0000 == n / 512 / 512 / 512;
  }

  lemma UpDigits(v: nat)
    ensures Up(v, 0) == v && Up(v, 1) == v / 512 && Up(v, 2) == v / 512 / 512
    ensures Up(v, 3) == v / 512 / 512 / 512 && Up(v, 4) == v / 512 / 512 / 512 / 512
  {
    assert Up(v, 2) == Up(v, 1) / 512;
    assert Up(v, 4) == Up(v, 3) / 512;
  }

  // ----- the table tree -----

  /** Where a table stands in the tree: its level, and the page-number digits that lead to it. */
  datatype Node = Node(level: nat, prefix: nat)

  ghost predicate TableOk(mem: map<nat, seq<nat>>, own: map<nat, Node>, t: nat)
    requires t in own
  {
    t in mem && |mem[t]| == ENTRIES && t % PAGE == 0 && 0 < t < ADDR_RANGE && 1 <= own[t].level <= 4
  }

  /** A present entry above the last level leads to the table for the next digit, or maps a large page. */
  ghost predicate EntryOk(mem: map<nat, seq<nat>>, own: map<nat, Node>, t: nat, i: nat)
    requires t in own && t in mem && i < |mem[t]|
  {
    own[t].level > 1 && Present(mem[t][i]) && !Huge(mem[t][i]) ==>
      Addr(mem[t][i]) in own && own[Addr(mem[t][i])] == Node(own[t].level - 1, own[t].prefix * ENTRIES + i)
  }

  /** The tables in `own` form a tree; some of its branches may end in large pages. */
  ghost predicate Tree(mem: map<nat, seq<nat>>, own: map<nat, Node>) {
    && (forall t {:trigger TableOk(mem, own, t)} :: t in own ==> TableOk(mem, own, t))
    && (forall t, i: nat {:trigger EntryOk(mem, own, t, i)} :: t in own && t in mem && i < |mem[t]| ==> EntryOk(mem, own, t, i))
  }

  /** The walk of `vmm_virt_to_phys` from the table `t`: the leaf entry of a page, if mapped. */
  function Walk(mem: map<nat, seq<nat>>, t: nat, level: nat, vpn: nat): Option<nat>
    decreases level
  {
    if level == 0 || t !in mem || |mem[t]| != ENTRIES then None else
    var e := mem[t][Index(vpn, level)];
    if !Present(e) then None
    else if level == 1 then Some(e)
    else Walk(mem, Addr(e), level - 1, vpn)
  }

  /** No entry on the path from `t` to `vpn` maps a large page. */
  predicate Plain(mem: map<nat, seq<nat>>, t: nat, level: nat, vpn: nat)
    decreases level
  {
    level <= 1 || t !in mem || |mem[t]| != ENTRIES ||
    (var e := mem[t][Index(vpn, level)];
     !Present(e) || (!Huge(e) && Plain(mem, Addr(e), level - 1, vpn)))
  }

  /** `t` is the table through which the walk to `vpn` passes on its level. */
  ghost predicate On(own: map<nat, Node>, t: nat, level: nat, vpn: nat) {
    t in own && own[t] == Node(level, Up(vpn, level))
  }

  function SetEntry(mem: map<nat, seq<nat>>, t: nat, i: nat, e: nat): map<nat, seq<nat>>
    requires t in mem && i < |mem[t]|
  {
    var table: seq<nat> := mem[t][i := e];
    mem[t := table]
  }

  /** Changing one entry of one table leaves the walks that do not use it alone. */
  lemma {:induction false} WalkFrame(mem: map<nat, seq<nat>>, own: map<nat, Node>, u: nat, level: nat, vpn: nat,
                                     t: nat, i: nat, e: nat)
    requires Tree(mem, own) && On(own, u, level, vpn) && 1 <= level
    requires t in own && t in mem && i < |mem[t]| && own[t].level >= 1
    requires Up(vpn, own[t].level - 1) != own[t].prefix * ENTRIES + i && Plain(mem, u, level, vpn)
    ensures Walk(SetEntry(mem, t, i, e), u, level, vpn) == Walk(mem, u, level, vpn)
    ensures Plain(SetEntry(mem, t, i, e), u, level, vpn)
    decreases level
  {
    assert TableOk(mem, own, u);
    var k := Index(vpn, level);
    assert EntryOk(mem, own, u, k);
    if Present(mem[u][k]) && level > 1 {
      WalkFrame(mem, own, Addr(mem[u][k]), level - 1, vpn, t, i, e);
    }
  }

  function ZeroTable(): seq<nat> {
    seq(ENTRIES, i => 0)
  }

  /** The memory after the frame is zeroed and entered at `i` of `t`. */
  function Attach(mem: map<nat, seq<nat>>, t: nat, i: nat, frame: nat): map<nat, seq<nat>>
    requires t in mem && |mem[t]| == ENTRIES && i < ENTRIES
  {
    SetEntry(mem[frame := ZeroTable()], t, i, Link(frame))
  }

  ghost predicate CanAttach(mem: map<nat, seq<nat>>, own: map<nat, Node>, t: nat, i: nat, frame: nat) {
    && Tree(mem, own) && t in own && t in mem && i < |mem[t]| && own[t].level > 1 && !Present(mem[t][i])
    && |mem[t]| == ENTRIES && frame !in own && frame % PAGE == 0 && 0 < frame < ADDR_RANGE
  }

  /** The tree with the new table; the null frame is no table. */
  function Owned(own: map<nat, Node>, t: nat, i: nat, frame: nat): map<nat, Node> {
    if frame != 0 && t in own && own[t].level > 1 then own[frame := Node(own[t].level - 1, own[t].prefix * ENTRIES + i)]
    else own
  }

  lemma AttachTree(mem: map<nat, seq<nat>>, own: map<nat, Node>, t: nat, i: nat, frame: nat)
    requires CanAttach(mem, own, t, i, frame)
    ensures Tree(Attach(mem, t, i, frame), Owned(own, t, i, frame))
  {
    var m, o := Attach(mem, t, i, frame), Owned(own, t, i, frame);
    LinkFields(frame);
    forall u | u in o ensures TableOk(m, o, u) {
      assert TableOk(mem, own, t);
      assert u in own ==> TableOk(mem, own, u);
    }
    forall u, k: nat | u in o && u in m && k < |m[u]| ensures EntryOk(m, o, u, k) {
      if u in own {
        assert TableOk(mem, own, u) && EntryOk(mem, own, u, k);
      }
    }
  }

  /** Attaching a fresh table changes no translation. */
  lemma {:induction false} AttachWalk(mem: map<nat, seq<nat>>, own: map<nat, Node>, u: nat, level: nat, vpn: nat,
                                      t: nat, i: nat, frame: nat)
    requires CanAttach(mem, own, t, i, frame) && On(own, u, level, vpn) && 1 <= level && Plain(mem, u, level, vpn)
    ensures Walk(Attach(mem, t, i, frame), u, level, vpn) == Walk(mem, u, level, vpn)
    ensures Plain(Attach(mem, t, i, frame), u, level, vpn)
    decreases level
  {
    var m := Attach(mem, t, i, frame);
    assert TableOk(mem, own, u) && TableOk(mem, own, t);
    LinkFields(frame);
    var k := Index(vpn, level);
    assert EntryOk(mem, own, u, k);
    if u == t && k == i {
      assert m[frame] == ZeroTable();
    } else if Present(mem[u][k]) && level > 1 {
      AttachWalk(mem, own, Addr(mem[u][k]), level - 1, vpn, t, i, frame);
    }
  }

  lemma LeafTree(mem: map<nat, seq<nat>>, own: map<nat, Node>, t: nat, i: nat, e: nat)
    requires Tree(mem, own) && t in own && t in mem && i < |mem[t]| && own[t].level == 1
    ensures Tree(SetEntry(mem, t, i, e), own)
  {
    var m := SetEntry(mem, t, i, e);
    forall u | u in own ensures TableOk(m, own, u) { assert TableOk(mem, own, u); }
    forall u, k: nat | u in own && u in m && k < |m[u]| ensures EntryOk(m, own, u, k) {
      assert EntryOk(mem, own, u, k);
    }
  }
}
