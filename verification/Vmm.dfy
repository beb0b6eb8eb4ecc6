/** The virtual memory manager: page tables edited in place in physical memory. */
module VirtualMemory {
  import F = Frames
  import opened Memory
  import opened Options
  import opened PhysicalMemory
  import T = PageTables
  import A = AddressSpace

  /** The words at `t` are the entries of `table`. */
  ghost predicate TableAt(m: Cells, t: nat, table: seq<nat>) {
    forall i: nat {:trigger table[i]} :: i < |table| ==> Load(m, t + 8 * i) == table[i]
  }

  predicate InTable(t: nat, x: nat) {
    t <= x < t + T.PAGE
  }

  /** Only bytes of the tables differ. */
  ghost predicate OnlyTables(m: Cells, n: Cells, tables: set<nat>) {
    forall x: nat {:trigger SameByte(m, n, x)} :: SameByte(m, n, x) || exists t :: t in tables && InTable(t, x)
  }

  lemma OnlyTablesTrans(m: Cells, n: Cells, p: Cells, s: set<nat>, t: set<nat>)
    requires OnlyTables(m, n, s) && OnlyTables(n, p, t) && s <= t
    ensures OnlyTables(m, p, t)
  {
    forall x: nat | !SameByte(m, p, x) ensures exists u :: u in t && InTable(u, x) {
      assert SameByte(m, n, x) || exists u :: u in s && InTable(u, x);
      assert SameByte(n, p, x) || exists u :: u in t && InTable(u, x);
    }
  }

  lemma OnlyOneTable(m: Cells, n: Cells, t: nat, tables: set<nat>)
    requires Changes(m, n, t, T.PAGE) && t in tables
    ensures OnlyTables(m, n, tables)
  {
    forall x: nat | !SameByte(m, n, x) ensures exists u :: u in tables && InTable(u, x) {
      assert InTable(t, x);
    }
  }

  /** A store to one entry of the table at `t`. */
  lemma EntryStored(m: Cells, n: Cells, t: nat, table: seq<nat>, i: nat, v: nat)
    requires TableAt(m, t, table) && i < |table| && HasWord(n, t + 8 * i, v) && Changes(m, n, t + 8 * i, 8)
    ensures TableAt(n, t, table[i := v])
  {
    hide HasWord;
    var now := table[i := v];
    LoadWord(n, t + 8 * i, v);
    forall k: nat | k < |now| ensures Load(n, t + 8 * k) == now[k] {
      if k != i { LoadKept(m, n, t + 8 * k); assert table[k] == now[k]; }
    }
  }

  lemma TableKept(m: Cells, n: Cells, t: nat, table: seq<nat>)
    requires TableAt(m, t, table) && |table| == T.ENTRIES && SameRange(m, n, t, T.PAGE)
    ensures TableAt(n, t, table)
  {
    forall i: nat | i < |table| ensures Load(n, t + 8 * i) == table[i] {
      LoadKept(m, n, t + 8 * i);
    }
  }

  /** Every table of `tables` is in memory. */
  ghost predicate Stored(m: Cells, mem: map<nat, seq<nat>>, tables: set<nat>) {
    forall t {:trigger mem[t]} {:trigger t in tables} :: t in tables ==> t % T.PAGE == 0 && A.IsTable(mem, t) && TableAt(m, t, mem[t])
  }

  lemma OtherTables(m: Cells, n: Cells, mem: map<nat, seq<nat>>, tables: set<nat>, t: nat, table: seq<nat>)
    requires Stored(m, mem, tables) && t % T.PAGE == 0 && |table| == T.ENTRIES && TableAt(n, t, table)
    requires Changes(m, n, t, T.PAGE)
    ensures Stored(n, mem[t := table], tables + {t})
  {
    hide TableAt;
    var mem' := mem[t := table];
    forall u | u in tables + {t} ensures u % T.PAGE == 0 && A.IsTable(mem', u) && TableAt(n, u, mem'[u]) {
      if u != t {
        assert u in tables;
        PagesDistinct(u, t);
        TableKept(m, n, u, mem[u]);
      }
    }
  }

  lemma PagesDistinct(a: nat, b: nat)
    requires a % T.PAGE == 0 && b % T.PAGE == 0 && a != b
    ensures a + T.PAGE <= b || b + T.PAGE <= a
  {
  }

  class Vmm {
    const ram: Ram
    const pmm: Pmm
    /** The tables as sequences, those of the tree, and their places in it. */
    ghost var mem: map<nat, seq<nat>>
    ghost var own: map<nat, T.Node>

    ghost function Space(): A.Space
      requires pmm.Sized()
      reads this, pmm, pmm.bitmap
    {
      A.Space(mem, own, pmm.Abs())
    }

    /** The memory holds the tables of the tree, and is read as a table at the address 0 too. */
    ghost predicate Tied()
      reads this, ram
    {
      Stored(ram.cells, mem, own.Keys + {0})
    }

    ghost predicate Valid()
      reads this, ram, pmm, pmm.bitmap
    {
      pmm.Valid() && A.SpaceOk(Space()) && Tied()
    }

    /** Takes over the tables that already exist in memory. */
    constructor (pmm: Pmm, ram: Ram, ghost tables: map<nat, seq<nat>>, ghost tree: map<nat, T.Node>)
      requires pmm.Valid() && A.SpaceOk(A.Space(tables, tree, pmm.Abs())) && Stored(ram.cells, tables, tree.Keys + {0})
      ensures Valid() && this.pmm == pmm && this.ram == ram && Space() == A.Space(tables, tree, pmm.Abs())
    {
      this.pmm := pmm;
      this.ram := ram;
      mem, own := tables, tree;
    }

    /** The entry `i` of the table at `t`. */
    function Entry(t: nat, i: nat): (e: nat)
      requires Tied() && (t in own || t == 0) && i < T.ENTRIES
      reads this, ram
      ensures A.IsTable(mem, t) && e == mem[t][i]
    {
      assert t in own.Keys + {0};
      Load(ram.cells, t + 8 * i)
    }

    method SetEntry(t: nat, i: nat, e: nat)
      requires Tied() && (t in own || t == 0) && i < T.ENTRIES
      modifies this`mem, ram
      ensures Tied() && A.IsTable(old(mem), t) && mem == T.SetEntry(old(mem), t, i, e)
      ensures Changes(old(ram.cells), ram.cells, t, T.PAGE)
    {
      hide HasWord, StoreWord;
      assert t in own.Keys + {0};
      ghost var m, table := ram.cells, mem[t];
      ram.Store(t + 8 * i, e);
      EntryStored(m, ram.cells, t, table, i, e);
      OtherTables(m, ram.cells, mem, own.Keys + {0}, t, table[i := e]);
      mem := T.SetEntry(mem, t, i, e);
      assert own.Keys + {0} + {t} == own.Keys + {0};
    }

    /** The loop that zeroes a new table. */
    method ZeroFrame(t: nat)
      modifies ram
      ensures TableAt(ram.cells, t, T.ZeroTable()) && Changes(old(ram.cells), ram.cells, t, T.PAGE)
    {
      hide HasWord, StoreWord;
      ghost var m := ram.cells;
      for i := 0 to T.ENTRIES
        invariant forall k: nat {:trigger T.ZeroTable()[k]} :: k < i ==> Load(ram.cells, t + 8 * k) == T.ZeroTable()[k]
        invariant Changes(m, ram.cells, t, T.PAGE)
      {
        ghost var before := ram.cells;
        ram.Store(t + 8 * i, 0);
        LoadWord(ram.cells, t + 8 * i, 0);
        forall k: nat | k < i + 1 ensures Load(ram.cells, t + 8 * k) == T.ZeroTable()[k] {
          if k < i { LoadKept(before, ram.cells, t + 8 * k); }
        }
        forall x: nat ensures SameByte(m, ram.cells, x) || t <= x < t + T.PAGE {
          assert SameByte(m, before, x) || t <= x < t + T.PAGE;
          assert SameByte(before, ram.cells, x) || t + 8 * i <= x < t + 8 * i + 8;
        }
      }
    }

    /** A new zeroed table at `frame`, entered at `i` of `t`. */
    method EnterTable(t: nat, i: nat, frame: nat)
      requires Tied() && (t in own || t == 0) && i < T.ENTRIES && frame % T.PAGE == 0
      requires frame != 0 ==> t in own && own[t].level > 1
      modifies this`mem, this`own, ram
      ensures Tied() && A.IsTable(old(mem), t) && mem == T.Attach(old(mem), t, i, frame) && own == T.Owned(old(own), t, i, frame)
      ensures OnlyTables(old(ram.cells), ram.cells, old(own.Keys) + {t, frame})
    {
      hide TableAt, Changes, OnlyTables, HasWord;
      assert t in own.Keys + {0};
      ghost var m, tables := ram.cells, own.Keys + {t, frame};
      ZeroFrame(frame);
      OnlyOneTable(m, ram.cells, frame, tables);
      OtherTables(m, ram.cells, mem, own.Keys + {0}, frame, T.ZeroTable());
      own := T.Owned(own, t, i, frame);
      assert own.Keys + {0} == old(own.Keys) + {0} + {frame};
      mem := mem[frame := T.ZeroTable()];
      ghost var n := ram.cells;
      SetEntry(t, i, T.Link(frame));
      OnlyOneTable(n, ram.cells, t, tables);
      OnlyTablesTrans(m, n, ram.cells, tables, tables);
    }

    /** One level of `vmm_map_page`. */
    method NextTable(t: nat, i: nat) returns (next: nat)
      requires pmm.Valid() && Tied() && i < T.ENTRIES
      requires (A.SpaceOk(Space()) && t in own && own[t].level > 1) || (A.NullTable(Space()) && t == 0)
      modifies this`mem, this`own, ram, pmm`usedFrames, pmm`allocHint, pmm.bitmap
      ensures pmm.Valid() && Tied() && A.IsTable(old(mem), t)
      ensures (Space(), next) == A.NextTable(old(Space()), t, i)
      ensures OnlyTables(old(ram.cells), ram.cells, old(own.Keys) + {t, next})
    {
      hide T.Tree, TableAt, OnlyTables, Changes, F.AllocFrame;
      ghost var m, s := ram.cells, Space();
      OnlySame(m, own.Keys + {t});
      if !T.Present(Entry(t, i)) {
        F.AllocFrameTakes(s.frames);
        A.NullFrame(s);
        next := pmm.AllocFrame();
        EnterTable(t, i, next);
      } else {
        next := T.Addr(Entry(t, i));
        OnlySame(m, own.Keys + {t, next});
      }
    }

    /** One level of the descent to the page table of `vpn`; the rest of the path is unchanged. */
    method Descend(ghost root: nat, t: nat, ghost level: nat, ghost vpn: nat, i: nat) returns (next: nat)
      requires pmm.Valid() && Tied() && Going(Space(), root, t, level, vpn) && 1 < level && i == T.Index(vpn, level)
      modifies this`mem, this`own, ram, pmm`usedFrames, pmm`allocHint, pmm.bitmap
      ensures pmm.Valid() && Tied() && Going(Space(), root, next, level - 1, vpn)
      ensures A.PathTo(old(Space()), t, level, vpn) == A.PathTo(Space(), next, level - 1, vpn)
      ensures A.CanDescend(old(Space()), root, t, level, vpn) ==>
                && A.CanDescend(Space(), root, next, level - 1, vpn) && old(own.Keys) <= own.Keys
                && OnlyTables(old(ram.cells), ram.cells, own.Keys)
    {
      hide T.Tree, F.Inv, A.SamePages, A.NextTable, A.Missing, F.FreeCount, OnlyTables;
      ghost var s, m := Space(), ram.cells;
      GoingOn(s, root, t, level, vpn);
      next := NextTable(t, i);
      if A.CanDescend(s, root, t, level, vpn) {
        assert A.Leads(mem, t, level, vpn, next);
        TablesWithin(m, ram.cells, s, Space(), t, next);
      }
    }

    /** `vmm_map_page`, for a page that lies in no large page. Whatever is left in the allocator, the
        memory ends up as specified; it holds a tree when enough frames were free. */
    method MapPage(root: nat, virt: nat, phys: nat, flags: nat)
      requires Valid() && A.IsRoot(Space(), root) && A.Small(Space(), root, T.Vpn(virt))
      modifies this`mem, this`own, ram, pmm`usedFrames, pmm`allocHint, pmm.bitmap
      ensures pmm.Valid() && Tied() && Space() == A.MapPage(old(Space()), root, virt, phys, flags)
      ensures A.CanMap(old(Space()), root, virt) ==> Valid() && OnlyTables(old(ram.cells), ram.cells, own.Keys)
    {
      hide T.Tree, F.Inv, A.Missing, A.SamePages, T.Leaf, F.FreeCount, A.NullTable, A.Standing, OnlyTables, Changes, Stored;
      ghost var s, vpn, m := Space(), T.Vpn(virt), ram.cells;
      A.RootStands(s, root, virt);
      T.IndexMacros(virt);
      MapCan(s, root, virt, phys, flags);
      var pdpt := Descend(root, root, 4, vpn, T.Pml4Index(virt));
      ghost var m1, o1 := ram.cells, own.Keys;
      var pd := Descend(root, pdpt, 3, vpn, T.PdptIndex(virt));
      ghost var m2, o2 := ram.cells, own.Keys;
      var pt := Descend(root, pd, 2, vpn, T.PdIndex(virt));
      ghost var m3 := ram.cells;
      GoingTable(Space(), root, pt, vpn);
      assert A.PathTo(s, root, 4, vpn) == (Space(), pt);
      SetEntry(pt, T.PtIndex(virt), T.Leaf(phys, flags));
      if A.CanMap(s, root, virt) {
        OnlyTablesTrans(m, m1, m2, o1, o2);
        OnlyTablesTrans(m, m2, m3, o2, own.Keys);
        OnlyOneTable(m3, ram.cells, pt, own.Keys);
        OnlyTablesTrans(m, m3, ram.cells, own.Keys, own.Keys);
      }
    }

    /** `vmm_unmap_page`. */
    method UnmapPage(root: nat, virt: nat)
      requires Valid() && A.IsRoot(Space(), root) && A.Small(Space(), root, T.Vpn(virt))
      modifies this`mem, ram
      ensures Valid() && Space() == A.UnmapPage(old(Space()), root, virt)
      ensures OnlyTables(old(ram.cells), ram.cells, own.Keys)
    {
      hide T.Tree, F.Inv, OnlyTables, Changes, TableAt;
      ghost var s, vpn, m := Space(), T.Vpn(virt), ram.cells;
      OnlySame(m, own.Keys);
      T.IndexMacros(virt);
      A.UnmapRefines(s, root, virt);
      A.RootOn(s.own, root, vpn);
      A.OnTable(s, root, 4, vpn);
      if !T.Present(Entry(root, T.Pml4Index(virt))) { return; }
      var pdpt := T.Addr(Entry(root, T.Pml4Index(virt)));
      A.OnTable(s, pdpt, 3, vpn);
      if !T.Present(Entry(pdpt, T.PdptIndex(virt))) { return; }
      var pd := T.Addr(Entry(pdpt, T.PdptIndex(virt)));
      A.OnTable(s, pd, 2, vpn);
      if !T.Present(Entry(pd, T.PdIndex(virt))) { return; }
      var pt := T.Addr(Entry(pd, T.PdIndex(virt)));
      A.OnTable(s, pt, 1, vpn);
      assert A.PageTable(s.mem, pd, 2, vpn) == Some(pt);
      assert A.PageTable(s.mem, root, 4, vpn) == Some(pt);
      if !T.Present(Entry(pt, T.PtIndex(virt))) { return; }
      SetEntry(pt, T.PtIndex(virt), 0);
      OnlyOneTable(m, ram.cells, pt, own.Keys);
    }

    /** `vmm_virt_to_phys`. */
    method VirtToPhys(root: nat, virt: nat) returns (phys: nat)
      requires Valid() && A.IsRoot(Space(), root) && A.Small(Space(), root, T.Vpn(virt))
      ensures phys == A.Translate(Space(), root, virt)
    {
      hide T.Tree, F.Inv, TableAt;
      ghost var s, vpn := Space(), T.Vpn(virt);
      T.IndexMacros(virt);
      A.RootOn(s.own, root, vpn);
      A.OnTable(s, root, 4, vpn);
      if !T.Present(Entry(root, T.Pml4Index(virt))) { return 0; }
      var pdpt := T.Addr(Entry(root, T.Pml4Index(virt)));
      A.OnTable(s, pdpt, 3, vpn);
      if !T.Present(Entry(pdpt, T.PdptIndex(virt))) { return 0; }
      var pd := T.Addr(Entry(pdpt, T.PdptIndex(virt)));
      A.OnTable(s, pd, 2, vpn);
      assert T.Walk(s.mem, root, 4, vpn) == T.Walk(s.mem, pd, 2, vpn);
      if !T.Present(Entry(pd, T.PdIndex(virt))) { return 0; }
      var pt := T.Addr(Entry(pd, T.PdIndex(virt)));
      A.OnTable(s, pt, 1, vpn);
      if !T.Present(Entry(pt, T.PtIndex(virt))) { return 0; }
      return T.Addr(Entry(pt, T.PtIndex(virt))) + virt % PAGE_SIZE;
    }
  }

  // ----- the descent, with or without free frames -----

  /** The descent stands in a well-formed tree, or has been given the null frame. */
  ghost predicate Going(s: A.Space, root: nat, t: nat, level: nat, vpn: nat) {
    A.Standing(s, root, t, level, vpn) || (A.NullTable(s) && t == 0 && 1 <= level)
  }

  lemma GoingOn(s: A.Space, root: nat, t: nat, level: nat, vpn: nat)
    requires Going(s, root, t, level, vpn) && 1 < level
    ensures F.Inv(s.frames) && A.IsTable(s.mem, t)
    ensures var (s', next) := A.NextTable(s, t, T.Index(vpn, level));
            && Going(s', root, next, level - 1, vpn)
            && (A.CanDescend(s, root, t, level, vpn) ==>
                  && A.CanDescend(s', root, next, level - 1, vpn) && A.Grows(s, s') && A.Leads(s'.mem, t, level, vpn, next))
  {
    hide T.Tree, A.SamePages, F.FreeCount, A.NextTable, A.Grows, A.Leads;
    var i := T.Index(vpn, level);
    A.FreeNat(s.frames);
    if A.Standing(s, root, t, level, vpn) {
      if !T.Present(s.mem[t][i]) && F.FreeCount(s.frames) == 0 {
        A.NullEntered(s, t, i);
      } else {
        A.NextTableOk(s, root, t, level, vpn);
        A.NextTableGrows(s, root, t, level, vpn);
      }
    } else {
      A.NullOn(s, i);
      NotStanding(s, root, level, vpn);
    }
  }

  lemma NotStanding(s: A.Space, root: nat, level: nat, vpn: nat)
    ensures !A.Standing(s, root, 0, level, vpn)
  {
    if A.Standing(s, root, 0, level, vpn) { A.TableNotNull(s, 0); }
  }

  lemma TablesWithin(m: Cells, n: Cells, s: A.Space, s': A.Space, t: nat, next: nat)
    requires A.Grows(s, s') && t in s.own && next in s'.own && OnlyTables(m, n, s.own.Keys + {t, next})
    ensures s.own.Keys <= s'.own.Keys && OnlyTables(m, n, s'.own.Keys)
  {
    forall u | u in s.own ensures u in s'.own {}
    forall x: nat | !SameByte(m, n, x) ensures exists u :: u in s'.own.Keys && InTable(u, x) {
      var u :| u in s.own.Keys + {t, next} && InTable(u, x);
      assert u in s'.own.Keys;
    }
  }

  lemma OnlySame(m: Cells, tables: set<nat>)
    ensures OnlyTables(m, m, tables)
  {
  }

  lemma MapCan(s: A.Space, root: nat, virt: nat, phys: nat, flags: nat)
    requires A.SpaceOk(s) && A.IsRoot(s, root)
    ensures A.CanMap(s, root, virt) ==> A.CanDescend(s, root, root, 4, T.Vpn(virt)) && A.SpaceOk(A.MapPage(s, root, virt, phys, flags))
  {
    hide T.Tree;
    if A.CanMap(s, root, virt) {
      A.RootStands(s, root, virt);
      A.MapRefines(s, root, virt, phys, flags);
    }
  }

  lemma GoingTable(s: A.Space, root: nat, t: nat, vpn: nat)
    requires Going(s, root, t, 1, vpn)
    ensures t in s.own || t == 0
    ensures A.CanDescend(s, root, t, 1, vpn) ==> t in s.own
    ensures A.IsTable(s.mem, t)
  {
  }
}
