/** Mapping, unmapping and translation as operations on a tree of page tables, and the finite map
    from page numbers to entries that they refine. */
module AddressSpace {
  import F = Frames
  import opened Options
  import opened PageTables

  /** Physical memory read as tables, the tables of the tree, and the frame allocator. */
  datatype Space = Space(mem: map<nat, seq<nat>>, own: map<nat, Node>, frames: F.Frames)

  ghost predicate FrameOk(s: Space, t: nat) {
    t / PAGE < |s.frames.bits| && s.frames.bits[t / PAGE]
  }

  predicate IsTable(mem: map<nat, seq<nat>>, t: nat) {
    t in mem && |mem[t]| == ENTRIES
  }

  predicate Readable(s: Space, i: nat) {
    IsTable(s.mem, i * PAGE)
  }

  /** The tables form a tree in used frames, every frame can be read as a table, frame 0 is not free. */
  ghost predicate SpaceOk(s: Space) {
    && Tree(s.mem, s.own) && F.Inv(s.frames) && F.ZeroTaken(s.frames) && 0 < |s.frames.bits| <= 0x100_0000_0000
    && (forall t {:trigger FrameOk(s, t)} :: t in s.own ==> FrameOk(s, t))
    && (forall i: nat {:trigger Readable(s, i)} :: i < |s.frames.bits| ==> Readable(s, i))
  }

  /** The root of the tree. */
  ghost predicate IsRoot(s: Space, root: nat) {
    root in s.own && s.own[root] == Node(4, 0)
  }

  lemma RootOn(own: map<nat, Node>, root: nat, vpn: nat)
    requires root in own && own[root] == Node(4, 0) && vpn < VPN_RANGE
    ensures On(own, root, 4, vpn)
  {
    UpDigits(vpn);
  }

  /** The finite map: the leaf entry of every mapped page. */
  function Pages(s: Space, root: nat, vpn: nat): Option<nat> {
    Walk(s.mem, root, 4, vpn)
  }

  /** The page lies in no large page. */
  predicate Small(s: Space, root: nat, vpn: nat) {
    vpn < VPN_RANGE && Plain(s.mem, root, 4, vpn)
  }

  /** The same small pages are mapped, to the same entries. */
  ghost predicate SamePages(s: Space, s': Space, root: nat) {
    forall v: nat {:trigger Pages(s', root, v)} :: Small(s, root, v) ==> Small(s', root, v) && Pages(s', root, v) == Pages(s, root, v)
  }

  // ----- one level of the descent -----

  /** The next table; if it is missing, a frame is allocated, zeroed and entered, whatever its address. */
  function NextTable(s: Space, t: nat, i: nat): (r: (Space, nat))
    requires F.Inv(s.frames) && IsTable(s.mem, t) && i < ENTRIES
    ensures F.Inv(r.0.frames)
  {
    if Present(s.mem[t][i]) then (s, Addr(s.mem[t][i]))
    else
      var (f, frame) := F.AllocFrame(s.frames);
      (Space(Attach(s.mem, t, i, frame), Owned(s.own, t, i, frame), f), frame)
  }

  /** The entry on the path to `vpn` in the table `t` leads to `next`. */
  ghost predicate Leads(mem: map<nat, seq<nat>>, t: nat, level: nat, vpn: nat, next: nat)
    requires 1 <= level
  {
    && IsTable(mem, t) && Present(mem[t][Index(vpn, level)]) && !Huge(mem[t][Index(vpn, level)])
    && Addr(mem[t][Index(vpn, level)]) == next
  }

  /** How many tables are missing on the path from `t` to the entry of `vpn`. */
  function Missing(mem: map<nat, seq<nat>>, t: nat, level: nat, vpn: nat): nat
    decreases level
  {
    if level <= 1 || !IsTable(mem, t) then 0
    else if !Present(mem[t][Index(vpn, level)]) then level - 1
    else Missing(mem, Addr(mem[t][Index(vpn, level)]), level - 1, vpn)
  }

  /** A free frame is not a table of the tree, and can become one. */
  lemma FreshFrame(s: Space, t: nat, i: nat)
    requires SpaceOk(s) && t in s.own && IsTable(s.mem, t) && i < ENTRIES && s.own[t].level > 1
    requires !Present(s.mem[t][i]) && F.FreeCount(s.frames) > 0
    ensures CanAttach(s.mem, s.own, t, i, F.AllocFrame(s.frames).1)
  {
    F.AllocFrameTakes(s.frames);
    var frame := F.AllocFrame(s.frames).1;
    assert frame in s.own ==> FrameOk(s, frame);
  }

  lemma AttachOk(s: Space, t: nat, i: nat)
    requires SpaceOk(s) && t in s.own && IsTable(s.mem, t) && i < ENTRIES && s.own[t].level > 1
    requires !Present(s.mem[t][i]) && F.FreeCount(s.frames) > 0
    ensures SpaceOk(NextTable(s, t, i).0)
  {
    var (s', next) := NextTable(s, t, i);
    F.AllocFrameTakes(s.frames);
    FreshFrame(s, t, i);
    AttachTree(s.mem, s.own, t, i, next);
    forall u | u in s'.own ensures FrameOk(s', u) { assert u in s.own ==> FrameOk(s, u); }
    forall k: nat | k < |s'.frames.bits| ensures Readable(s', k) { assert Readable(s, k); }
  }

  /** A descent stands at the table `t` of a well-formed tree, on the path to `vpn`. */
  ghost predicate Standing(s: Space, root: nat, t: nat, level: nat, vpn: nat) {
    && SpaceOk(s) && IsRoot(s, root) && On(s.own, t, level, vpn) && 1 <= level
    && IsTable(s.mem, t) && Plain(s.mem, t, level, vpn)
  }

  /** What stood free and is no table of the tree. */
  ghost predicate FreshTable(s: Space, s': Space, t: nat) {
    && t != 0 && t % PAGE == 0 && t !in s.own && t / PAGE < |s.frames.bits| && !s.frames.bits[t / PAGE]
    && t in s'.mem && s'.mem[t] == ZeroTable()
  }

  /** One level down, when the table is there or a frame is free: the space stays well formed, no
      translation changes, a new table is a zeroed frame that was free and is no table of the tree, and
      the free frames fall short of the missing tables by as much as before. */
  lemma NextTableOk(s: Space, root: nat, t: nat, level: nat, vpn: nat)
    requires Standing(s, root, t, level, vpn) && 1 < level
    requires Present(s.mem[t][Index(vpn, level)]) || F.FreeCount(s.frames) > 0
    ensures var (s', next) := NextTable(s, t, Index(vpn, level));
            && Standing(s', root, next, level - 1, vpn) && SamePages(s, s', root) && Leads(s'.mem, t, level, vpn, next)
            && (!Present(s.mem[t][Index(vpn, level)]) ==> FreshTable(s, s', next))
            && Missing(s'.mem, next, level - 1, vpn) - F.FreeCount(s'.frames)
               == Missing(s.mem, t, level, vpn) - F.FreeCount(s.frames)
  {
    var i := Index(vpn, level);
    assert TableOk(s.mem, s.own, t) && EntryOk(s.mem, s.own, t, i);
    var (s', next) := NextTable(s, t, i);
    if !Present(s.mem[t][i]) {
      AttachOk(s, t, i);
      FreshFrame(s, t, i);
      F.AllocFrameTakes(s.frames);
      LinkFields(next);
      forall v: nat | Small(s, root, v) ensures Small(s', root, v) && Pages(s', root, v) == Pages(s, root, v) {
        RootOn(s.own, root, v);
        AttachWalk(s.mem, s.own, root, 4, v, t, i, next);
      }
      assert s'.mem[next] == ZeroTable();
    } else {
      assert TableOk(s.mem, s.own, next);
    }
  }

  // ----- the descent -----

  /** The descent of `vmm_map_page` from a table of `level` to the page table of `vpn`. */
  function PathTo(s: Space, t: nat, level: nat, vpn: nat): (r: (Space, nat))
    requires F.Inv(s.frames)
    ensures F.Inv(r.0.frames)
    decreases level
  {
    if level <= 1 || !IsTable(s.mem, t) then (s, t)
    else
      var (s', next) := NextTable(s, t, Index(vpn, level));
      PathTo(s', next, level - 1, vpn)
  }

  ghost predicate CanDescend(s: Space, root: nat, t: nat, level: nat, vpn: nat) {
    Standing(s, root, t, level, vpn) && Missing(s.mem, t, level, vpn) <= F.FreeCount(s.frames)
  }

  /** The tables of `s` keep their places; every other table was a free frame. */
  ghost predicate Grows(s: Space, s': Space) {
    && |s'.frames.bits| == |s.frames.bits|
    && (forall u {:trigger u in s'.own} :: u in s.own ==> u in s'.own && s'.own[u] == s.own[u])
    && (forall u {:trigger u in s'.own} :: u in s'.own && u !in s.own ==>
          u % PAGE == 0 && u / PAGE < |s.frames.bits| && !s.frames.bits[u / PAGE])
    && (forall i {:trigger s'.frames.bits[i]} :: 0 <= i < |s.frames.bits| && s.frames.bits[i] ==> s'.frames.bits[i])
  }

  lemma NextTableGrows(s: Space, root: nat, t: nat, level: nat, vpn: nat)
    requires Standing(s, root, t, level, vpn) && 1 < level
    requires Present(s.mem[t][Index(vpn, level)]) || F.FreeCount(s.frames) > 0
    ensures Grows(s, NextTable(s, t, Index(vpn, level)).0)
  {
    if !Present(s.mem[t][Index(vpn, level)]) {
      FreshFrame(s, t, Index(vpn, level));
      F.AllocFrameTakes(s.frames);
    }
  }

  lemma GrowsTrans(s: Space, t: Space, u: Space)
    requires Grows(s, t) && Grows(t, u)
    ensures Grows(s, u)
  {
    forall i | 0 <= i < |s.frames.bits| && s.frames.bits[i] ensures u.frames.bits[i] { assert t.frames.bits[i]; }
    forall x | x in s.own ensures x in u.own && u.own[x] == s.own[x] { assert x in t.own; }
    forall x | x in u.own && x !in s.own ensures x % PAGE == 0 && x / PAGE < |s.frames.bits| && !s.frames.bits[x / PAGE] {
      assert x in t.own || !t.frames.bits[x / PAGE];
    }
  }

  lemma MissingFree(s: Space, root: nat, t: nat, level: nat, vpn: nat)
    requires CanDescend(s, root, t, level, vpn) && 1 < level
    ensures Present(s.mem[t][Index(vpn, level)]) || F.FreeCount(s.frames) > 0
  {
  }

  lemma StepDown(s: Space, root: nat, t: nat, level: nat, vpn: nat)
    requires CanDescend(s, root, t, level, vpn) && 1 < level
    ensures var (s', next) := NextTable(s, t, Index(vpn, level));
            && CanDescend(s', root, next, level - 1, vpn) && SamePages(s, s', root) && Grows(s, s')
            && Leads(s'.mem, t, level, vpn, next)
  {
    hide Standing, SamePages, Grows, Leads, Missing, NextTable, F.FreeCount, FreshTable;
    MissingFree(s, root, t, level, vpn);
    NextTableOk(s, root, t, level, vpn);
    NextTableGrows(s, root, t, level, vpn);
  }

  /** The descent keeps every translation, takes free frames only, and ends at the page table of `vpn`. */
  lemma {:induction false} PathToOk(s: Space, root: nat, t: nat, level: nat, vpn: nat)
    requires CanDescend(s, root, t, level, vpn)
    ensures var (s', pt) := PathTo(s, t, level, vpn);
            Standing(s', root, pt, 1, vpn) && SamePages(s, s', root) && Grows(s, s')
    decreases level
  {
    hide SamePages, Missing, NextTable, F.FreeCount, Grows, Tree, F.Inv;
    if level > 1 {
      StepDown(s, root, t, level, vpn);
      var (s1, next) := NextTable(s, t, Index(vpn, level));
      PathToOk(s1, root, next, level - 1, vpn);
      SamePagesTrans(s, s1, PathTo(s1, next, level - 1, vpn).0, root);
      GrowsTrans(s, s1, PathTo(s1, next, level - 1, vpn).0);
    } else {
      SamePagesTrans(s, s, s, root);
      GrowsRefl(s);
    }
  }

  lemma GrowsRefl(s: Space)
    ensures Grows(s, s)
  {
  }

  lemma SamePagesTrans(s: Space, t: Space, u: Space, root: nat)
    ensures SamePages(s, t, root) && SamePages(t, u, root) ==> SamePages(s, u, root)
    ensures SamePages(s, s, root)
  {
    hide Walk, Plain;
    if SamePages(s, t, root) && SamePages(t, u, root) {
      forall v: nat | Small(s, root, v) ensures Small(u, root, v) && Pages(u, root, v) == Pages(s, root, v) {
        PagesAt(s, t, root, v);
        PagesAt(t, u, root, v);
      }
    }
  }

  // ----- when no frame is left -----

  /** Memory without free frames in which the frame 0 is used as a table that leads nowhere else. */
  ghost predicate NullTable(s: Space) {
    && F.Inv(s.frames) && F.ZeroTaken(s.frames) && F.FreeCount(s.frames) == 0 && IsTable(s.mem, 0)
    && forall i {:trigger s.mem[0][i]} :: 0 <= i < ENTRIES && Present(s.mem[0][i]) ==> Addr(s.mem[0][i]) == 0
  }

  ghost predicate SameBut(s: Space, s': Space, a: set<nat>) {
    forall u {:trigger u in s'.mem} :: u !in a ==>
      (u in s.mem <==> u in s'.mem) && (u in s.mem ==> s'.mem[u] == s.mem[u])
  }

  /** A missing table is taken to be at the address 0, and the table there is zeroed. */
  lemma NullEntered(s: Space, t: nat, i: nat)
    requires F.Inv(s.frames) && F.ZeroTaken(s.frames) && F.FreeCount(s.frames) == 0
    requires IsTable(s.mem, t) && i < ENTRIES && !Present(s.mem[t][i])
    ensures var (s', next) := NextTable(s, t, i);
            && next == 0 && NullTable(s') && s'.frames == s.frames && SameBut(s, s', {0, t})
            && IsTable(s'.mem, t) && s'.mem[t][i] == Link(0)
  {
    F.AllocFrameTakes(s.frames);
    LinkFields(0);
  }

  /** From there on, the descent stays at the address 0 and changes nothing else. */
  lemma {:induction false} NullPath(s: Space, level: nat, vpn: nat)
    requires NullTable(s)
    ensures var (s', pt) := PathTo(s, 0, level, vpn);
            pt == 0 && NullTable(s') && SameBut(s, s', {0})
    decreases level
  {
    if level > 1 {
      var i := Index(vpn, level);
      if !Present(s.mem[0][i]) { NullEntered(s, 0, i); }
      var s1 := NextTable(s, 0, i).0;
      NullPath(s1, level - 1, vpn);
      forall u | u !in {0} ensures (u in s.mem <==> u in PathTo(s1, 0, level - 1, vpn).0.mem)
                                   && (u in s.mem ==> PathTo(s1, 0, level - 1, vpn).0.mem[u] == s.mem[u]) {
        assert u in s1.mem <==> u in s.mem;
      }
    }
  }

  /** From the table at the address 0 the descent comes back to it. */
  lemma NullOn(s: Space, i: nat)
    requires NullTable(s) && i < ENTRIES
    ensures NextTable(s, 0, i).1 == 0 && NullTable(NextTable(s, 0, i).0)
  {
    if !Present(s.mem[0][i]) { NullEntered(s, 0, i); }
  }

  lemma NullFrame(s: Space)
    requires F.Inv(s.frames) && F.ZeroTaken(s.frames)
    ensures F.AllocFrame(s.frames).1 == 0 <==> F.FreeCount(s.frames) == 0
  {
    F.AllocFrameTakes(s.frames);
  }

  /** Some level of the descent is given the frame 0 for a missing table. */
  predicate GetsNull(s: Space, t: nat, level: nat, vpn: nat)
    requires F.Inv(s.frames)
    decreases level
  {
    level > 1 && IsTable(s.mem, t) &&
    var (s', next) := NextTable(s, t, Index(vpn, level));
    (!Present(s.mem[t][Index(vpn, level)]) && next == 0) || GetsNull(s', next, level - 1, vpn)
  }

  /** That happens exactly when more tables are missing than frames are free. */
  lemma {:induction false} GetsNullExactly(s: Space, root: nat, t: nat, level: nat, vpn: nat)
    requires Standing(s, root, t, level, vpn)
    ensures GetsNull(s, t, level, vpn) <==> Missing(s.mem, t, level, vpn) > F.FreeCount(s.frames)
    decreases level
  {
    hide SamePages, Tree, F.Inv, F.FreeCount, NextTable;
    FreeNat(s.frames);
    if level > 1 {
      NullFrame(s);
      var i := Index(vpn, level);
      if !Present(s.mem[t][i]) && F.FreeCount(s.frames) == 0 {
        NullEntered(s, t, i);
      } else {
        NextTableOk(s, root, t, level, vpn);
        var (s1, next) := NextTable(s, t, i);
        GetsNullExactly(s1, root, next, level - 1, vpn);
      }
    }
  }

  lemma FreeNat(f: F.Frames)
    ensures F.FreeCount(f) >= 0
  {
  }

  // ----- what the descent leaves in the tables above -----

  /** What is already on the path stays on it. */
  lemma LeadsKept(s: Space, root: nat, t: nat, level: nat, vpn: nat, u: nat, uLevel: nat, next: nat)
    requires Standing(s, root, t, level, vpn) && 1 < level
    requires u in s.own && u != t && 1 <= uLevel && Leads(s.mem, u, uLevel, vpn, next)
    ensures Leads(NextTable(s, t, Index(vpn, level)).0.mem, u, uLevel, vpn, next)
  {
    assert TableOk(s.mem, s.own, u);
    if !Present(s.mem[t][Index(vpn, level)]) {
      if F.FreeCount(s.frames) > 0 {
        FreshFrame(s, t, Index(vpn, level));
      } else {
        NullFrame(s);
        NullEntered(s, t, Index(vpn, level));
      }
    }
  }

  lemma {:induction false} PathLeads(s: Space, root: nat, t: nat, level: nat, vpn: nat, u: nat, uLevel: nat, n: nat)
    requires Standing(s, root, t, level, vpn)
    requires u in s.own && s.own[u].level > level && 1 <= uLevel && Leads(s.mem, u, uLevel, vpn, n)
    ensures Leads(PathTo(s, t, level, vpn).0.mem, u, uLevel, vpn, n)
    decreases level
  {
    hide SamePages, Missing, F.FreeCount, F.Inv, Tree, NextTable, Leads;
    if level > 1 {
      var i := Index(vpn, level);
      FreeNat(s.frames);
      LeadsKept(s, root, t, level, vpn, u, uLevel, n);
      var (s1, next) := NextTable(s, t, i);
      if !Present(s.mem[t][i]) && F.FreeCount(s.frames) == 0 {
        NullEntered(s, t, i);
        NullPath(s1, level - 1, vpn);
        LeadsSame(s1, PathTo(s1, 0, level - 1, vpn).0, root, u, uLevel, vpn, n, s);
      } else {
        NextTableOk(s, root, t, level, vpn);
        NextTableGrows(s, root, t, level, vpn);
        PathLeads(s1, root, next, level - 1, vpn, u, uLevel, n);
      }
    }
  }

  lemma LeadsSame(s: Space, s': Space, root: nat, u: nat, uLevel: nat, vpn: nat, n: nat, was: Space)
    requires SpaceOk(was) && u in was.own && SameBut(s, s', {0}) && 1 <= uLevel && Leads(s.mem, u, uLevel, vpn, n)
    ensures Leads(s'.mem, u, uLevel, vpn, n)
  {
    assert TableOk(was.mem, was.own, u);
    assert u in s'.mem <==> u in s.mem;
  }

  /** Once the last entry is written, the walk from `t` finds it. */
  lemma {:induction false} PathWalk(s: Space, root: nat, t: nat, level: nat, vpn: nat, e: nat)
    requires CanDescend(s, root, t, level, vpn)
    ensures var (s', pt) := PathTo(s, t, level, vpn);
            && IsTable(s'.mem, pt)
            && Walk(SetEntry(s'.mem, pt, Index(vpn, 1), e), t, level, vpn) == (if Present(e) then Some(e) else None)
            && Plain(SetEntry(s'.mem, pt, Index(vpn, 1), e), t, level, vpn)
    decreases level
  {
    hide Tree, F.Inv, SamePages, Missing, F.FreeCount, NextTable;
    if level > 1 {
      StepDown(s, root, t, level, vpn);
      var (s1, next) := NextTable(s, t, Index(vpn, level));
      PathWalk(s1, root, next, level - 1, vpn, e);
      PathToOk(s1, root, next, level - 1, vpn);
      PathLeads(s1, root, next, level - 1, vpn, t, level, next);
      var (s', pt) := PathTo(s1, next, level - 1, vpn);
      assert pt != t;
    }
  }

  // ----- vmm_map_page -----

  /** `vmm_map_page`, for any number of free frames. */
  function MapPage(s: Space, root: nat, virt: nat, phys: nat, flags: nat): Space
    requires F.Inv(s.frames)
  {
    var (s', pt) := PathTo(s, root, 4, Vpn(virt));
    if IsTable(s'.mem, pt) then s'.(mem := SetEntry(s'.mem, pt, Index(Vpn(virt), 1), Leaf(phys, flags))) else s'
  }

  /** The page lies in no large page, and at least as many frames are free as tables are missing. */
  ghost predicate CanMap(s: Space, root: nat, virt: nat) {
    && SpaceOk(s) && IsRoot(s, root) && Small(s, root, Vpn(virt))
    && Missing(s.mem, root, 4, Vpn(virt)) <= F.FreeCount(s.frames)
  }

  lemma RootStands(s: Space, root: nat, virt: nat)
    requires SpaceOk(s) && IsRoot(s, root) && Small(s, root, Vpn(virt))
    ensures Standing(s, root, root, 4, Vpn(virt))
  {
    assert TableOk(s.mem, s.own, root);
    IndexMacros(virt);
    RootOn(s.own, root, Vpn(virt));
  }

  /** Three free frames are always enough. */
  lemma ThreeFramesSuffice(s: Space, root: nat, virt: nat)
    requires SpaceOk(s) && IsRoot(s, root) && Small(s, root, Vpn(virt)) && 3 <= F.FreeCount(s.frames)
    ensures CanMap(s, root, virt)
  {
    MissingBound(s.mem, root, 4, Vpn(virt));
  }

  lemma {:induction false} MissingBound(mem: map<nat, seq<nat>>, t: nat, level: nat, vpn: nat)
    ensures level >= 1 ==> Missing(mem, t, level, vpn) <= level - 1
    decreases level
  {
    if level > 1 && IsTable(mem, t) {
      MissingBound(mem, Addr(mem[t][Index(vpn, level)]), level - 1, vpn);
    }
  }

  lemma LeafWriteOk(s: Space, pt: nat, i: nat, e: nat)
    requires SpaceOk(s) && pt in s.own && IsTable(s.mem, pt) && i < ENTRIES && s.own[pt].level == 1
    ensures SpaceOk(s.(mem := SetEntry(s.mem, pt, i, e)))
  {
    var s' := s.(mem := SetEntry(s.mem, pt, i, e));
    LeafTree(s.mem, s.own, pt, i, e);
    forall u | u in s'.own ensures FrameOk(s', u) { assert FrameOk(s, u); }
    forall k: nat | k < |s'.frames.bits| ensures Readable(s', k) { assert Readable(s, k); }
  }

  /** A write to the last entry of `vpn` changes the translation of `vpn` only. */
  lemma LeafWritePages(s: Space, root: nat, pt: nat, vpn: nat, e: nat, v: nat)
    requires SpaceOk(s) && IsRoot(s, root) && On(s.own, pt, 1, vpn) && IsTable(s.mem, pt)
    requires Small(s, root, v) && v != vpn
    ensures Walk(SetEntry(s.mem, pt, Index(vpn, 1), e), root, 4, v) == Walk(s.mem, root, 4, v)
    ensures Plain(SetEntry(s.mem, pt, Index(vpn, 1), e), root, 4, v)
  {
    RootOn(s.own, root, v);
    UpDigits(v);
    UpDigits(vpn);
    WalkFrame(s.mem, s.own, root, 4, v, pt, Index(vpn, 1), e);
  }

  /** `vmm_map_page` refines an update of the finite map at the page of `virt`; the tables it adds were
      free frames. */
  lemma MapRefines(s: Space, root: nat, virt: nat, phys: nat, flags: nat)
    requires CanMap(s, root, virt)
    ensures var s' := MapPage(s, root, virt, phys, flags);
            && SpaceOk(s') && IsRoot(s', root) && Grows(s, s')
            && forall v: nat {:trigger Pages(s', root, v)} :: Small(s, root, v) ==>
                 Small(s', root, v) && Pages(s', root, v) == if v == Vpn(virt) then Some(Leaf(phys, flags)) else Pages(s, root, v)
  {
    hide SpaceOk, SamePages, Missing, F.FreeCount, PathTo, Leaf, SetEntry, Walk, Plain, Tree;
    SpaceParts(s);
    var vpn, e := Vpn(virt), Leaf(phys, flags);
    RootStands(s, root, virt);
    PathToOk(s, root, root, 4, vpn);
    PathWalk(s, root, root, 4, vpn, e);
    LeafFields(phys, flags);
    var (s1, pt) := PathTo(s, root, 4, vpn);
    LeafWriteOk(s1, pt, Index(vpn, 1), e);
    var s' := MapPage(s, root, virt, phys, flags);
    assert s'.mem == SetEntry(s1.mem, pt, Index(vpn, 1), e);
    assert Small(s', root, vpn) && Pages(s', root, vpn) == Some(e);
    forall v: nat | Small(s, root, v) && v != vpn ensures Small(s', root, v) && Pages(s', root, v) == Pages(s, root, v) {
      PagesAt(s, s1, root, v);
      LeafWritePages(s1, root, pt, vpn, e, v);
    }
  }

  lemma PagesAt(s: Space, s': Space, root: nat, v: nat)
    requires SamePages(s, s', root) && Small(s, root, v)
    ensures Small(s', root, v) && Pages(s', root, v) == Pages(s, root, v)
  {
  }

  // ----- every entry after vmm_map_page -----

  /** `table | PTE_PRESENT | PTE_WRITABLE | PTE_USER`: the access is decided further down. */
  predicate OpenLink(e: nat) {
    e % PAGE == 7 && e / ADDR_RANGE == 0 && Present(e) && Writable(e) && User(e)
  }

  /** An entry after the map: as before, or 0 in a new table; but on the path to `vpn`, the leaf in the page
      table, and a link without restrictions where no entry was present. */
  ghost predicate EntryAfter(s: Space, s': Space, vpn: nat, leaf: nat, u: nat, k: nat)
    requires u in s'.own && k < ENTRIES
  {
    var level := s'.own[u].level;
    && IsTable(s'.mem, u) && (u in s.own ==> IsTable(s.mem, u))
    && var was, now := if u in s.own then s.mem[u][k] else 0, s'.mem[u][k];
       || now == was
       || (On(s'.own, u, level, vpn) && 1 <= level && k == Index(vpn, level)
           && (if level == 1 then now == leaf else !Present(was) && OpenLink(now)))
  }

  ghost predicate EntriesAfter(s: Space, s': Space, vpn: nat, leaf: nat) {
    forall u, k: nat {:trigger EntryAfter(s, s', vpn, leaf, u, k)} :: u in s'.own && k < ENTRIES ==> EntryAfter(s, s', vpn, leaf, u, k)
  }

  lemma LeafEntries(s: Space, root: nat, t: nat, vpn: nat, e: nat)
    requires Standing(s, root, t, 1, vpn)
    ensures EntriesAfter(s, s.(mem := SetEntry(s.mem, t, Index(vpn, 1), e)), vpn, e)
  {
    var s' := s.(mem := SetEntry(s.mem, t, Index(vpn, 1), e));
    forall u, k: nat | u in s'.own && k < ENTRIES ensures EntryAfter(s, s', vpn, e, u, k) {
      assert TableOk(s.mem, s.own, u);
    }
  }

  lemma StepEntries(s: Space, root: nat, t: nat, level: nat, vpn: nat, e: nat)
    requires CanDescend(s, root, t, level, vpn) && 1 < level
    ensures EntriesAfter(s, NextTable(s, t, Index(vpn, level)).0, vpn, e)
  {
    var (s1, next) := NextTable(s, t, Index(vpn, level));
    MissingFree(s, root, t, level, vpn);
    if !Present(s.mem[t][Index(vpn, level)]) {
      FreshFrame(s, t, Index(vpn, level));
      LinkFields(next);
    }
    forall u, k: nat | u in s1.own && k < ENTRIES ensures EntryAfter(s, s1, vpn, e, u, k) {
      assert TableOk(s.mem, s.own, t);
      assert u in s.own ==> TableOk(s.mem, s.own, u);
    }
  }

  /** One step and the rest of the way: what the step entered above the page table stays. */
  lemma EntriesTrans(s: Space, s1: Space, s2: Space, vpn: nat, e: nat)
    requires EntriesAfter(s, s1, vpn, e) && EntriesAfter(s1, s2, vpn, e) && Grows(s, s1) && Grows(s1, s2)
    ensures EntriesAfter(s, s2, vpn, e)
  {
    forall u, k: nat | u in s2.own && k < ENTRIES ensures EntryAfter(s, s2, vpn, e, u, k) {
      assert EntryAfter(s1, s2, vpn, e, u, k);
      assert u in s.own ==> u in s1.own;
      assert u in s1.own ==> EntryAfter(s, s1, vpn, e, u, k) && s2.own[u] == s1.own[u];
    }
  }

  lemma {:induction false} PathEntries(s: Space, root: nat, t: nat, level: nat, vpn: nat, e: nat)
    requires CanDescend(s, root, t, level, vpn)
    ensures var (s', pt) := PathTo(s, t, level, vpn);
            IsTable(s'.mem, pt) && EntriesAfter(s, s'.(mem := SetEntry(s'.mem, pt, Index(vpn, 1), e)), vpn, e)
    decreases level
  {
    hide SamePages, Missing, NextTable, F.FreeCount, Grows, Tree, F.Inv, EntriesAfter, SetEntry;
    if level > 1 {
      StepDown(s, root, t, level, vpn);
      StepEntries(s, root, t, level, vpn, e);
      var (s1, next) := NextTable(s, t, Index(vpn, level));
      PathEntries(s1, root, next, level - 1, vpn, e);
      PathToOk(s1, root, next, level - 1, vpn);
      var (s', pt) := PathTo(s1, next, level - 1, vpn);
      var s2 := s'.(mem := SetEntry(s'.mem, pt, Index(vpn, 1), e));
      assert Grows(s1, s2) by { GrowsMem(s1, s', s2); }
      EntriesTrans(s, s1, s2, vpn, e);
    } else {
      LeafEntries(s, root, t, vpn, e);
    }
  }

  lemma GrowsMem(s: Space, s': Space, s2: Space)
    requires Grows(s, s') && s2.own == s'.own && s2.frames == s'.frames
    ensures Grows(s, s2)
  {
  }

  datatype Right = ToWrite | ForUser

  predicate Has(e: nat, r: Right) {
    match r
    case ToWrite => Writable(e)
    case ForUser => User(e)
  }

  /** The processor's rule: the page is mapped, and every entry on its path grants the right. */
  predicate Allows(mem: map<nat, seq<nat>>, t: nat, level: nat, vpn: nat, r: Right)
    decreases level
  {
    level >= 1 && IsTable(mem, t) &&
    var e := mem[t][Index(vpn, level)];
    Present(e) && Has(e, r) && (level == 1 || Allows(mem, Addr(e), level - 1, vpn, r))
  }

  /** The entries above the page table that are present grant the right. */
  predicate AllowsAbove(mem: map<nat, seq<nat>>, t: nat, level: nat, vpn: nat, r: Right)
    decreases level
  {
    level <= 1 || !IsTable(mem, t) ||
    var e := mem[t][Index(vpn, level)];
    !Present(e) || (Has(e, r) && AllowsAbove(mem, Addr(e), level - 1, vpn, r))
  }

  /** The tables above the current one are left alone by the rest of the descent and the leaf. */
  lemma TableStays(s: Space, root: nat, t: nat, level: nat, vpn: nat, e: nat, u: nat, n: nat)
    requires CanDescend(s, root, t, level, vpn) && u in s.own && s.own[u].level > level
    requires Leads(s.mem, u, s.own[u].level, vpn, n)
    ensures var (s', pt) := PathTo(s, t, level, vpn);
            && IsTable(s'.mem, pt) && IsTable(s.mem, u)
            && var m := SetEntry(s'.mem, pt, Index(vpn, 1), e);
               IsTable(m, u) && m[u][Index(vpn, s.own[u].level)] == s.mem[u][Index(vpn, s.own[u].level)]
  {
    StandingTable(s, root, t, level, vpn);
    hide SamePages, Missing, NextTable, F.FreeCount, Tree, F.Inv, PathTo, Standing;
    PathEntries(s, root, t, level, vpn, e);
    PathToOk(s, root, t, level, vpn);
    var (s', pt) := PathTo(s, t, level, vpn);
    var s2 := s'.(mem := SetEntry(s'.mem, pt, Index(vpn, 1), e));
    assert u in s2.own;
    assert EntryAfter(s, s2, vpn, e, u, Index(vpn, s.own[u].level));
  }

  lemma {:induction false} PathRights(s: Space, root: nat, t: nat, level: nat, vpn: nat, e: nat, r: Right)
    requires CanDescend(s, root, t, level, vpn) && Present(e)
    ensures var (s', pt) := PathTo(s, t, level, vpn);
            && IsTable(s'.mem, pt)
            && (Allows(SetEntry(s'.mem, pt, Index(vpn, 1), e), t, level, vpn, r)
                <==> AllowsAbove(s.mem, t, level, vpn, r) && Has(e, r))
    decreases level
  {
    hide SamePages, Missing, F.FreeCount, Tree, F.Inv, Standing, Grows;
    if level > 1 {
      StandingTable(s, root, t, level, vpn);
      var i := Index(vpn, level);
      StepDown(s, root, t, level, vpn);
      StepLink(s, root, t, level, vpn);
      hide NextTable;
      var (s1, next) := NextTable(s, t, i);
      PathRights(s1, root, next, level - 1, vpn, e, r);
      TableStays(s1, root, next, level - 1, vpn, e, t, next);
      RightsBelow(s, root, t, level, vpn, r);
    } else {
      StandingTable(s, root, t, level, vpn);
    }
  }

  lemma StandingTable(s: Space, root: nat, t: nat, level: nat, vpn: nat)
    requires Standing(s, root, t, level, vpn)
    ensures IsTable(s.mem, t) && F.Inv(s.frames) && t in s.own && s.own[t].level == level >= 1
  {
  }

  /** The entry that leads on: the old one, or a link without restrictions. */
  lemma StepLink(s: Space, root: nat, t: nat, level: nat, vpn: nat)
    requires CanDescend(s, root, t, level, vpn) && 1 < level
    ensures var (s1, next) := NextTable(s, t, Index(vpn, level));
            && t in s1.own && s1.own[t].level == level && IsTable(s1.mem, t)
            && (Present(s.mem[t][Index(vpn, level)]) ==> s1.mem == s.mem)
            && (!Present(s.mem[t][Index(vpn, level)]) ==> OpenLink(s1.mem[t][Index(vpn, level)]))
  {
    MissingFree(s, root, t, level, vpn);
    if !Present(s.mem[t][Index(vpn, level)]) {
      FreshFrame(s, t, Index(vpn, level));
      LinkFields(F.AllocFrame(s.frames).1);
    }
  }

  /** Nothing above the page table restricts the right below an entry that was absent. */
  lemma RightsBelow(s: Space, root: nat, t: nat, level: nat, vpn: nat, r: Right)
    requires CanDescend(s, root, t, level, vpn) && 1 < level
    ensures var (s1, next) := NextTable(s, t, Index(vpn, level));
            AllowsAbove(s1.mem, next, level - 1, vpn, r)
            <==> (Present(s.mem[t][Index(vpn, level)]) ==> AllowsAbove(s.mem, Addr(s.mem[t][Index(vpn, level)]), level - 1, vpn, r))
  {
    MissingFree(s, root, t, level, vpn);
    if !Present(s.mem[t][Index(vpn, level)]) {
      FreshFrame(s, t, Index(vpn, level));
    }
  }

  /** After `vmm_map_page` every entry is as before, except those on the path of the page: the leaf, and
      links that allow writing and user access where tables were missing. So the page may be written, or
      used in user mode, exactly when its flags say so and no entry that was there before forbids it. */
  lemma MapRights(s: Space, root: nat, virt: nat, phys: nat, flags: nat)
    requires CanMap(s, root, virt)
    ensures var s' := MapPage(s, root, virt, phys, flags);
            && EntriesAfter(s, s', Vpn(virt), Leaf(phys, flags))
            && (Allows(s'.mem, root, 4, Vpn(virt), ToWrite)
                <==> AllowsAbove(s.mem, root, 4, Vpn(virt), ToWrite) && Writable(flags))
            && (Allows(s'.mem, root, 4, Vpn(virt), ForUser)
                <==> AllowsAbove(s.mem, root, 4, Vpn(virt), ForUser) && User(flags))
  {
    hide SpaceOk, Missing, F.FreeCount, PathTo, Leaf, SetEntry, Allows, AllowsAbove, Plain, Tree, EntriesAfter;
    SpaceParts(s);
    RootStands(s, root, virt);
    LeafFields(phys, flags);
    PathEntries(s, root, root, 4, Vpn(virt), Leaf(phys, flags));
    PathRights(s, root, root, 4, Vpn(virt), Leaf(phys, flags), ToWrite);
    PathRights(s, root, root, 4, Vpn(virt), Leaf(phys, flags), ForUser);
  }

  // ----- exactly when vmm_map_page keeps a tree -----

  /** The path from `t` to `vpn` passes through a table at the address 0. */
  predicate Broken(mem: map<nat, seq<nat>>, t: nat, level: nat, vpn: nat)
    decreases level
  {
    t == 0 || (level > 1 && IsTable(mem, t) &&
      var e := mem[t][Index(vpn, level)];
      Present(e) && !Huge(e) && Broken(mem, Addr(e), level - 1, vpn))
  }

  lemma {:induction false} BrokenIsNoTree(mem: map<nat, seq<nat>>, own: map<nat, Node>, t: nat, level: nat, vpn: nat)
    requires Tree(mem, own) && t in own && own[t].level == level && 1 <= level
    ensures !Broken(mem, t, level, vpn)
    decreases level
  {
    assert TableOk(mem, own, t);
    if level > 1 {
      var e := mem[t][Index(vpn, level)];
      assert EntryOk(mem, own, t, Index(vpn, level));
      if Present(e) && !Huge(e) { BrokenIsNoTree(mem, own, Addr(e), level - 1, vpn); }
    }
  }

  /** A descent that is given the null frame leaves a broken path and ends at the address 0. */
  lemma {:induction false} NullBreaks(s: Space, root: nat, t: nat, level: nat, vpn: nat)
    requires Standing(s, root, t, level, vpn) && GetsNull(s, t, level, vpn)
    ensures var (s', pt) := PathTo(s, t, level, vpn); pt == 0 && Broken(s'.mem, t, level, vpn)
    decreases level
  {
    hide SamePages, Missing, F.FreeCount, F.Inv, Tree, NextTable;
    var i := Index(vpn, level);
    FreeNat(s.frames);
    NullFrame(s);
    var (s1, next) := NextTable(s, t, i);
    if !Present(s.mem[t][i]) && F.FreeCount(s.frames) == 0 {
      NullEntered(s, t, i);
      NullPath(s1, level - 1, vpn);
      LinkFields(0);
      var s2 := PathTo(s1, 0, level - 1, vpn).0;
      TableNotNull(s, t);
      assert t in s2.mem <==> t in s1.mem;
    } else {
      NextTableOk(s, root, t, level, vpn);
      NextTableGrows(s, root, t, level, vpn);
      NullBreaks(s1, root, next, level - 1, vpn);
      PathLeads(s1, root, next, level - 1, vpn, t, level, next);
    }
  }

  lemma TableNotNull(s: Space, t: nat)
    requires SpaceOk(s) && t in s.own
    ensures t != 0
  {
    assert TableOk(s.mem, s.own, t);
  }

  /** A write to the table at the address 0 does not mend a path. */
  lemma {:induction false} StillBroken(mem: map<nat, seq<nat>>, t: nat, level: nat, vpn: nat, i: nat, e: nat)
    requires Broken(mem, t, level, vpn) && IsTable(mem, 0) && i < ENTRIES
    ensures Broken(SetEntry(mem, 0, i, e), t, level, vpn)
    decreases level
  {
    if t != 0 { StillBroken(mem, Addr(mem[t][Index(vpn, level)]), level - 1, vpn, i, e); }
  }

  /** `vmm_map_page` leaves a tree of tables under the root if and only if at least as many frames were
      free as tables were missing; otherwise, and only then, a table is placed at the address 0. */
  lemma MapExactly(s: Space, root: nat, virt: nat, phys: nat, flags: nat)
    requires SpaceOk(s) && IsRoot(s, root) && Small(s, root, Vpn(virt))
    ensures var short := Missing(s.mem, root, 4, Vpn(virt)) > F.FreeCount(s.frames);
            var s' := MapPage(s, root, virt, phys, flags);
            && (GetsNull(s, root, 4, Vpn(virt)) <==> short)
            && (Broken(s'.mem, root, 4, Vpn(virt)) <==> short)
            && ((exists own :: root in own && own[root] == Node(4, 0) && Tree(s'.mem, own)) <==> !short)
  {
    hide SpaceOk, SamePages, Missing, F.FreeCount, Plain, Tree, PathTo, NullTable, Grows, GetsNull;
    SpaceParts(s);
    var vpn := Vpn(virt);
    var s' := MapPage(s, root, virt, phys, flags);
    RootStands(s, root, virt);
    GetsNullExactly(s, root, root, 4, vpn);
    if GetsNull(s, root, 4, vpn) {
      NullBreaks(s, root, root, 4, vpn);
      var s1 := PathTo(s, root, 4, vpn).0;
      if IsTable(s1.mem, 0) { StillBroken(s1.mem, root, 4, vpn, Index(vpn, 1), Leaf(phys, flags)); }
      forall own | root in own && own[root] == Node(4, 0) && Tree(s'.mem, own) ensures false {
        BrokenIsNoTree(s'.mem, own, root, 4, vpn);
      }
    } else {
      MapRefines(s, root, virt, phys, flags);
      SpaceParts(s');
      BrokenIsNoTree(s'.mem, s'.own, root, 4, vpn);
    }
  }

  lemma SpaceParts(s: Space)
    requires SpaceOk(s)
    ensures Tree(s.mem, s.own) && F.Inv(s.frames) && F.ZeroTaken(s.frames)
  {
  }

  /** Two frames, both used, and an empty root table in the second. */
  const FULL: Space :=
    Space(map[0 := ZeroTable(), PAGE := ZeroTable()], map[PAGE := Node(4, 0)], F.Frames([true, true], 2, 2))

  /** There any mapping fails, without a sign: the root then leads to the address 0. */
  lemma FullFails(virt: nat, phys: nat, flags: nat)
    ensures SpaceOk(FULL) && IsRoot(FULL, PAGE) && Small(FULL, PAGE, Vpn(virt))
    ensures Broken(MapPage(FULL, PAGE, virt, phys, flags).mem, PAGE, 4, Vpn(virt))
  {
    assert F.CountSet([true, true]) == 2 by { F.CountFull([true, true]); }
    assert TableOk(FULL.mem, FULL.own, PAGE);
    forall i: nat | i < |FULL.frames.bits| ensures Readable(FULL, i) { assert i == 0 || i == 1; }
    assert FrameOk(FULL, PAGE);
    IndexMacros(virt);
    MapExactly(FULL, PAGE, virt, phys, flags);
  }

  // ----- vmm_unmap_page -----

  /** The page table of `vpn`, when all tables above it are present. */
  function PageTable(mem: map<nat, seq<nat>>, t: nat, level: nat, vpn: nat): Option<nat>
    decreases level
  {
    if level == 0 || !IsTable(mem, t) then None
    else if level == 1 then Some(t)
    else if !Present(mem[t][Index(vpn, level)]) then None
    else PageTable(mem, Addr(mem[t][Index(vpn, level)]), level - 1, vpn)
  }

  lemma {:induction false} PageTableOk(mem: map<nat, seq<nat>>, own: map<nat, Node>, t: nat, level: nat, vpn: nat, e: nat)
    requires Tree(mem, own) && On(own, t, level, vpn) && 1 <= level && Plain(mem, t, level, vpn)
    ensures match PageTable(mem, t, level, vpn)
            case None => Walk(mem, t, level, vpn) == None
            case Some(pt) =>
              && On(own, pt, 1, vpn) && IsTable(mem, pt)
              && Walk(mem, t, level, vpn) == (if Present(mem[pt][Index(vpn, 1)]) then Some(mem[pt][Index(vpn, 1)]) else None)
              && Walk(SetEntry(mem, pt, Index(vpn, 1), e), t, level, vpn) == (if Present(e) then Some(e) else None)
              && Plain(SetEntry(mem, pt, Index(vpn, 1), e), t, level, vpn)
    decreases level
  {
    assert TableOk(mem, own, t) && EntryOk(mem, own, t, Index(vpn, level));
    if level > 1 && Present(mem[t][Index(vpn, level)]) {
      PageTableOk(mem, own, Addr(mem[t][Index(vpn, level)]), level - 1, vpn, e);
    }
  }

  /** A table on the path of a walk can be read, and its present entry leads on along the path. */
  lemma OnTable(s: Space, t: nat, level: nat, vpn: nat)
    requires SpaceOk(s) && On(s.own, t, level, vpn) && 1 <= level && Plain(s.mem, t, level, vpn)
    ensures IsTable(s.mem, t)
    ensures level > 1 && Present(s.mem[t][Index(vpn, level)]) ==>
              var next := Addr(s.mem[t][Index(vpn, level)]);
              On(s.own, next, level - 1, vpn) && Plain(s.mem, next, level - 1, vpn)
  {
    assert TableOk(s.mem, s.own, t) && EntryOk(s.mem, s.own, t, Index(vpn, level));
  }

  /** `vmm_unmap_page`. */
  function UnmapPage(s: Space, root: nat, virt: nat): Space {
    match PageTable(s.mem, root, 4, Vpn(virt))
    case None => s
    case Some(pt) =>
      if IsTable(s.mem, pt) && Present(s.mem[pt][Index(Vpn(virt), 1)]) then
        s.(mem := SetEntry(s.mem, pt, Index(Vpn(virt), 1), 0))
      else s
  }

  /** `vmm_unmap_page` refines the removal of the page of `virt` from the finite map. */
  lemma UnmapRefines(s: Space, root: nat, virt: nat)
    requires SpaceOk(s) && IsRoot(s, root) && Small(s, root, Vpn(virt))
    ensures var s' := UnmapPage(s, root, virt);
            && SpaceOk(s') && IsRoot(s', root) && s'.own == s.own && s'.frames == s.frames
            && forall v: nat {:trigger Pages(s', root, v)} :: Small(s, root, v) ==>
                 Small(s', root, v) && Pages(s', root, v) == if v == Vpn(virt) then None else Pages(s, root, v)
  {
    hide Walk, SetEntry, Plain, SpaceOk, Tree;
    SpaceParts(s);
    var vpn := Vpn(virt);
    RootOn(s.own, root, vpn);
    PageTableOk(s.mem, s.own, root, 4, vpn, 0);
    var s' := UnmapPage(s, root, virt);
    var pt := PageTable(s.mem, root, 4, vpn);
    if pt.Some? && Present(s.mem[pt.value][Index(vpn, 1)]) {
      LeafWriteOk(s, pt.value, Index(vpn, 1), 0);
      assert s'.mem == SetEntry(s.mem, pt.value, Index(vpn, 1), 0);
      assert Small(s', root, vpn) && Pages(s', root, vpn) == None;
      forall v: nat | Small(s, root, v) && v != vpn ensures Small(s', root, v) && Pages(s', root, v) == Pages(s, root, v) {
        LeafWritePages(s, root, pt.value, vpn, 0, v);
      }
    } else {
      assert s' == s && Pages(s, root, vpn) == None;
      SamePagesTrans(s, s, s, root);
    }
  }

  /** `vmm_virt_to_phys`: 0 for an unmapped page. */
  function Translate(s: Space, root: nat, virt: nat): nat {
    match Pages(s, root, Vpn(virt))
    case None => 0
    case Some(e) => Addr(e) + virt % PAGE
  }

  /** After a map, the page translates to its frame and every other small page as before; after an
      unmap, to nothing. */
  lemma MapThenTranslate(s: Space, root: nat, virt: nat, phys: nat, flags: nat, other: nat)
    requires CanMap(s, root, virt) && Small(s, root, Vpn(other))
    ensures var s' := MapPage(s, root, virt, phys, flags);
            var s'' := UnmapPage(s', root, virt);
            && Translate(s', root, virt) == Addr(phys) + virt % PAGE
            && Translate(s'', root, virt) == 0
            && (Vpn(other) != Vpn(virt) ==>
                  Translate(s', root, other) == Translate(s, root, other) == Translate(s'', root, other))
  {
    hide SpaceOk, Walk, PathTo, Leaf, UnmapPage, MapPage, Plain, Missing, F.FreeCount, Grows, Addr;
    SpaceParts(s);
    var s' := MapPage(s, root, virt, phys, flags);
    MapRefines(s, root, virt, phys, flags);
    assert Pages(s', root, Vpn(virt)) == Some(Leaf(phys, flags));
    assert Vpn(other) != Vpn(virt) ==> Pages(s', root, Vpn(other)) == Pages(s, root, Vpn(other));
    UnmapRefines(s', root, virt);
    var s'' := UnmapPage(s', root, virt);
    assert Pages(s'', root, Vpn(virt)) == None;
    assert Vpn(other) != Vpn(virt) ==> Pages(s'', root, Vpn(other)) == Pages(s', root, Vpn(other));
    LeafFields(phys, flags);
  }
}
