/** How each elementary step moves the frame-ownership invariant, and the ledger that
    compares a later state with an earlier one. */
module Ownership {
  import opened Words
  import opened Frames
  import opened Paging
  import opened Memory

  /** map_page of a used frame that nobody owns. */
  lemma MapInv(m: Mem, v: nat, f: nat, flags: nat)
    requires Inv(m) && Tracked(v) && f < PAGES && flags < 4096 && flags % 2 == 1
    requires v < KERNEL_FIRST <==> flags / 4 % 2 == 1
    requires Used(m.pmm, f) && Unowned(m.mmu, f)
    ensures Inv(MapPage(m, v, f, flags))
  {
    hide Pde, Pte, At, Present, FrameOf, UserBit, Writable, Entry, MapPage, UsedSet, TableSet;
    MapPageSpec(m, v, f, flags);
    var r := MapPage(m, v, f, flags);
    if CanMap(m, v) {
      assert forall t: nat | Used(m.pmm, t) || t in NewTable(m, v) :: Used(r.pmm, t) by {
        UsedMember(m.pmm); UsedMember(r.pmm);
      }
      TablesAfterMap(m, v, f, flags);
      MapSeparate(m, v, f, flags);
      forall w: nat | Occupied(r.mmu, w)
        ensures Used(r.pmm, Frm(r.mmu, w))
      {
        assert w != v ==> Frm(r.mmu, w) == Frm(m.mmu, w) && Occupied(m.mmu, w);
      }
    }
  }

  lemma MapSeparate(m: Mem, v: nat, f: nat, flags: nat)
    requires Inv(m) && Tracked(v) && f < PAGES && flags < 4096 && CanMap(m, v)
    requires Used(m.pmm, f) && Unowned(m.mmu, f)
    ensures Separate(MapPage(m, v, f, flags).mmu)
  {
    hide Pde, Pte, At, Present, FrameOf, UserBit, Writable, Entry, MapPage, UsedSet, TableSet, IsTable, TablesOk;
    hide KernelPrivate, UserTables;
    MapPageSpec(m, v, f, flags);
    var r := MapPage(m, v, f, flags);
    TablesAfterMap(m, v, f, flags);
    if NewTable(m, v) != {} {
      FreeIsUnowned(m, AllocFrame(m.pmm).frame);
    }
    assert forall w: nat | Occupied(r.mmu, w) && w != v :: Occupied(m.mmu, w) && Frm(r.mmu, w) == Frm(m.mmu, w);
    assert Frm(r.mmu, v) == f;
  }

  lemma UsedMember(p: Pmm)
    ensures forall f: nat :: f in UsedSet(p) <==> Used(p, f)
  {
  }

  lemma TablesAfterMap(m: Mem, v: nat, f: nat, flags: nat)
    requires Inv(m) && v < PAGES && f < PAGES && flags < 4096 && CanMap(m, v)
    ensures forall g: nat :: IsTable(MapPage(m, v, f, flags).mmu, g) <==> IsTable(m.mmu, g) || g in NewTable(m, v)
  {
    hide Pde, Pte, At, Present, FrameOf, UserBit, Writable, Entry, MapPage;
    MapPageSpec(m, v, f, flags);
    TableMember(m.mmu);
    TableMember(MapPage(m, v, f, flags).mmu);
  }

  lemma TableMember(u: Mmu)
    ensures forall f: nat :: IsTable(u, f) <==> f == u.pd || f in TableSet(u)
  {
  }

  /** unmap_page removes one page from the abstract map and nothing else. */
  lemma UnmapSpec(u: Mmu, v: nat)
    requires TablesOk(u) && v < PAGES
    ensures var r := Unmap(u, v);
      && r.pd == u.pd && TablesOk(r)
      && (forall i: nat | i < ENTRIES :: Pde(r, i) == Pde(u, i))
      && !Mapped(r, v)
      && (Mapped(u, v) || HasTable(u, v) ==> Pte(r, v) == 0)
      && (forall w: nat | w < PAGES && w != v :: Pte(r, w) == Pte(u, w))
      && (forall f: nat | !IsTable(u, f) :: At(r, f) == At(u, f))
      && TableSet(r) == TableSet(u)
      && (forall f: nat :: IsTable(r, f) == IsTable(u, f))
  {
    if HasTable(u, v) {
      SetPteSpec(u, v, 0);
      SameTables(u, Unmap(u, v));
    }
  }

  lemma UnmapInv(m: Mem, v: nat)
    requires Inv(m) && v < PAGES
    ensures Inv(Mem(m.pmm, Unmap(m.mmu, v)))
    ensures Occupied(m.mmu, v) ==> Unowned(Unmap(m.mmu, v), Frm(m.mmu, v))
  {
    hide Pde, Pte, At, FrameOf, UserBit, Writable, Unmap, Present;
    UnmapSpec(m.mmu, v);
    var r := Unmap(m.mmu, v);
    assert forall w: nat | Occupied(r, w) :: Occupied(m.mmu, w) && Frm(r, w) == Frm(m.mmu, w) && w != v;
  }

  /** Clearing the bit of a frame without an owner, or setting any bit. */
  lemma PmmInv(m: Mem, p: Pmm)
    requires Inv(m) && forall f: nat | Used(m.pmm, f) && !Unowned(m.mmu, f) :: Used(p, f)
    ensures Inv(Mem(p, m.mmu))
  {
    hide Pde, Pte, At, FrameOf, UserBit, Writable, Present;
    assert IsTable(m.mmu, m.mmu.pd);
    forall i: nat | i < ENTRIES && Present(Pde(m.mmu, i))
      ensures Used(p, TableOf(m.mmu, i))
    {
      assert IsTable(m.mmu, TableOf(m.mmu, i));
    }
  }

  lemma FreeInv(m: Mem, f: nat)
    requires Inv(m) && Unowned(m.mmu, f)
    ensures Inv(Mem(FreeFrame(m.pmm, f), m.mmu))
  {
    hide Pde, Pte, At, FrameOf, UserBit, Writable, Present;
    UsedMember(m.pmm);
    UsedMember(FreeFrame(m.pmm, f));
    PmmInv(m, FreeFrame(m.pmm, f));
  }

  lemma AllocInv(m: Mem)
    requires Inv(m)
    ensures var g := AllocFrame(m.pmm);
      Inv(Mem(g.pmm, m.mmu)) && (g.frame != 0 ==> Used(g.pmm, g.frame) && Unowned(m.mmu, g.frame))
  {
    hide Pde, Pte, At, FrameOf, UserBit, Writable, Present;
    var g := AllocFrame(m.pmm);
    UsedMember(m.pmm);
    UsedMember(g.pmm);
    if g.frame == 0 {
      AllocFails(m.pmm);
    } else {
      FreeIsUnowned(m, g.frame);
      PmmInv(m, g.pmm);
    }
  }

  // ---- The ledger ----

  ghost function FramesOf(u: Mmu, pages: set<nat>): set<nat> {
    set v | v in pages && Occupied(u, v) :: Frm(u, v)
  }

  /** `m` differs from `m0` only in: the tracked `pages`, unmapped before and mapped now to
      frames that were free before; tables installed in absent slots; and `stray` frames
      that were taken but back no page. */
  ghost predicate Grew(m0: Mem, m: Mem, pages: set<nat>, stray: set<nat>) {
    GrewPages(m0, m, pages) && GrewFrames(m0, m, pages, stray)
  }

  ghost predicate GrewPages(m0: Mem, m: Mem, pages: set<nat>) {
    && m.pmm.base == m0.pmm.base && |m.pmm.used| == |m0.pmm.used| && m.mmu.pd == m0.mmu.pd
    && (forall i: nat | i < ENTRIES && Present(Pde(m0.mmu, i)) :: Pde(m.mmu, i) == Pde(m0.mmu, i))
    && (forall v: nat | v < PAGES && v !in pages ::
      Mapped(m.mmu, v) == Mapped(m0.mmu, v) && (Mapped(m.mmu, v) ==> Pte(m.mmu, v) == Pte(m0.mmu, v)))
    && (forall v: nat | v in pages :: Occupied(m.mmu, v) && !Mapped(m0.mmu, v))
  }

  ghost predicate GrewFrames(m0: Mem, m: Mem, pages: set<nat>, stray: set<nat>) {
    && TableSet(m0.mmu) <= TableSet(m.mmu)
    && UsedSet(m.pmm) == UsedSet(m0.pmm) + (TableSet(m.mmu) - TableSet(m0.mmu)) + FramesOf(m.mmu, pages) + stray
    && FramesOf(m.mmu, pages) !! UsedSet(m0.pmm)
    && stray !! UsedSet(m0.pmm) && stray !! TableSet(m.mmu)
  }

  lemma GrewRefl(m: Mem)
    ensures Grew(m, m, {}, {})
  {
  }

  lemma GrewAlloc(m0: Mem, m: Mem, pages: set<nat>, stray: set<nat>)
    requires Inv(m0) && Inv(m) && Grew(m0, m, pages, stray) && AllocFrame(m.pmm).frame != 0
    ensures var g := AllocFrame(m.pmm);
      Grew(m0, Mem(g.pmm, m.mmu), pages, stray + {g.frame})
  {
    hide Pde, Pte, At, FrameOf, UserBit, Writable, Present;
    var g := AllocFrame(m.pmm);
    UsedMember(m.pmm);
    UsedMember(g.pmm);
    AllocInv(m);
    TableMember(m.mmu);
  }

  lemma GrewMap(m0: Mem, m: Mem, pages: set<nat>, stray: set<nat>, v: nat, f: nat, flags: nat)
    requires Inv(m0) && Inv(m) && Grew(m0, m, pages, stray) && f in stray && f < PAGES && flags < 4096 && flags % 2 == 1
    requires Tracked(v) && !Mapped(m0.mmu, v) && v !in pages && CanMap(m, v) && Unowned(m.mmu, f)
    ensures Grew(m0, MapPage(m, v, f, flags), pages + {v}, stray - {f})
  {
    GrewMapPages(m0, m, pages, v, f, flags);
    GrewMapFrames(m0, m, pages, stray, v, f, flags);
  }

  lemma GrewMapPages(m0: Mem, m: Mem, pages: set<nat>, v: nat, f: nat, flags: nat)
    requires Inv(m) && GrewPages(m0, m, pages) && f < PAGES && flags < 4096 && flags % 2 == 1
    requires Tracked(v) && !Mapped(m0.mmu, v) && v !in pages && CanMap(m, v)
    ensures GrewPages(m0, MapPage(m, v, f, flags), pages + {v})
  {
    hide Pde, Pte, At, FrameOf, UserBit, Writable, Present, Entry, MapPage;
    MapPageSpec(m, v, f, flags);
  }

  lemma GrewMapFrames(m0: Mem, m: Mem, pages: set<nat>, stray: set<nat>, v: nat, f: nat, flags: nat)
    requires Inv(m0) && Inv(m) && Grew(m0, m, pages, stray) && f in stray && f < PAGES && flags < 4096 && flags % 2 == 1
    requires Tracked(v) && v !in pages && CanMap(m, v) && Unowned(m.mmu, f)
    ensures GrewFrames(m0, MapPage(m, v, f, flags), pages + {v}, stray - {f})
  {
    hide Pde, Pte, At, FrameOf, UserBit, Writable, Present, Entry, MapPage, CanMap, NewTable, UsedSet, TableSet;
    hide Unowned;
    MapPageSpec(m, v, f, flags);
    var r := MapPage(m, v, f, flags);
    var nt := NewTable(m, v);
    assert FramesOf(r.mmu, pages + {v}) == FramesOf(m.mmu, pages) + {f} by {
      assert forall w: nat | w in pages :: Frm(r.mmu, w) == Frm(m.mmu, w) && Occupied(r.mmu, w);
      assert Frm(r.mmu, v) == f && Occupied(r.mmu, v);
    }
    InvSets(m0);
    FreshTable(m, v);
    LedgerSets(UsedSet(m0.pmm), UsedSet(m.pmm), TableSet(m0.mmu), TableSet(m.mmu),
      FramesOf(m.mmu, pages), stray, nt, f);
  }

  lemma InvSets(m: Mem)
    requires Inv(m)
    ensures TableSet(m.mmu) <= UsedSet(m.pmm)
  {
  }

  lemma FreshTable(m: Mem, v: nat)
    requires v < PAGES
    ensures NewTable(m, v) !! UsedSet(m.pmm)
  {
  }

  lemma LedgerSets(u0: set<nat>, u: set<nat>, t0: set<nat>, t: set<nat>,
      fs: set<nat>, stray: set<nat>, nt: set<nat>, f: nat)
    requires t0 <= u0 && t0 <= t && nt !! u && f in stray && stray !! u0
    requires u == u0 + (t - t0) + fs + stray
    ensures u + nt == u0 + ((t + nt) - t0) + (fs + {f}) + (stray - {f})
  {
  }

  lemma GrewUnmapFree(m0: Mem, m: Mem, pages: set<nat>, stray: set<nat>, v: nat)
    requires Inv(m0) && Inv(m) && Grew(m0, m, pages, stray) && v in pages && Frm(m.mmu, v) !in stray
    ensures Grew(m0, Mem(FreeFrame(m.pmm, Frm(m.mmu, v)), Unmap(m.mmu, v)), pages - {v}, stray)
  {
    hide Pde, Pte, At, FrameOf, UserBit, Writable, Present, Unmap, FreeFrame, UsedSet, TableSet, KernelPrivate;
    hide UserTables;
    UnmapSpec(m.mmu, v);
    var f := Frm(m.mmu, v);
    var r := Mem(FreeFrame(m.pmm, f), Unmap(m.mmu, v));
    assert forall w: nat | w in pages && w != v ::
      Frm(r.mmu, w) == Frm(m.mmu, w) && Occupied(r.mmu, w) && Frm(m.mmu, w) != f;
    assert FramesOf(m.mmu, pages) == FramesOf(m.mmu, pages - {v}) + {f};
    assert FramesOf(r.mmu, pages - {v}) == FramesOf(m.mmu, pages - {v});
    assert f !in FramesOf(m.mmu, pages - {v});
    TableMember(m.mmu);
  }

  lemma GrewFree(m0: Mem, m: Mem, pages: set<nat>, stray: set<nat>, f: nat)
    requires Inv(m0) && Inv(m) && Grew(m0, m, pages, stray) && f in stray && Unowned(m.mmu, f)
    ensures Grew(m0, Mem(FreeFrame(m.pmm, f), m.mmu), pages, stray - {f})
  {
    hide Pde, Pte, At, FrameOf, UserBit, Writable, Present;
    assert f !in FramesOf(m.mmu, pages);
  }
}
