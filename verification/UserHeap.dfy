/** user_sbrk and user_brk over the page tables (kernel/elf.c:23-94). */
module UserHeap {
  import opened Words
  import opened Frames
  import opened Paging
  import opened Memory
  import opened Ownership

  const USER_BASE := 0x0804_8000
  const USER_HEAP_LIMIT := 0xBFFF_F000
  const FAIL := 0xFFFF_FFFF     // (void *)-1

  function AlignUp(a: u32): (r: u32)
    ensures a <= 0xFFFF_F000 ==> a <= r < a + 4096 && r % 4096 == 0
  {
    Wrap32(a + 4095) / 4096 * 4096
  }

  /** Give back one page if it is mapped. */
  function ReleasePage(m: Mem, v: nat): Mem
    requires v < PAGES
  {
    var phys := Translate(m.mmu, v * 4096);
    if phys != 0 then Mem(FreeFrame(m.pmm, phys / 4096), Unmap(m.mmu, v)) else m
  }

  /** The shrink loop, and also the rollback loop of a failed grow. */
  function Release(m: Mem, lo: nat, hi: nat): Mem
    requires lo <= hi <= PAGES
    decreases hi - lo
  {
    if lo == hi then m else Release(ReleasePage(m, lo), lo + 1, hi)
  }

  datatype Grown = Grown(mem: Mem, ok: bool)

  /** The grow loop from page `v`, having started at `lo`. */
  function Grow(m: Mem, lo: nat, v: nat, hi: nat): Grown
    requires lo <= v <= hi <= PAGES
    decreases hi - v
  {
    if v == hi then Grown(m, true)
    else
      var g := AllocFrame(m.pmm);
      if g.frame == 0 then Grown(Release(m, lo, v), false)
      else Grow(MapPage(Mem(g.pmm, m.mmu), v, g.frame, 7), lo, v + 1, hi)
  }

  predicate UserPages(lo: nat, hi: nat) {
    USER_FIRST <= lo <= hi <= KERNEL_FIRST
  }

  predicate AtLeast(v: nat, lo: nat) { lo <= v }

  function Range(lo: nat, hi: nat): set<nat> {
    set v: nat | v < hi && AtLeast(v, lo)
  }

  // ---- Ownership is kept by every call ----

  lemma ReleasePageStep(m: Mem, v: nat)
    requires Inv(m) && Tracked(v)
    ensures Mapped(m.mmu, v) ==> ReleasePage(m, v) == Mem(FreeFrame(m.pmm, Frm(m.mmu, v)), Unmap(m.mmu, v))
    ensures !Mapped(m.mmu, v) ==> ReleasePage(m, v) == m
    ensures Inv(ReleasePage(m, v))
  {
    hide Pde, Pte, At, UserBit, Writable, Unmap, FreeFrame;
    if Mapped(m.mmu, v) {
      assert Occupied(m.mmu, v) && Used(m.pmm, Frm(m.mmu, v));
      assert Translate(m.mmu, v * 4096) == Frm(m.mmu, v) * 4096 by { assert v * 4096 / 4096 == v; }
      UnmapInv(m, v);
      FreeInv(Mem(m.pmm, Unmap(m.mmu, v)), Frm(m.mmu, v));
    } else {
      assert Translate(m.mmu, v * 4096) == 0 by { assert v * 4096 / 4096 == v; }
    }
  }

  lemma {:induction false} ReleaseInv(m: Mem, lo: nat, hi: nat)
    requires Inv(m) && UserPages(lo, hi)
    ensures Inv(Release(m, lo, hi))
    decreases hi - lo
  {
    if lo < hi {
      ReleasePageStep(m, lo);
      ReleaseInv(ReleasePage(m, lo), lo + 1, hi);
    }
  }

  /** One grow iteration: a fresh frame is taken and mapped user-writable at `v`. */
  lemma GrowPageInv(m: Mem, v: nat)
    requires Inv(m) && UserPages(v, v + 1) && AllocFrame(m.pmm).frame != 0
    ensures var g := AllocFrame(m.pmm);
      Inv(Mem(g.pmm, m.mmu)) && Unowned(m.mmu, g.frame) && Inv(MapPage(Mem(g.pmm, m.mmu), v, g.frame, 7))
  {
    AllocInv(m);
    var g := AllocFrame(m.pmm);
    MapInv(Mem(g.pmm, m.mmu), v, g.frame, 7);
  }

  lemma {:induction false} GrowInv(m: Mem, lo: nat, v: nat, hi: nat)
    requires Inv(m) && UserPages(lo, v) && UserPages(v, hi)
    ensures Inv(Grow(m, lo, v, hi).mem)
    decreases hi - v
  {
    if v < hi {
      var g := AllocFrame(m.pmm);
      if g.frame == 0 {
        ReleaseInv(m, lo, v);
      } else {
        GrowPageInv(m, v);
        GrowInv(MapPage(Mem(g.pmm, m.mmu), v, g.frame, 7), lo, v + 1, hi);
      }
    }
  }

  // ---- Exactly when a grow maps everything or undoes everything ----

  /** Page `k` of a grow that starts at `lo` is the first of its table and that table is absent. */
  predicate NeedsTable(u: Mmu, lo: nat, k: nat)
    requires k < PAGES
  {
    !HasTable(u, k) && (k == lo || k % ENTRIES == 0)
  }

  /** Frames that pages lo..k consume, tables included. */
  function Cost(u: Mmu, lo: nat, k: nat): nat
    requires lo <= k <= PAGES
    decreases k
  {
    if k == lo then 0 else Cost(u, lo, k - 1) + 1 + (if NeedsTable(u, lo, k - 1) then 1 else 0)
  }

  /** The last free frame goes to a page whose table is still missing. */
  predicate StrandsAt(m: Mem, lo: nat, k: nat)
    requires lo <= k < PAGES
  {
    NeedsTable(m.mmu, lo, k) && Clear(m.pmm.used) == Cost(m.mmu, lo, k) + 1
  }

  ghost predicate Strands(m: Mem, lo: nat, hi: nat)
    requires lo <= hi <= PAGES
  {
    exists k: nat :: lo <= k < hi && StrandsAt(m, lo, k)
  }

  /** Pages lo..v have been mapped since `m0`, at their exact cost. */
  ghost predicate Midway(m0: Mem, m: Mem, lo: nat, v: nat)
    requires lo <= v <= PAGES
  {
    && Inv(m0) && Inv(m) && Grew(m0, m, Range(lo, v), {})
    && Clear(m.pmm.used) == Clear(m0.pmm.used) - Cost(m0.mmu, lo, v)
    && Reached(m0.mmu, m.mmu, lo, v)
  }

  /** Tables exist up to page `v - 1` and are untouched above it; the new pages are user-writable. */
  ghost predicate Reached(u0: Mmu, u: Mmu, lo: nat, v: nat)
    requires lo <= v <= PAGES
  {
    && (v > lo ==> HasTable(u, v - 1))
    && (forall i: nat | i < ENTRIES && (i > v / ENTRIES || (i == v / ENTRIES && (v % ENTRIES == 0 || v == lo))) ::
      Pde(u, i) == Pde(u0, i))
    && (forall w: nat | lo <= w < v :: Pte(u, w) == Entry(Frm(u, w), 7))
  }

  lemma MidwayTable(m0: Mem, m: Mem, lo: nat, v: nat)
    requires lo <= v < PAGES && Midway(m0, m, lo, v)
    ensures HasTable(m.mmu, v) <==> !NeedsTable(m0.mmu, lo, v)
  {
    hide Pde, Pte, At, UserBit, Writable, Present, FrameOf;
    if v > lo && v % ENTRIES != 0 {
      assert (v - 1) / ENTRIES == v / ENTRIES;
    }
  }

  lemma MidwayStep(m0: Mem, m: Mem, lo: nat, v: nat)
    requires UserPages(lo, v) && UserPages(v, v + 1) && Midway(m0, m, lo, v) && !Mapped(m0.mmu, v)
    requires AllocFrame(m.pmm).frame != 0
    requires CanMap(Mem(AllocFrame(m.pmm).pmm, m.mmu), v)
    ensures var g := AllocFrame(m.pmm);
      Midway(m0, MapPage(Mem(g.pmm, m.mmu), v, g.frame, 7), lo, v + 1)
  {
    hide Pde, Pte, At, UserBit, Writable, Present, FrameOf, MapPage, AllocFrame, UsedSet, TableSet, Entry, Separate;
    hide KernelPrivate, UserTables, Unowned, GrewPages, GrewFrames, Reached;
    var g := AllocFrame(m.pmm);
    var m1 := Mem(g.pmm, m.mmu);
    GrowPageInv(m, v);
    GrewAlloc(m0, m, Range(lo, v), {});
    GrewMap(m0, m1, Range(lo, v), {} + {g.frame}, v, g.frame, 7);
    assert Range(lo, v) + {v} == Range(lo, v + 1);
    assert {} + {g.frame} - {g.frame} == {};
    MidwayTable(m0, m, lo, v);
    StepCount(m, v);
    ReachedStep(m0.mmu, m1, lo, v, g.frame);
  }

  lemma ReachedStep(u0: Mmu, m: Mem, lo: nat, v: nat, f: nat)
    requires lo <= v < PAGES && Inv(m) && Reached(u0, m.mmu, lo, v) && CanMap(m, v) && f < PAGES
    ensures Reached(u0, MapPage(m, v, f, 7).mmu, lo, v + 1)
  {
    hide Pde, Pte, At, UserBit, Writable, Present, FrameOf, MapPage, UsedSet, TableSet, Entry;
    MapPageSpec(m, v, f, 7);
    var r := MapPage(m, v, f, 7);
    assert forall w: nat | lo <= w < v :: Pte(r.mmu, w) == Pte(m.mmu, w) && Frm(r.mmu, w) == Frm(m.mmu, w);
    if (v + 1) % ENTRIES == 0 {
      assert (v + 1) / ENTRIES == v / ENTRIES + 1;
    } else {
      assert (v + 1) / ENTRIES == v / ENTRIES;
    }
  }

  lemma StepCount(m: Mem, v: nat)
    requires v < PAGES && AllocFrame(m.pmm).frame != 0
    ensures var g := AllocFrame(m.pmm); var r := MapPage(Mem(g.pmm, m.mmu), v, g.frame, 7);
      && (HasTable(m.mmu, v) ==> Clear(r.pmm.used) == Clear(m.pmm.used) - 1)
      && (!HasTable(m.mmu, v) && CanMap(Mem(g.pmm, m.mmu), v) ==> Clear(r.pmm.used) == Clear(m.pmm.used) - 2)
      && (CanMap(Mem(g.pmm, m.mmu), v) <==> HasTable(m.mmu, v) || Clear(m.pmm.used) >= 2)
  {
    hide Pde, Pte, At, UserBit, Writable, Present, FrameOf, Install, SetPte, Entry;
    AllocFails(m.pmm);
    AllocFails(AllocFrame(m.pmm).pmm);
  }

  /** Undoing the mapped part leaves only the new tables (and the stray frames) behind. */
  lemma {:induction false} ReleaseRestores(m0: Mem, m: Mem, pages: set<nat>, lo: nat, hi: nat, stray: set<nat>)
    requires Inv(m0) && Inv(m) && UserPages(lo, hi) && Grew(m0, m, pages, stray)
    requires forall v: nat | lo <= v < hi :: v in pages || !Mapped(m.mmu, v)
    requires forall v: nat | Occupied(m.mmu, v) :: Frm(m.mmu, v) !in stray
    ensures Grew(m0, Release(m, lo, hi), pages - Range(lo, hi), stray)
    ensures forall v: nat | Occupied(Release(m, lo, hi).mmu, v) :: Frm(Release(m, lo, hi).mmu, v) !in stray
    decreases hi - lo
  {
    hide Pde, Pte, At, UserBit, Writable, Present, FrameOf, FreeFrame, Unmap, ReleasePage, UsedSet, TableSet, FramesOf;
    if lo == hi {
      assert pages - Range(lo, hi) == pages;
    } else {
      ReleasePageStep(m, lo);
      if Mapped(m.mmu, lo) {
        GrewUnmapFree(m0, m, pages, stray, lo);
        UnmapSpec(m.mmu, lo);
      }
      var r := ReleasePage(m, lo);
      assert forall v: nat | Occupied(r.mmu, v) :: Occupied(m.mmu, v) && Frm(r.mmu, v) == Frm(m.mmu, v);
      var rest := if Mapped(m.mmu, lo) then pages - {lo} else pages;
      ReleaseRestores(m0, r, rest, lo + 1, hi, stray);
      assert rest - Range(lo + 1, hi) == pages - Range(lo, hi);
    }
  }

  /** As Grew, with one frame taken that backs no page. */
  ghost predicate Lost(m0: Mem, m: Mem, pages: set<nat>) {
    Inv(m) && exists f: nat :: Grew(m0, m, pages, {f}) && OffPages(m.mmu, f)
  }

  /** No tracked page is mapped to the frame. */
  ghost predicate OffPages(u: Mmu, f: nat) { forall v: nat | Occupied(u, v) :: Frm(u, v) != f }

  /** The three outcomes of growing over unmapped pages lo..hi, decided by the number of free frames. */
  ghost predicate GrowOutcome(m0: Mem, lo: nat, hi: nat, r: Grown)
    requires lo <= hi <= PAGES
  {
    && (Clear(m0.pmm.used) >= Cost(m0.mmu, lo, hi) ==> r.ok && Midway(m0, r.mem, lo, hi))
    && (Clear(m0.pmm.used) < Cost(m0.mmu, lo, hi) && !Strands(m0, lo, hi) ==> !r.ok && Grew(m0, r.mem, {}, {}))
    && (forall k: nat | lo <= k < hi && StrandsAt(m0, lo, k) ::
          r.ok == (k == hi - 1) && Lost(m0, r.mem, if r.ok then Range(lo, k) else {}))
  }

  lemma {:induction false} CostMonotone(u: Mmu, lo: nat, j: nat, k: nat)
    requires lo <= j <= k <= PAGES
    ensures Cost(u, lo, j) + (k - j) <= Cost(u, lo, k)
    ensures j < k && NeedsTable(u, lo, j) ==> Cost(u, lo, j) + 2 <= Cost(u, lo, k)
    decreases k
  {
    if j < k {
      CostMonotone(u, lo, j, k - 1);
    }
  }

  /** At most one page can strand a frame. */
  lemma StrandUnique(m: Mem, lo: nat, j: nat, k: nat)
    requires lo <= j < PAGES && lo <= k < PAGES && StrandsAt(m, lo, j) && StrandsAt(m, lo, k)
    ensures j == k
  {
    if j < k {
      CostMonotone(m.mmu, lo, j, k);
    } else if k < j {
      CostMonotone(m.mmu, lo, k, j);
    }
  }

  /** Main result for grow: from unmapped pages, whatever the number of free frames. */
  lemma {:induction false} GrowExact(m0: Mem, m: Mem, lo: nat, v: nat, hi: nat)
    requires UserPages(lo, v) && UserPages(v, hi) && Midway(m0, m, lo, v)
    requires forall w: nat | lo <= w < hi :: !Mapped(m0.mmu, w)
    ensures GrowOutcome(m0, lo, hi, Grow(m, lo, v, hi))
    decreases hi - v
  {
    hide Pde, Pte, At, UserBit, Writable, Present, FrameOf, MapPage, AllocFrame, UsedSet, TableSet, Entry, Inv;
    hide Reached, GrewPages, GrewFrames, HasTable, Mapped;
    var F := Clear(m0.pmm.used);
    if v == hi {
      forall k: nat | lo <= k < hi && StrandsAt(m0, lo, k) ensures false {
        CostMonotone(m0.mmu, lo, k, hi);
      }
    } else {
      CostMonotone(m0.mmu, lo, v, hi);
      AllocFails(m.pmm);
      var g := AllocFrame(m.pmm);
      if g.frame == 0 {
        ReleaseRestores(m0, m, Range(lo, v), lo, v, {});
        assert Range(lo, v) - Range(lo, v) == {};
        forall k: nat | lo <= k < hi && StrandsAt(m0, lo, k) ensures false {
          if k < v { CostMonotone(m0.mmu, lo, k, v); } else { CostMonotone(m0.mmu, lo, v, k); }
        }
      } else {
        StepCount(m, v);
        MidwayTable(m0, m, lo, v);
        var m1 := Mem(g.pmm, m.mmu);
        if CanMap(m1, v) {
          MidwayStep(m0, m, lo, v);
          GrowExact(m0, MapPage(m1, v, g.frame, 7), lo, v + 1, hi);
        } else {
          GrowStranded(m0, m, lo, v, hi);
        }
      }
    }
  }

  lemma CannotMap(m: Mem, v: nat, f: nat)
    requires v < PAGES && f < PAGES && !CanMap(m, v)
    ensures !HasTable(m.mmu, v) && AllocFrame(m.pmm).frame == 0 && MapPage(m, v, f, 7) == m
  {
  }

  lemma NoTable(u: Mmu, v: nat)
    requires v < PAGES && !HasTable(u, v)
    ensures !Mapped(u, v)
  {
  }

  /** The frame taken for `v` was the last one and its table is missing: the frame is lost. */
  lemma GrowStranded(m0: Mem, m: Mem, lo: nat, v: nat, hi: nat)
    requires UserPages(lo, v) && UserPages(v, hi) && v < hi && Midway(m0, m, lo, v)
    requires AllocFrame(m.pmm).frame != 0 && !CanMap(Mem(AllocFrame(m.pmm).pmm, m.mmu), v)
    requires NeedsTable(m0.mmu, lo, v)
    ensures GrowOutcome(m0, lo, hi, Grow(m, lo, v, hi))
  {
    hide Inv, Grew, Grow, CanMap, Lost, NeedsTable;
    StrandedCount(m0, m, lo, v);
    StrandedState(m0, m, lo, v, hi);
    CostMonotone(m0.mmu, lo, v, hi);
    forall k: nat | lo <= k < hi && StrandsAt(m0, lo, k) ensures k == v {
      StrandUnique(m0, lo, k, v);
    }
  }

  lemma StrandedCount(m0: Mem, m: Mem, lo: nat, v: nat)
    requires lo <= v < PAGES && Midway(m0, m, lo, v) && NeedsTable(m0.mmu, lo, v)
    requires AllocFrame(m.pmm).frame != 0 && !CanMap(Mem(AllocFrame(m.pmm).pmm, m.mmu), v)
    ensures StrandsAt(m0, lo, v)
  {
    hide Inv, Grew, AllocFrame, Clear, Cost;
    CannotMap(Mem(AllocFrame(m.pmm).pmm, m.mmu), v, 0);
    AllocFails(m.pmm);
    AllocFails(AllocFrame(m.pmm).pmm);
  }

  lemma StrandedState(m0: Mem, m: Mem, lo: nat, v: nat, hi: nat)
    requires UserPages(lo, v) && UserPages(v, hi) && v < hi && Midway(m0, m, lo, v)
    requires AllocFrame(m.pmm).frame != 0 && !CanMap(Mem(AllocFrame(m.pmm).pmm, m.mmu), v)
    ensures var r := Grow(m, lo, v, hi); r.ok == (v == hi - 1) && Lost(m0, r.mem, if r.ok then Range(lo, v) else {})
  {
    hide Pde, Pte, At, UserBit, Writable, Present, FrameOf, UsedSet, TableSet, Entry, Reached, GrewPages, GrewFrames;
    hide MapPage, CanMap, AllocFrame, Clear, Cost, Inv, Release;
    var g := AllocFrame(m.pmm);
    var m1 := Mem(g.pmm, m.mmu);
    CannotMap(m1, v, g.frame);
    GrewAlloc(m0, m, Range(lo, v), {});
    AllocInv(m);
    assert {} + {g.frame} == {g.frame};
    NoTable(m.mmu, v);
    assert OffPages(m1.mmu, g.frame);
    StrandedGrow(m, lo, v, hi);
    if v + 1 < hi {
      ReleaseRestores(m0, m1, Range(lo, v), lo, v + 1, {g.frame});
      ReleaseInv(m1, lo, v + 1);
      assert Range(lo, v) - Range(lo, v + 1) == {};
      assert OffPages(Release(m1, lo, v + 1).mmu, g.frame);
    }
  }

  lemma StrandedGrow(m: Mem, lo: nat, v: nat, hi: nat)
    requires lo <= v < hi <= PAGES && AllocFrame(m.pmm).frame != 0 && !CanMap(Mem(AllocFrame(m.pmm).pmm, m.mmu), v)
    ensures var m1 := Mem(AllocFrame(m.pmm).pmm, m.mmu);
      Grow(m, lo, v, hi) == if v + 1 == hi then Grown(m1, true) else Grown(Release(m1, lo, v + 1), false)
  {
    hide AllocFrame, MapPage, CanMap, Release;
    CannotMap(Mem(AllocFrame(m.pmm).pmm, m.mmu), v, AllocFrame(m.pmm).frame);
  }
}
