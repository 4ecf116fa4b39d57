/** Who holds each used frame over whole runs: what start-up marked, page tables, mapped pages, file
    buffers, and frames that a call has lost for good (kernel/elf.c:32-94, 213-292,
    kernel/fs.c:172-187, kernel/kernel.c:446-459). */
module Ledger {
  import opened Words
  import opened Frames
  import opened Paging
  import opened Memory
  import opened Ownership
  import opened UserHeap
  import opened Access
  import opened Break
  import opened Loader
  import opened Image
  import opened Rollback
  import opened Elf
  import opened System
  import opened Reserved

  /** Used, but neither a table nor behind a tracked page. */
  ghost predicate Idle(m: Mem, f: nat) { Used(m.pmm, f) && Unowned(m.mmu, f) }

  /** The highest free frame. */
  ghost predicate LastFree(p: Pmm, f: nat) { IsFree(p, f) && forall g: nat | IsFree(p, g) :: g <= f }

  /** Mapping fresh frames at pages lo.. loses frame `f` at page `k`: it is what the page was mapped to,
      or the last free frame, taken for a page whose table can then not be made. */
  ghost predicate LosesAt(m: Mem, lo: nat, k: nat, f: nat)
    requires lo <= k < PAGES
  {
    || (Clear(m.pmm.used) > Cost(m.mmu, lo, k) && Mapped(m.mmu, k) && f == Frm(m.mmu, k))
    || (StrandsAt(m, lo, k) && LastFree(m.pmm, f))
  }

  ghost predicate Loses(m: Mem, lo: nat, hi: nat, f: nat)
    requires lo <= hi <= PAGES
  {
    exists k: nat :: lo <= k < hi && LosesAt(m, lo, k, f)
  }

  // ---- Single pages ----

  lemma FreedUsed(p: Pmm, f: nat, g: nat)
    ensures Used(FreeFrame(p, f), g) <==> Used(p, g) && g != f
  {
    FreeSpec(p, f);
  }

  /** Giving back a page loses nothing. */
  lemma ReleaseIdle(m: Mem, v: nat, f: nat)
    requires Inv(m) && Tracked(v)
    ensures Inv(ReleasePage(m, v)) && (Idle(ReleasePage(m, v), f) <==> Idle(m, f))
  {
    hide Pde, Pte, At, Present, FrameOf, Unmap, FreeFrame, ReleasePage, IsTable, Used;
    ReleasePageStep(m, v);
    if Mapped(m.mmu, v) {
      UnmapSpec(m.mmu, v);
      FreedUsed(m.pmm, Frm(m.mmu, v), f);
      var r := ReleasePage(m, v);
      assert Occupied(m.mmu, v);
      assert forall w: nat | w != v :: Occupied(r.mmu, w) == Occupied(m.mmu, w);
      assert forall w: nat | Occupied(r.mmu, w) :: w != v && Frm(r.mmu, w) == Frm(m.mmu, w);
      if Idle(r, f) {
        forall w: nat | Occupied(m.mmu, w) ensures Frm(m.mmu, w) != f { assert w != v ==> Occupied(r.mmu, w); }
      }
    }
  }

  lemma {:induction false} ReleaseRangeIdle(m: Mem, lo: nat, hi: nat, f: nat)
    requires Inv(m) && UserPages(lo, hi)
    ensures Idle(Release(m, lo, hi), f) <==> Idle(m, f)
    decreases hi - lo
  {
    hide Idle, ReleasePage, Inv;
    if lo < hi {
      ReleaseIdle(m, lo, f);
      ReleaseRangeIdle(ReleasePage(m, lo), lo + 1, hi, f);
    }
  }

  /** A fresh frame for page `v`, which may be mapped already. */
  lemma TakeIdle(m: Mem, u: Mmu, v: nat, flags: nat, f: nat)
    requires Inv(m) && SameView(m.mmu, u) && Tracked(v) && flags < 4096 && flags % 2 == 1
    requires AllocFrame(m.pmm).frame != 0
    ensures var g := AllocFrame(m.pmm); var m1 := Mem(g.pmm, u); var r := MapPage(m1, v, g.frame, flags);
      && (CanMap(m1, v) <==> CanMap(Mem(g.pmm, m.mmu), v))
      && (CanMap(m1, v) ==> (Idle(r, f) <==> Idle(m, f) || (Mapped(m.mmu, v) && f == Frm(m.mmu, v))))
      && (!CanMap(m1, v) ==> (Idle(r, f) <==> Idle(m, f) || f == g.frame))
  {
    hide Pde, Pte, At, Present, MapPage, IsTable, UsedSet, TableSet, AllocFrame, Entry, Inv, Used, Unowned;
    var g := AllocFrame(m.pmm);
    AllocInv(m);
    AllocSpec(m.pmm);
    SameViewInv(Mem(g.pmm, m.mmu), u);
    SameViewUnowned(m.mmu, u, f);
    SameViewUnowned(m.mmu, u, g.frame);
    var m1 := Mem(g.pmm, u);
    MapPageSpec(m1, v, g.frame, flags);
    if CanMap(m1, v) { MapIdle(m1, v, g.frame, flags, f); }
  }

  lemma MapIdle(m: Mem, v: nat, g: nat, flags: nat, f: nat)
    requires Inv(m) && Tracked(v) && flags < 4096 && flags % 2 == 1 && CanMap(m, v) && g < PAGES && Idle(m, g)
    ensures Idle(MapPage(m, v, g, flags), f) <==> (Idle(m, f) && f != g) || (Mapped(m.mmu, v) && f == Frm(m.mmu, v))
  {
    hide Pde, Pte, At, Present, MapPage, IsTable, UsedSet, TableSet, Entry, AllocFrame, Used, FrameOf, TablesOk;
    MapPageSpec(m, v, g, flags);
    var r := MapPage(m, v, g, flags);
    TablesAfterMap(m, v, g, flags);
    UsedMember(m.pmm);
    UsedMember(r.pmm);
    FreshTable(m, v);
    assert Occupied(r.mmu, v) && Frm(r.mmu, v) == g;
    assert forall w: nat | w != v && w < PAGES ::
      Occupied(r.mmu, w) == Occupied(m.mmu, w) && Frm(r.mmu, w) == Frm(m.mmu, w);
    if Mapped(m.mmu, v) && f == Frm(m.mmu, v) {
      assert Occupied(m.mmu, v) && HasTable(m.mmu, v) by { TableOfMapped(m.mmu, v); }
    } else if Idle(m, f) && f != g {
      assert f !in NewTable(m, v);
    } else if Idle(r, f) {
      assert f != g && f !in NewTable(m, v);
      forall w: nat | Occupied(m.mmu, w) ensures Frm(m.mmu, w) != f { assert w != v ==> Occupied(r.mmu, w); }
    }
  }

  // ---- Growing ----

  /** One page of a grow changes what later pages need only in the table of that page. */
  lemma NeedsAfter(m: Mem, v: nat, k: nat)
    requires Inv(m) && UserPages(v, v + 1) && v < k < PAGES && AllocFrame(m.pmm).frame != 0
    requires CanMap(Mem(AllocFrame(m.pmm).pmm, m.mmu), v)
    ensures var g := AllocFrame(m.pmm); var r := MapPage(Mem(g.pmm, m.mmu), v, g.frame, 7);
      && NeedsTable(r.mmu, v + 1, k) == NeedsTable(m.mmu, v, k)
      && Mapped(r.mmu, k) == Mapped(m.mmu, k) && Frm(r.mmu, k) == Frm(m.mmu, k)
  {
    hide Pde, Pte, At, Present, MapPage, IsTable, UsedSet, TableSet, AllocFrame, Entry, Inv;
    var g := AllocFrame(m.pmm);
    AllocInv(m);
    MapPageSpec(Mem(g.pmm, m.mmu), v, g.frame, 7);
    if k % ENTRIES == 0 { assert k / ENTRIES != v / ENTRIES; } else { assert (k - 1) / ENTRIES == k / ENTRIES; }
  }

  lemma {:induction false} CostAfter(m: Mem, v: nat, k: nat)
    requires Inv(m) && UserPages(v, v + 1) && v < k <= PAGES && AllocFrame(m.pmm).frame != 0
    requires CanMap(Mem(AllocFrame(m.pmm).pmm, m.mmu), v)
    ensures var g := AllocFrame(m.pmm); var r := MapPage(Mem(g.pmm, m.mmu), v, g.frame, 7);
      Cost(m.mmu, v, k) == Cost(r.mmu, v + 1, k) + Cost(m.mmu, v, v + 1)
    decreases k
  {
    hide MapPage, AllocFrame, Inv, CanMap, NeedsTable;
    if k > v + 1 {
      CostAfter(m, v, k - 1);
      NeedsAfter(m, v, k - 1);
    }
  }

  /** As long as a frame is left, the highest one is the same. */
  lemma LastAfter(m: Mem, v: nat, f: nat)
    requires Inv(m) && UserPages(v, v + 1) && AllocFrame(m.pmm).frame != 0
    ensures var g := AllocFrame(m.pmm); var r := MapPage(Mem(g.pmm, m.mmu), v, g.frame, 7);
      Clear(r.pmm.used) > 0 ==> (LastFree(r.pmm, f) <==> LastFree(m.pmm, f))
  {
    hide Pde, Pte, At, SetPte, Install, AllocFrame, Inv, IsFree, Clear;
    var g := AllocFrame(m.pmm);
    LastTaken(m.pmm, f);
    LastTaken(g.pmm, f);
    AllocFails(g.pmm);
  }

  lemma LastTaken(p: Pmm, f: nat)
    ensures var q := AllocFrame(p).pmm; Clear(q.used) > 0 ==> (LastFree(q, f) <==> LastFree(p, f))
  {
    hide AllocFrame, Clear, IsFree;
    var g := AllocFrame(p);
    AllocFails(p);
    if g.frame != 0 && Clear(g.pmm.used) > 0 {
      AllocFails(g.pmm);
      LowestFree(g.pmm);
      var x := AllocFrame(g.pmm).frame;
      AllocatedFree(p);
      TakenFree(p);
      assert g.frame < x && IsFree(p, x);
    }
  }

  lemma TakenFree(p: Pmm)
    requires AllocFrame(p).frame != 0
    ensures forall f: nat | IsFree(p, f) :: f == AllocFrame(p).frame || IsFree(AllocFrame(p).pmm, f)
  {
    AllocSpec(p);
  }

  lemma LosesAfter(m: Mem, v: nat, k: nat, f: nat)
    requires Inv(m) && UserPages(v, v + 1) && v < k < PAGES && AllocFrame(m.pmm).frame != 0
    requires CanMap(Mem(AllocFrame(m.pmm).pmm, m.mmu), v)
    ensures var g := AllocFrame(m.pmm); var r := MapPage(Mem(g.pmm, m.mmu), v, g.frame, 7);
      LosesAt(r, v + 1, k, f) <==> LosesAt(m, v, k, f)
  {
    hide MapPage, AllocFrame, Inv, CanMap, NeedsTable, LastFree, HasTable, Mapped, Frm;
    NeedsAfter(m, v, k);
    CostAfter(m, v, k);
    LastAfter(m, v, f);
    StepCount(m, v);
    FirstCost(m.mmu, v);
  }

  lemma FirstCost(u: Mmu, v: nat)
    requires v < PAGES
    ensures Cost(u, v, v) == 0 && Cost(u, v, v + 1) == (if HasTable(u, v) then 1 else 2)
  {
    hide HasTable;
  }

  /** What the first page loses. */
  lemma LosesFirst(m: Mem, v: nat, f: nat)
    requires v < PAGES
    ensures LosesAt(m, v, v, f) <==>
      (Clear(m.pmm.used) > 0 &&
        if HasTable(m.mmu, v) || Clear(m.pmm.used) > 1 then Mapped(m.mmu, v) && f == Frm(m.mmu, v)
          else LastFree(m.pmm, f))
  {
    hide HasTable, Mapped, Clear, LastFree, Frm;
    FirstCost(m.mmu, v);
    if Mapped(m.mmu, v) { TableOfMapped(m.mmu, v); }
  }

  lemma OnlyFree(p: Pmm, f: nat)
    requires Clear(p.used) == 1
    ensures LastFree(p, f) <==> f == AllocFrame(p).frame
  {
    hide AllocFrame, Clear, IsFree;
    AllocFails(p);
    LowestFree(p);
    TakenFree(p);
    AllocFails(AllocFrame(p).pmm);
    LowestFree(AllocFrame(p).pmm);
  }

  /** Taking a frame for one page, in the terms of `LosesAt`. */
  lemma TakeLoses(m: Mem, u: Mmu, v: nat, flags: nat, f: nat)
    requires Inv(m) && SameView(m.mmu, u) && Tracked(v) && flags < 4096 && flags % 2 == 1
    requires AllocFrame(m.pmm).frame != 0
    ensures var g := AllocFrame(m.pmm);
      Idle(MapPage(Mem(g.pmm, u), v, g.frame, flags), f) <==> Idle(m, f) || LosesAt(m, v, v, f)
  {
    hide MapPage, AllocFrame, Inv, Idle, LosesAt, Mapped, LastFree, Clear, SameView, HasTable, CanMap;
    TakeIdle(m, u, v, flags, f);
    LosesFirst(m, v, f);
    AllocFails(m.pmm);
    StepCount(m, v);
    if Clear(m.pmm.used) == 1 { OnlyFree(m.pmm, f); }
  }

  lemma LosesSplit(m: Mem, v: nat, hi: nat, f: nat)
    requires v < hi <= PAGES
    ensures Loses(m, v, hi, f) <==> LosesAt(m, v, v, f) || LosesLater(m, v, hi, f)
  {
    hide LosesAt;
  }

  ghost predicate LosesLater(m: Mem, v: nat, hi: nat, f: nat)
    requires v < hi <= PAGES
  {
    exists k: nat :: v < k < hi && LosesAt(m, v, k, f)
  }

  lemma LaterAfter(m: Mem, v: nat, hi: nat, f: nat)
    requires Inv(m) && UserPages(v, hi) && v < hi && AllocFrame(m.pmm).frame != 0
    requires CanMap(Mem(AllocFrame(m.pmm).pmm, m.mmu), v)
    ensures var g := AllocFrame(m.pmm); var r := MapPage(Mem(g.pmm, m.mmu), v, g.frame, 7);
      Loses(r, v + 1, hi, f) <==> LosesLater(m, v, hi, f)
  {
    hide LosesAt, MapPage, AllocFrame, Inv, CanMap;
    var g := AllocFrame(m.pmm);
    var r := MapPage(Mem(g.pmm, m.mmu), v, g.frame, 7);
    if Loses(r, v + 1, hi, f) {
      var k: nat :| v + 1 <= k < hi && LosesAt(r, v + 1, k, f);
      LosesAfter(m, v, k, f);
    }
    if LosesLater(m, v, hi, f) {
      var k: nat :| v < k < hi && LosesAt(m, v, k, f);
      LosesAfter(m, v, k, f);
    }
  }

  /** Nothing is lost beyond the last frame. */
  lemma SpentLoses(m: Mem, v: nat, hi: nat, f: nat)
    requires v < hi <= PAGES && (Clear(m.pmm.used) == 0 || (Clear(m.pmm.used) == 1 && !HasTable(m.mmu, v)))
    ensures !LosesLater(m, v, hi, f) && (Clear(m.pmm.used) == 0 ==> !LosesAt(m, v, v, f))
  {
    hide HasTable, Mapped, Clear, LastFree, Frm;
    forall k: nat | v < k < hi ensures !LosesAt(m, v, k, f) { CostMonotone(m.mmu, v, v, k); }
  }

  /** Main result for growing, over any pages, mapped or not, and on every exit: the frames lost are
      those of the mapped pages it gets to, and a last frame for which no table can be made. */
  lemma {:induction false} GrowLoses(m: Mem, lo: nat, v: nat, hi: nat, f: nat)
    requires Inv(m) && UserPages(lo, v) && UserPages(v, hi)
    ensures Idle(Grow(m, lo, v, hi).mem, f) <==> Idle(m, f) || Loses(m, v, hi, f)
    decreases hi - v
  {
    hide MapPage, AllocFrame, Release, Inv, Idle, CanMap, LosesAt, Loses, LosesLater, Clear, SameView, HasTable;
    if v == hi {
      NoPages(m, v, f);
    } else {
      LosesSplit(m, v, hi, f);
      AllocFails(m.pmm);
      var g := AllocFrame(m.pmm);
      if g.frame == 0 {
        ReleaseRangeIdle(m, lo, v, f);
        SpentLoses(m, v, hi, f);
      } else {
        var m1 := Mem(g.pmm, m.mmu);
        GrowPageInv(m, v);
        TakeLoses(m, m.mmu, v, 7, f) by { SameViewRefl(m.mmu); }
        if CanMap(m1, v) {
          LaterAfter(m, v, hi, f);
          GrowLoses(MapPage(m1, v, g.frame, 7), lo, v + 1, hi, f);
        } else {
          StepCount(m, v);
          SpentLoses(m, v, hi, f);
          CannotMap(m1, v, g.frame);
          StrandedGrow(m, lo, v, hi);
          ReleaseRangeIdle(m1, lo, v + 1, f);
        }
      }
    }
  }

  lemma NoPages(m: Mem, v: nat, f: nat)
    requires v <= PAGES
    ensures !Loses(m, v, v, f)
  {
  }

  lemma SameViewRefl(u: Mmu)
    ensures SameView(u, u)
  {
  }

  // ---- The other calls ----

  /** From the state without the pages it touched, a load has only added tables and its own pages. */
  lemma GrewIdle(m: Mem, ts: seq<nat>, r: Mem, pages: set<nat>, f: nat)
    requires Inv(m) && UserOnly(ts) && Inv(r) && Grew(Without(m, ts), r, pages, {}) && Idle(r, f)
    ensures Idle(m, f)
  {
    hide Pde, Pte, At, Present, FrameOf, Used, UsedSet, TableSet, Without, IsTable, Inv;
    WithoutSpec(m, ts);
    var b := Without(m, ts);
    TableMember(m.mmu);
    TableMember(r.mmu);
    UsedMember(m.pmm);
    UsedMember(r.pmm);
    UsedMember(b.pmm);
    assert f !in FramesOf(r.mmu, pages);
    assert f in UsedSet(b.pmm);
    forall v: nat | Occupied(m.mmu, v) ensures Frm(m.mmu, v) != f {
      if v in ts {
        assert Frm(m.mmu, v) in FramesOf(m.mmu, SetOf(ts));
      } else {
        assert Pte(b.mmu, v) == Pte(m.mmu, v) && v !in pages;
        assert Mapped(r.mmu, v) && Pte(r.mmu, v) == Pte(b.mmu, v);
        assert Occupied(r.mmu, v);
      }
    }
  }

  lemma GrewUsed(m: Mem, ts: seq<nat>, r: Mem, pages: set<nat>, f: nat)
    requires Inv(m) && UserOnly(ts) && Grew(Without(m, ts), r, pages, {}) && Idle(m, f)
    ensures Used(r.pmm, f)
  {
    hide Pde, Pte, At, Present, FrameOf, Used, UsedSet, TableSet, Without, IsTable, Inv;
    WithoutSpec(m, ts);
    UsedMember(m.pmm);
    UsedMember(r.pmm);
    assert f !in FramesOf(m.mmu, SetOf(ts));
  }

  /** A load, failed or not, loses nothing. */
  lemma ExecIdle(m: Mem, h: Heap, d: seq<byte>, f: nat)
    requires Inv(m)
    ensures Idle(ElfLoad(m, h, d).mem, f) <==> Idle(m, f)
  {
    hide Inv, LoadSegs, TableFits, U16, U32, Segments, MaxEnd, Pins, Unowned, Grew, ReachedBy, Without, At;
    if Accepted(d) {
      var segs := Segments(d, PhNum(d));
      assert Current(m.mmu, []) && Low(m.pmm, []) && Virts([]) == {};
      GrewRefl(m);
      LoadSegsInv(m, segs, []);
      LoadRollsBack(m, m, segs, []);
      var ts := ReachedBy(m, segs, []);
      var l := LoadSegs(m, segs, []);
      var pages := if l.ok then Virts(l.recs) else {};
      assert Grew(Without(m, ts), l.mem, pages, {});
      assert ElfLoad(m, h, d).mem == l.mem;
      if Idle(l.mem, f) { GrewIdle(m, ts, l.mem, pages, f); }
      if Idle(m, f) {
        GrewUsed(m, ts, l.mem, pages, f);
        IdlePins(m, f);
        ExecSpares(m, h, d, f);
        PinsUnowned(l.mem, f);
      }
    }
  }

  lemma IdlePins(m: Mem, f: nat)
    requires Idle(m, f)
    ensures Pins(m, f)
  {
    hide Unowned;
  }

  lemma PinsUnowned(m: Mem, f: nat)
    requires Pins(m, f)
    ensures Unowned(m.mmu, f)
  {
    hide Unowned;
  }

  /** The frames that the call hands out as a file buffer. */
  predicate Buffered(s: Sys, op: Op, f: nat) {
    op.Buffer? && AllocBlocks(s.mem.pmm, op.count).frame != 0
      && AllocBlocks(s.mem.pmm, op.count).frame <= f < AllocBlocks(s.mem.pmm, op.count).frame + op.count
  }

  lemma BlocksIdle(p: Pmm, count: u32, f: nat)
    requires AllocBlocks(p, count).frame != 0
    ensures var g := AllocBlocks(p, count);
      && (Used(g.pmm, f) <==> Used(p, f) || g.frame <= f < g.frame + count)
      && (g.frame <= f < g.frame + count ==> !Used(p, f))
  {
  }

  lemma BufferIdle(m: Mem, count: u32, f: nat)
    requires Inv(m) && AllocBlocks(m.pmm, count).frame != 0
    ensures var g := AllocBlocks(m.pmm, count);
      Idle(Mem(g.pmm, ZeroPhys(m.mmu, g.frame, count)), f) <==> Idle(m, f) || g.frame <= f < g.frame + count
  {
    hide Inv, ZeroPhys, SameView, AllocBlocks, Unowned;
    var g := AllocBlocks(m.pmm, count);
    BufferInv(m, count);
    BlocksIdle(m.pmm, count, f);
    SameViewUnowned(m.mmu, ZeroPhys(m.mmu, g.frame, count), f);
    if g.frame <= f < g.frame + count { FreeIsUnowned(m, f); }
  }

  lemma TakeAndMapIdle(m: Mem, v: nat, flags: nat, clear: bool, f: nat)
    requires Inv(m) && Tracked(v) && flags < 4096 && flags % 2 == 1
    ensures Idle(TakeAndMap(m, v, flags, clear), f) <==> Idle(m, f) || LosesAt(m, v, v, f)
  {
    hide Inv, ZeroPhys, MapPage, AllocFrame, Idle, LosesAt, SameView, Clear;
    var g := AllocFrame(m.pmm);
    AllocFails(m.pmm);
    if g.frame == 0 {
      SpentLoses(m, v, v + 1, f);
    } else {
      AllocInv(m);
      AllocSpec(m.pmm);
      ZeroPhysInv(m, g.pmm, g.frame, 1);
      SameViewRefl(m.mmu);
      TakeLoses(m, if clear then ZeroPhys(m.mmu, g.frame, 1) else m.mmu, v, flags, f);
    }
  }

  /** A break call grows the heap over pages lo..hi and loses the frame there. */
  ghost predicate BreakLoses(m: Mem, h: Heap, inc: i32, f: nat) {
    && inc > 0 && Accepts(h, inc) && PageUp(h.brk) < PageUp(Wrap32(h.brk + inc))
    && Loses(m, PageUp(h.brk), PageUp(Wrap32(h.brk + inc)), f)
  }

  lemma SbrkIdle(m: Mem, h: Heap, inc: i32, f: nat)
    requires Inv(m) && HeapOk(h)
    ensures Idle(Sbrk(m, h, inc).mem, f) <==> Idle(m, f) || BreakLoses(m, h, inc, f)
  {
    hide Idle, Inv, Grow, Release, Loses;
    var brk := Wrap32(h.brk + inc);
    if Accepts(h, inc) && inc > 0 && PageUp(h.brk) < PageUp(brk) {
      GrowLoses(m, PageUp(h.brk), PageUp(h.brk), PageUp(brk), f);
    } else if Accepts(h, inc) && inc < 0 && PageUp(brk) < PageUp(h.brk) {
      ReleaseRangeIdle(m, PageUp(brk), PageUp(h.brk), f);
    }
  }

  function Target(h: Heap, addr: u32): u32 { if addr == 0 then h.brk else addr }

  lemma BrkTarget(h: Heap, t: u32)
    ensures Wrap32(h.brk + Signed32(t - h.brk)) == t
  {
  }

  lemma BrkIdle(m: Mem, h: Heap, addr: u32, f: nat)
    requires Inv(m) && HeapOk(h)
    ensures Idle(Brk(m, h, addr).mem, f) <==>
      Idle(m, f) || BreakLoses(m, h, Signed32(Target(h, addr) - h.brk), f)
  {
    hide Idle, Inv, Sbrk, Loses, Signed32, PageUp;
    BrkTarget(h, Target(h, addr));
    SbrkIdle(m, h, Signed32(Target(h, addr) - h.brk), f);
    SignedZero();
  }

  lemma SignedZero()
    ensures Signed32(0) == 0
  {
  }

  /** Exactly the frames a call loses: taken, and never again owned or given back. */
  ghost predicate Strays(s: Sys, op: Op, f: nat) {
    match op
    case KernelPage => KERNEL_FIRST <= s.next < KERNEL_LAST && LosesAt(s.mem, s.next, s.next, f)
    case Stack => LosesAt(s.mem, STACK_PAGE, STACK_PAGE, f)
    case SbrkCall(inc) => BreakLoses(s.mem, s.heap, inc, f)
    case BrkCall(addr) => BreakLoses(s.mem, s.heap, Signed32(Target(s.heap, addr) - s.heap.brk), f)
    case Exec(_) => false
    case Buffer(_) => false
  }

  /** Main result for one call. */
  lemma StepStrays(s: Sys, op: Op, f: nat)
    requires SysInv(s)
    ensures Idle(Step(s, op).mem, f) <==> Idle(s.mem, f) || Strays(s, op, f) || Buffered(s, op, f)
  {
    hide Inv, HeapOk, ElfLoad, Sbrk, Brk, TakeAndMap, ZeroPhys, AllocBlocks, Idle, AllocFrame, LosesAt, BreakLoses;
    hide Clear;
    match op
    case KernelPage =>
      if KERNEL_FIRST <= s.next < KERNEL_LAST {
        TakeAndMapIdle(s.mem, s.next, 3, false, f);
        AllocFails(s.mem.pmm);
        if AllocFrame(s.mem.pmm).frame == 0 { SpentLoses(s.mem, s.next, s.next + 1, f); }
      }
    case Exec(d) => ExecIdle(s.mem, s.heap, d, f);
    case Stack => TakeAndMapIdle(s.mem, STACK_PAGE, 7, true, f);
    case SbrkCall(inc) => SbrkIdle(s.mem, s.heap, inc, f);
    case BrkCall(addr) => BrkIdle(s.mem, s.heap, addr, f);
    case Buffer(count) => if AllocBlocks(s.mem.pmm, count).frame != 0 { BufferIdle(s.mem, count, f); }
  }

  ghost predicate StraysDuring(s: Sys, ops: seq<Op>, f: nat)
    decreases |ops|
  {
    ops != [] && (Strays(s, ops[0], f) || StraysDuring(Step(s, ops[0]), ops[1..], f))
  }

  predicate BufferedDuring(s: Sys, ops: seq<Op>, f: nat)
    decreases |ops|
  {
    ops != [] && (Buffered(s, ops[0], f) || BufferedDuring(Step(s, ops[0]), ops[1..], f))
  }

  lemma {:induction false} RunStrays(s: Sys, ops: seq<Op>, f: nat)
    requires SysInv(s)
    ensures SysInv(Run(s, ops))
    ensures Idle(Run(s, ops).mem, f) <==> Idle(s.mem, f) || StraysDuring(s, ops, f) || BufferedDuring(s, ops, f)
    decreases |ops|
  {
    hide SysInv, Step, Idle, Strays, Buffered;
    if ops != [] {
      StepInv(s, ops[0]);
      StepStrays(s, ops[0], f);
      RunStrays(Step(s, ops[0]), ops[1..], f);
    }
  }

  // ---- From start-up on ----

  /** Since `p` only tables have been taken. */
  ghost predicate OnlyTables(p: Pmm, m: Mem, f: nat) {
    (Used(m.pmm, f) <==> Used(p, f) || IsTable(m.mmu, f)) && !(Used(p, f) && IsTable(m.mmu, f))
  }

  lemma InstallOnly(p: Pmm, m: Mem, i: nat, f: nat)
    requires Bare(m) && EmptyFrom(m.mmu, i) && (i < 4 || 768 <= i < 832) && AllocFrame(m.pmm).frame != 0
    requires OnlyTables(p, m, f)
    ensures var g := AllocFrame(m.pmm); OnlyTables(p, Mem(g.pmm, Install(m.mmu, i, g.frame, 3)), f)
  {
    hide Pde, Pte, At, Present, FrameOf, Entry, Install, AllocFrame, TableSet, Inv, Used;
    AllocInv(m);
    AllocSpec(m.pmm);
    var g := AllocFrame(m.pmm);
    BareOk(m);
    InstallSpec(m.mmu, i, g.frame, 3);
    TableMember(m.mmu);
    TableMember(Install(m.mmu, i, g.frame, 3));
  }

  lemma {:induction false} IdentityTables(m: Mem, v: nat, hi: nat, i: nat, f: nat)
    requires i < 4 && i * ENTRIES <= v <= hi <= (i + 1) * ENTRIES
    requires Bare(m) && Present(Pde(m.mmu, i)) && EmptyFrom(m.mmu, i + 1)
    ensures IsTable(Identity(m.mmu, v, hi), f) == IsTable(m.mmu, f)
    decreases hi - v
  {
    hide Pde, Pte, At, Present, FrameOf, Entry, SetPte, Bare, IsTable, TableSet;
    if v < hi {
      assert v / ENTRIES == i;
      IdentityInv(m, v, v + 1, i);
      IdentityOne(m.mmu, v);
      BareOk(m);
      SetPteSpec(m.mmu, v, Entry(v, 3));
      var r := SetPte(m.mmu, v, Entry(v, 3));
      SameTables(m.mmu, r);
      IdentityTables(Mem(m.pmm, r), v + 1, hi, i, f);
    }
  }

  lemma {:induction false} LowTablesOnly(p: Pmm, m: Mem, i: nat, f: nat)
    requires i <= 4 && Bare(m) && EmptyFrom(m.mmu, i) && OnlyTables(p, m, f)
    ensures OnlyTables(p, LowTables(m, i).mem, f)
    decreases 4 - i
  {
    hide Bare, EmptyFrom, Identity, Install, Pde, Present, AllocFrame, Used, IsTable;
    if i < 4 {
      var g := AllocFrame(m.pmm);
      if g.frame != 0 {
        InstallInv(m, i);
        InstallOnly(p, m, i, f);
        var u := Install(m.mmu, i, g.frame, 3);
        IdentityInv(Mem(g.pmm, u), i * ENTRIES, (i + 1) * ENTRIES, i);
        IdentityTables(Mem(g.pmm, u), i * ENTRIES, (i + 1) * ENTRIES, i, f);
        LowTablesOnly(p, Mem(g.pmm, Identity(u, i * ENTRIES, (i + 1) * ENTRIES)), i + 1, f);
      }
    }
  }

  lemma {:induction false} HeapTablesOnly(p: Pmm, m: Mem, i: nat, f: nat)
    requires 768 <= i <= 832 && Bare(m) && EmptyFrom(m.mmu, i) && OnlyTables(p, m, f)
    ensures OnlyTables(p, HeapTables(m, i), f)
    decreases 832 - i
  {
    hide Bare, Install, Pde, Present, AllocFrame, OnlyTables;
    if i < 832 {
      var g := AllocFrame(m.pmm);
      if g.frame == 0 {
        HeapTablesOnly(p, m, i + 1, f);
      } else {
        InstallInv(m, i);
        InstallOnly(p, m, i, f);
        HeapTablesOnly(p, Mem(g.pmm, Install(m.mmu, i, g.frame, 3)), i + 1, f);
      }
    }
  }

  lemma BootIdle(p: Pmm, ram: map<nat, Frame>, f: nat)
    requires PagingInit(p, ram).Booted?
    ensures Idle(PagingInit(p, ram).mem, f) <==> Used(p, f)
  {
    AllocSpec(p);
    var g := AllocFrame(p);
    var u := Mmu(ram[g.frame := ZeroFrame()], g.frame);
    ZeroDirectory(u);
    ZeroBare(g.pmm, u);
    var m := Mem(g.pmm, u);
    assert OnlyTables(p, m, f);
    hide Bare, LowTables, HeapTables, Pde, Present, AllocFrame, IsTable, Used;
    LowTablesOnly(p, m, 0, f);
    LowTablesInv(m, 0);
    var low := LowTables(m, 0);
    if low.ok { HeapTablesOnly(p, low.mem, 768, f); }
    BootInv(p, ram);
    BareUnowned(PagingInit(p, ram).mem, f);
  }

  lemma BareUnowned(m: Mem, f: nat)
    requires Bare(m)
    ensures Unowned(m.mmu, f) <==> !IsTable(m.mmu, f)
  {
    hide Mapped, IsTable, Inv;
  }

  ghost predicate Backs(u: Mmu, f: nat) { exists v: nat :: Occupied(u, v) && Frm(u, v) == f }

  /** Main result: in every run from start-up on, a frame is used if and only if start-up had marked it,
      it is a table, it backs a mapped page, it was handed out as a file buffer, or a call lost it; and
      the first and the last two are never a table or behind a page. */
  lemma FrameLedger(p: Pmm, ram: map<nat, Frame>, ops: seq<Op>, f: nat)
    requires PagingInit(p, ram).Booted?
    ensures var s := Sys(PagingInit(p, ram).mem, Heap(0, 0, false), KERNEL_FIRST); var m := Run(s, ops).mem;
      var kept := Used(p, f) || BufferedDuring(s, ops, f) || StraysDuring(s, ops, f);
      && (Used(m.pmm, f) <==> IsTable(m.mmu, f) || Backs(m.mmu, f) || kept)
      && !(kept && (IsTable(m.mmu, f) || Backs(m.mmu, f)))
  {
    hide PagingInit, Run, Used, IsTable, Mapped, Frm;
    var s := Sys(PagingInit(p, ram).mem, Heap(0, 0, false), KERNEL_FIRST);
    BootInv(p, ram);
    BootIdle(p, ram, f);
    RunStrays(s, ops, f);
    OwnedUsed(Run(s, ops).mem, f);
  }

  lemma OwnedUsed(m: Mem, f: nat)
    requires Inv(m)
    ensures IsTable(m.mmu, f) || Backs(m.mmu, f) ==> Used(m.pmm, f)
    ensures Unowned(m.mmu, f) <==> !IsTable(m.mmu, f) && !Backs(m.mmu, f)
  {
    hide Pde, Pte, Present, FrameOf, Used;
  }

  /** Every program start over a mapped stack page loses that page's frame, for every run to come. */
  lemma StackStrays(s: Sys, ops: seq<Op>)
    requires SysInv(s) && Mapped(s.mem.mmu, STACK_PAGE) && Clear(s.mem.pmm.used) > 0
    ensures Idle(Run(Step(s, Stack), ops).mem, Frm(s.mem.mmu, STACK_PAGE))
  {
    hide Inv, HeapOk, Run, Step, Idle, Clear, Mapped, Frm, HasTable, LastFree;
    var f := Frm(s.mem.mmu, STACK_PAGE);
    TableOfMapped(s.mem.mmu, STACK_PAGE);
    LosesFirst(s.mem, STACK_PAGE, f);
    StepStrays(s, Stack, f);
    StepInv(s, Stack);
    RunStrays(Step(s, Stack), ops, f);
  }

  // ---- Tables stay ----

  /** Every directory slot that is filled stays as it is. */
  ghost predicate SlotsKept(u: Mmu, r: Mmu) {
    r.pd == u.pd && forall i: nat | i < ENTRIES && Present(Pde(u, i)) :: Pde(r, i) == Pde(u, i)
  }

  lemma {:induction false} ReleaseSlots(m: Mem, lo: nat, hi: nat)
    requires Inv(m) && UserPages(lo, hi)
    ensures SlotsKept(m.mmu, Release(m, lo, hi).mmu)
    decreases hi - lo
  {
    hide Pde, Pte, Present, Inv, ReleasePage, Unmap, FreeFrame;
    if lo < hi {
      ReleasePageStep(m, lo);
      if Mapped(m.mmu, lo) { UnmapSpec(m.mmu, lo) by { InvSeparate(m); SeparateTables(m.mmu); } }
      ReleaseSlots(ReleasePage(m, lo), lo + 1, hi);
    }
  }

  lemma {:induction false} GrowSlots(m: Mem, lo: nat, v: nat, hi: nat)
    requires Inv(m) && UserPages(lo, v) && UserPages(v, hi)
    ensures SlotsKept(m.mmu, Grow(m, lo, v, hi).mem.mmu)
    decreases hi - v
  {
    hide Pde, Present, Inv, MapPage, AllocFrame, Release;
    if v < hi {
      var g := AllocFrame(m.pmm);
      if g.frame == 0 {
        ReleaseSlots(m, lo, v);
      } else {
        GrowPageInv(m, v);
        MapPageSpec(Mem(g.pmm, m.mmu), v, g.frame, 7);
        GrowSlots(MapPage(Mem(g.pmm, m.mmu), v, g.frame, 7), lo, v + 1, hi);
      }
    }
  }

  lemma SbrkSlots(m: Mem, h: Heap, inc: i32)
    requires Inv(m) && HeapOk(h)
    ensures SlotsKept(m.mmu, Sbrk(m, h, inc).mem.mmu)
  {
    hide Inv, Grow, Release, Pde, Present;
    var brk := Wrap32(h.brk + inc);
    if Accepts(h, inc) && inc > 0 && PageUp(h.brk) < PageUp(brk) {
      GrowSlots(m, PageUp(h.brk), PageUp(h.brk), PageUp(brk));
    } else if Accepts(h, inc) && inc < 0 && PageUp(brk) < PageUp(h.brk) {
      ReleaseSlots(m, PageUp(brk), PageUp(h.brk));
    }
  }

  lemma ExecSlots(m: Mem, h: Heap, d: seq<byte>)
    requires Inv(m)
    ensures SlotsKept(m.mmu, ElfLoad(m, h, d).mem.mmu)
  {
    hide Inv, LoadSegs, TableFits, U16, U32, Segments, MaxEnd, ReachedBy, Without, Pde, Pte, Present, GrewFrames;
    if Accepted(d) {
      var segs := Segments(d, PhNum(d));
      assert Current(m.mmu, []) && Low(m.pmm, []) && Virts([]) == {};
      GrewRefl(m);
      LoadRollsBack(m, m, segs, []);
      WithoutSpec(m, ReachedBy(m, segs, []));
    }
  }

  lemma TakeSlots(m: Mem, v: nat, flags: nat, clear: bool)
    requires Inv(m) && v < PAGES && flags < 4096
    ensures SlotsKept(m.mmu, TakeAndMap(m, v, flags, clear).mmu)
  {
    hide Inv, ZeroPhys, MapPage, AllocFrame, Pde, Pte, Present;
    var g := AllocFrame(m.pmm);
    if g.frame != 0 {
      AllocInv(m);
      AllocSpec(m.pmm);
      ZeroPhysInv(m, g.pmm, g.frame, 1);
      var u := if clear then ZeroPhys(m.mmu, g.frame, 1) else m.mmu;
      MapPageSpec(Mem(g.pmm, u), v, g.frame, flags);
    }
  }

  /** No call ever drops or moves a page table. */
  lemma StepSlots(s: Sys, op: Op)
    requires SysInv(s)
    ensures SlotsKept(s.mem.mmu, Step(s, op).mem.mmu)
  {
    hide Inv, HeapOk, ElfLoad, Sbrk, TakeAndMap, ZeroPhys, AllocBlocks, AllocFrame, Pde, Present;
    match op
    case KernelPage => if KERNEL_FIRST <= s.next < KERNEL_LAST { TakeSlots(s.mem, s.next, 3, false); }
    case Exec(d) => ExecSlots(s.mem, s.heap, d);
    case Stack => TakeSlots(s.mem, STACK_PAGE, 7, true);
    case SbrkCall(inc) => SbrkSlots(s.mem, s.heap, inc);
    case BrkCall(addr) => SbrkSlots(s.mem, s.heap, Signed32(Target(s.heap, addr) - s.heap.brk));
    case Buffer(count) => BufferInv(s.mem, count);
  }
}
