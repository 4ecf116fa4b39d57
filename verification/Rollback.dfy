/** What a load gives back when it fails, for any segments over any pages (kernel/elf.c:109-120, 236-288).

    Frames are handed out lowest first, so every frame taken during a load lies below every frame
    that is still free. A page that a later segment takes over therefore gets its own frame back, and
    the records of an overlapping load never name a frame that has moved elsewhere. */
module Rollback {
  import opened Words
  import opened Frames
  import opened Paging
  import opened Memory
  import opened Ownership
  import opened UserHeap
  import opened Access
  import opened Loader
  import opened Image

  // ---- Records ----

  predicate UserRec(r: Rec) { USER_FIRST <= r.virt < KERNEL_FIRST }

  /** The recorded page is still mapped to the recorded frame. */
  predicate Stands(u: Mmu, r: Rec) { UserRec(r) && Mapped(u, r.virt) && Frm(u, r.virt) == r.phys }

  ghost predicate Current(u: Mmu, recs: seq<Rec>) { forall r | r in recs :: Stands(u, r) }

  predicate IsFree(p: Pmm, f: nat) { Managed(p, f) && !Used(p, f) }

  /** Recorded frames lie below every free one. */
  ghost predicate Low(p: Pmm, recs: seq<Rec>) { forall r, f: nat | r in recs && IsFree(p, f) :: r.phys < f }

  ghost function Virts(recs: seq<Rec>): set<nat> { set r | r in recs :: r.virt }

  lemma CurrentInRange(u: Mmu, recs: seq<Rec>)
    requires Current(u, recs)
    ensures RecsInRange(recs)
  {
  }

  lemma VirtsSnoc(recs: seq<Rec>, r: Rec)
    ensures Virts(recs + [r]) == Virts(recs) + {r.virt}
  {
    assert forall x :: x in recs + [r] <==> x in recs || x == r;
  }

  // ---- One page ----

  /** A load of a page does the same whether or not the page was released before. */
  lemma LoadPageSame(m: Mem, v: nat, flags: nat)
    requires Inv(m) && UserPages(v, v + 1) && flags < 4096
    ensures Inv(ReleasePage(m, v)) && !Mapped(ReleasePage(m, v).mmu, v)
    ensures LoadPage(m, v, flags) == LoadPage(ReleasePage(m, v), v, flags)
  {
    hide Pde, Pte, Unmap, FreeFrame, Inv, MapPage, Translate, AllocFrame;
    ReleasePageStep(m, v);
    ReleasedUnmapped(m, v);
    ReleasePageStep(ReleasePage(m, v), v);
  }

  lemma ReleasedUnmapped(m: Mem, v: nat)
    requires Inv(m) && Tracked(v)
    ensures !Mapped(ReleasePage(m, v).mmu, v)
  {
    hide Pde, Pte, Unmap, FreeFrame, ReleasePage;
    ReleasePageStep(m, v);
    if Mapped(m.mmu, v) { UnmapSpec(m.mmu, v); }
  }

  lemma ReleasedFree(m: Mem, v: nat)
    requires Inv(m) && Tracked(v)
    ensures forall f: nat ::
      IsFree(ReleasePage(m, v).pmm, f) <==> IsFree(m.pmm, f) || (Mapped(m.mmu, v) && f == Frm(m.mmu, v))
  {
    hide Pde, Pte, Unmap, ReleasePage;
    ReleasePageStep(m, v);
    if Mapped(m.mmu, v) {
      assert Occupied(m.mmu, v);
      FreeSpec(m.pmm, Frm(m.mmu, v));
    }
  }

  /** The frame a page gets is the lowest free one, and stays below what is left. */
  lemma LoadedFree(m: Mem, v: nat, flags: nat)
    requires Inv(m) && UserPages(v, v + 1) && (flags == 5 || flags == 7) && !Mapped(m.mmu, v)
    requires LoadPage(m, v, flags).frame != 0
    ensures var p := LoadPage(m, v, flags);
      && p.frame == AllocFrame(m.pmm).frame
      && forall f: nat | IsFree(p.mem.pmm, f) :: IsFree(m.pmm, f) && p.frame < f
  {
    hide Pde, Pte, At, UserBit, Writable, Entry, MapPage, Unmap, FreeFrame, AllocFrame, ReleasePage, IsTable, UsedSet;
    hide LoadPage, Inv, Managed, Used, CanMap;
    LoadPageSteps(m, v, flags);
    ReleasePageStep(m, v);
    var g := AllocFrame(m.pmm);
    AllocatedFree(m.pmm);
    MappedFree(Mem(g.pmm, m.mmu), v, g.frame, flags);
  }

  lemma AllocatedFree(p: Pmm)
    ensures var g := AllocFrame(p); g.frame != 0 ==> forall f: nat | IsFree(g.pmm, f) :: IsFree(p, f) && g.frame < f
  {
    AllocSpec(p);
  }

  lemma MappedFree(m: Mem, v: nat, f: nat, flags: nat)
    requires Inv(m) && v < PAGES && f < PAGES && flags < 4096
    ensures forall x: nat | IsFree(MapPage(m, v, f, flags).pmm, x) :: IsFree(m.pmm, x)
  {
    hide Pde, Pte, At, AllocFrame, TableSet, Inv, Entry, SetPte, Install;
    AllocSpec(m.pmm);
  }

  lemma LowStep(m: Mem, v: nat, flags: nat, recs: seq<Rec>)
    requires Inv(m) && UserPages(v, v + 1) && (flags == 5 || flags == 7) && LoadPage(m, v, flags).frame != 0
    requires Current(m.mmu, recs) && Low(m.pmm, recs)
    ensures var p := LoadPage(m, v, flags);
      Low(p.mem.pmm, recs + [Rec(v, p.frame)]) && (v in Virts(recs) ==> p.frame == Frm(m.mmu, v))
  {
    hide Pde, Pte, LoadPage, ReleasePage, Inv, AllocFrame, Managed, Used, Present, FrameOf;
    LoadPageSame(m, v, flags);
    var m1 := ReleasePage(m, v);
    ReleasedFree(m, v);
    LoadedFree(m1, v, flags);
    LowestFree(m1.pmm);
    var p := LoadPage(m, v, flags);
    if v in Virts(recs) {
      var r :| r in recs && r.virt == v;
      assert Stands(m.mmu, r) && IsFree(m1.pmm, r.phys);
    }
    forall r, f: nat | r in recs + [Rec(v, p.frame)] && IsFree(p.mem.pmm, f) ensures r.phys < f {
      assert IsFree(m1.pmm, f) && IsFree(m1.pmm, p.frame);
      if r in recs && IsFree(m.pmm, p.frame) { assert r.phys < p.frame; }
    }
  }

  lemma LowestFree(p: Pmm)
    ensures var f := AllocFrame(p).frame;
      && (f == 0 <==> forall g: nat :: !IsFree(p, g))
      && (f != 0 ==> IsFree(p, f) && forall g: nat | IsFree(p, g) :: f <= g)
  {
    AllocSpec(p);
    assert AllocFrame(p).frame != 0 ==> IsFree(p, AllocFrame(p).frame);
  }

  lemma CurrentSnoc(m: Mem, r: Mem, recs: seq<Rec>, v: nat, frame: nat, flags: nat)
    requires Current(m.mmu, recs) && UserPages(v, v + 1) && (flags == 5 || flags == 7)
    requires (v in Virts(recs) ==> frame == Frm(m.mmu, v))
    requires PageDone(m, r, v, frame, flags)
    ensures Current(r.mmu, recs + [Rec(v, frame)])
  {
    hide Pde, Pte, At, UserBit, Writable, Entry, Peek;
    forall x | x in recs + [Rec(v, frame)] ensures Stands(r.mmu, x) {
      if x in recs { assert Stands(m.mmu, x) && x.virt in Virts(recs); }
    }
  }

  /** A recorded page can always be loaded again; a page that cannot be loaded leaves the records current. */
  lemma LoadPageFails(m: Mem, v: nat, flags: nat, recs: seq<Rec>)
    requires Inv(m) && UserPages(v, v + 1) && (flags == 5 || flags == 7) && LoadPage(m, v, flags).frame == 0
    requires Current(m.mmu, recs)
    ensures v !in Virts(recs) && Inv(LoadPage(m, v, flags).mem) && Current(LoadPage(m, v, flags).mem.mmu, recs)
  {
    hide Pde, Pte, At, UserBit, Writable, Present, FrameOf, Entry, MapPage, Unmap, FreeFrame, AllocFrame, ReleasePage;
    hide IsTable, UsedSet, LoadPage, Peek, Inv;
    LoadPageSteps(m, v, flags);
    var m1 := ReleasePage(m, v);
    var g := AllocFrame(m1.pmm);
    if g.frame != 0 { FreeInv(Mem(g.pmm, m1.mmu), g.frame); }
    if v in Virts(recs) {
      var r :| r in recs && r.virt == v;
      assert Stands(m.mmu, r);
      Reloadable(m, v);
      assert false;
    }
    ReleaseOthers(m, v);
    forall x | x in recs ensures Stands(LoadPage(m, v, flags).mem.mmu, x) {
      assert Stands(m.mmu, x) && x.virt in Virts(recs);
    }
  }

  lemma Reloadable(m: Mem, v: nat)
    requires Inv(m) && UserPages(v, v + 1) && Mapped(m.mmu, v)
    ensures var m1 := ReleasePage(m, v); AllocFrame(m1.pmm).frame != 0 && CanMap(Mem(AllocFrame(m1.pmm).pmm, m1.mmu), v)
  {
    hide At, UserBit, Writable, FreeFrame, Unmap, AllocFrame, ReleasePage, UsedSet, Pte, FrameOf;
    ReleasedFree(m, v);
    LowestFree(ReleasePage(m, v).pmm);
    assert IsFree(ReleasePage(m, v).pmm, Frm(m.mmu, v));
    ReleasePageStep(m, v);
    UnmapSpec(m.mmu, v);
    TableOfMapped(m.mmu, v);
  }

  // ---- Cleaning up ----

  /** The recorded page is still to be given back, or has been. */
  predicate Pends(m: Mem, r: Rec) { Stands(m.mmu, r) || (UserRec(r) && !Mapped(m.mmu, r.virt) && !Used(m.pmm, r.phys)) }

  ghost predicate Pending(m: Mem, recs: seq<Rec>) { forall r | r in recs :: Pends(m, r) }

  function Drop(m: Mem, r: Rec): Mem
    requires r.virt < PAGES
  {
    Mem(FreeFrame(m.pmm, r.phys), Unmap(m.mmu, r.virt))
  }

  lemma DropInv(m: Mem, r: Rec)
    requires Inv(m) && Pends(m, r)
    ensures r.virt < PAGES && Inv(Drop(m, r))
  {
    hide Pde, Pte, At, UserBit, Writable, Present, FrameOf, Unmap, FreeFrame, IsTable;
    UnmapInv(m, r.virt);
    if Stands(m.mmu, r) {
      assert Occupied(m.mmu, r.virt);
    } else {
      FreeIsUnowned(Mem(m.pmm, Unmap(m.mmu, r.virt)), r.phys);
    }
    FreeInv(Mem(m.pmm, Unmap(m.mmu, r.virt)), r.phys);
  }

  /** Dropping one record leaves every other one pending, also one for the same page. */
  lemma DropPends(m: Mem, r: Rec, x: Rec)
    requires Inv(m) && Pends(m, r) && Pends(m, x)
    ensures r.virt < PAGES && Pends(Drop(m, r), x)
  {
    hide Pde, Pte, At, UserBit, Writable, Unmap, FreeFrame, IsTable, UsedSet;
    UnmapSpec(m.mmu, r.virt);
    FreeSpec(m.pmm, r.phys);
  }

  lemma {:induction false} CleanupInv(m: Mem, recs: seq<Rec>)
    requires Inv(m) && Pending(m, recs)
    ensures RecsInRange(recs) && Inv(Cleanup(m, recs))
    decreases |recs|
  {
    hide Inv, Drop, Pends;
    PendingInRange(m, recs);
    if recs != [] {
      DropInv(m, recs[0]);
      forall x | x in recs[1..] ensures Pends(Drop(m, recs[0]), x) { DropPends(m, recs[0], x); }
      CleanupInv(Drop(m, recs[0]), recs[1..]);
      CleanupFirst(m, recs);
    }
  }

  lemma CleanupFirst(m: Mem, recs: seq<Rec>)
    requires RecsInRange(recs) && recs != []
    ensures RecsInRange(recs[1..]) && Cleanup(m, recs) == Cleanup(Drop(m, recs[0]), recs[1..])
  {
  }

  lemma PendingInRange(m: Mem, recs: seq<Rec>)
    requires Pending(m, recs)
    ensures RecsInRange(recs)
  {
    forall r | r in recs ensures r.virt < PAGES { assert Pends(m, r); }
  }

  lemma CurrentPends(m: Mem, recs: seq<Rec>)
    requires Current(m.mmu, recs)
    ensures Pending(m, recs)
  {
    hide Mapped;
  }

  /** Dropping a record that has been given back changes nothing in the ledger. */
  lemma GrewNothing(m0: Mem, m: Mem, pages: set<nat>, r: Rec)
    requires Inv(m) && Grew(m0, m, pages, {}) && r.virt < PAGES && r.virt !in pages && !Mapped(m.mmu, r.virt)
    requires !Used(m.pmm, r.phys)
    ensures Grew(m0, Drop(m, r), pages, {})
  {
    hide Pde, Pte, At, UserBit, Writable, Present, FrameOf, Unmap, FreeFrame, UsedSet, TableSet, KernelPrivate;
    hide UserTables;
    UnmapSpec(m.mmu, r.virt);
    FreeSpec(m.pmm, r.phys);
    UsedMember(m.pmm);
    var d := Drop(m, r);
    UsedMember(d.pmm);
    assert UsedSet(d.pmm) == UsedSet(m.pmm);
    assert FramesOf(d.mmu, pages) == FramesOf(m.mmu, pages) by {
      assert forall w: nat | w in pages :: Frm(d.mmu, w) == Frm(m.mmu, w) && Occupied(d.mmu, w) == Occupied(m.mmu, w);
    }
  }

  lemma DropGrew(m0: Mem, m: Mem, pages: set<nat>, r: Rec)
    requires Inv(m0) && Inv(m) && Grew(m0, m, pages, {}) && Pends(m, r) && !Mapped(m0.mmu, r.virt)
    ensures Grew(m0, Drop(m, r), pages - {r.virt}, {})
  {
    hide Pde, Pte, At, UserBit, Writable, Present, FrameOf, Unmap, FreeFrame, UsedSet, TableSet, Inv, GrewFrames;
    if Stands(m.mmu, r) {
      assert r.virt in pages;
      GrewUnmapFree(m0, m, pages, {}, r.virt);
    } else {
      assert r.virt !in pages;
      GrewNothing(m0, m, pages, r);
      assert pages - {r.virt} == pages;
    }
  }

  lemma {:induction false} CleanupRestores(m0: Mem, m: Mem, recs: seq<Rec>, pages: set<nat>)
    requires Inv(m0) && Inv(m) && Grew(m0, m, pages, {}) && Pending(m, recs) && pages <= Virts(recs)
    requires forall r | r in recs :: r.virt < PAGES && !Mapped(m0.mmu, r.virt)
    ensures RecsInRange(recs) && Grew(m0, Cleanup(m, recs), {}, {})
    decreases |recs|
  {
    hide Inv, Drop, Pends, Grew, Mapped;
    PendingInRange(m, recs);
    if recs == [] {
      assert pages == {};
    } else {
      var r := recs[0];
      DropInv(m, r);
      DropGrew(m0, m, pages, r);
      forall x | x in recs[1..] ensures Pends(Drop(m, r), x) { DropPends(m, r, x); }
      assert pages - {r.virt} <= Virts(recs[1..]) by {
        assert forall x | x in recs :: x == r || x in recs[1..];
      }
      CleanupRestores(m0, Drop(m, r), recs[1..], pages - {r.virt});
      CleanupFirst(m, recs);
    }
  }

  // ---- Ownership over any load ----

  lemma {:induction false} LoadPagesInv(m: Mem, v: nat, hi: nat, flags: nat, recs: seq<Rec>)
    requires Inv(m) && UserPages(v, hi) && (flags == 5 || flags == 7) && Current(m.mmu, recs) && Low(m.pmm, recs)
    ensures RecsInRange(recs)
    ensures var l := LoadPages(m, v, hi, flags, recs);
      Inv(l.mem) && (l.ok ==> Current(l.mem.mmu, l.recs) && Low(l.mem.pmm, l.recs))
    decreases hi - v
  {
    hide LoadPage, Inv, Current, PageDone, Low;
    CurrentInRange(m.mmu, recs);
    if v < hi {
      var p := LoadPage(m, v, flags);
      if p.frame == 0 {
        LoadPageFails(m, v, flags, recs);
        CurrentPends(p.mem, recs);
        CleanupInv(p.mem, recs);
      } else {
        LoadPageDone(m, v, flags);
        LowStep(m, v, flags, recs);
        CurrentSnoc(m, p.mem, recs, v, p.frame, flags);
        LoadPagesInv(p.mem, v + 1, hi, flags, recs + [Rec(v, p.frame)]);
      }
    }
  }

  lemma SameViewCurrent(u: Mmu, r: Mmu, recs: seq<Rec>)
    requires SameView(u, r) && Current(u, recs)
    ensures Current(r, recs)
  {
    hide Pte, Pde;
    forall x | x in recs ensures Stands(r, x) { assert Stands(u, x); }
  }

  /** Any load, overlapping or not, over mapped pages or not, keeps frame ownership on every exit. */
  lemma {:induction false} LoadSegsInv(m: Mem, segs: seq<Seg>, recs: seq<Rec>)
    requires Inv(m) && SegsOk(segs) && Current(m.mmu, recs) && Low(m.pmm, recs)
    ensures RecsInRange(recs) && Inv(LoadSegs(m, segs, recs).mem)
    decreases |segs|
  {
    hide Inv, LoadPages, Fill, Current, Low;
    CurrentInRange(m.mmu, recs);
    if segs != [] {
      var s := segs[0];
      assert SegOk(s);
      if EndPage(s) == FirstPage(s) {
        LoadSegsInv(m, segs[1..], recs);
      } else if EndPage(s) - FirstPage(s) > MAX_PAGES - |recs| {
        CurrentPends(m, recs);
        CleanupInv(m, recs);
      } else {
        LoadPagesInv(m, FirstPage(s), EndPage(s), Flags(s), recs);
        var l := LoadPages(m, FirstPage(s), EndPage(s), Flags(s), recs);
        if l.ok {
          FillStep(m, s, recs);
          SameViewCurrent(l.mem.mmu, Fill(l.mem.mmu, s), l.recs);
          LoadSegsInv(Mem(l.mem.pmm, Fill(l.mem.mmu, s)), segs[1..], l.recs);
        }
      }
    }
  }

  // ---- The ledger of a load ----

  lemma LoadPageFailsGrew(m0: Mem, m: Mem, v: nat, flags: nat, pages: set<nat>)
    requires Inv(m0) && Inv(m) && UserPages(v, v + 1) && (flags == 5 || flags == 7) && LoadPage(m, v, flags).frame == 0
    requires Grew(m0, m, pages, {}) && !Mapped(m.mmu, v)
    ensures Grew(m0, LoadPage(m, v, flags).mem, pages, {})
  {
    hide Pde, Pte, At, UserBit, Writable, Present, FrameOf, Entry, MapPage, Unmap, FreeFrame, AllocFrame, ReleasePage;
    hide IsTable, UsedSet, LoadPage, Peek, Inv, GrewFrames;
    LoadPageSteps(m, v, flags);
    ReleasePageStep(m, v);
    var g := AllocFrame(m.pmm);
    if g.frame != 0 {
      GrewAlloc(m0, m, pages, {});
      assert {} + {g.frame} == {g.frame} && {g.frame} - {g.frame} == {};
      GrewFree(m0, Mem(g.pmm, m.mmu), pages, {g.frame}, g.frame);
    }
  }

  lemma LoadPageGrew(m0: Mem, m: Mem, v: nat, flags: nat, pages: set<nat>)
    requires Inv(m0) && Inv(m) && UserPages(v, v + 1) && (flags == 5 || flags == 7) && LoadPage(m, v, flags).frame != 0
    requires Grew(m0, m, pages, {}) && v !in pages && !Mapped(m.mmu, v)
    ensures Grew(m0, LoadPage(m, v, flags).mem, pages + {v}, {})
  {
    hide Pde, Pte, At, UserBit, Writable, Present, FrameOf, Entry, MapPage, Unmap, FreeFrame, AllocFrame, ReleasePage;
    hide IsTable, UsedSet, LoadPage, Peek, Inv, GrewFrames, FramesOf, TableSet;
    LoadPageSteps(m, v, flags);
    ReleasePageStep(m, v);
    assert !Mapped(m0.mmu, v);
    var g := AllocFrame(m.pmm);
    var m1 := Mem(g.pmm, m.mmu);
    GrewAlloc(m0, m, pages, {});
    assert {} + {g.frame} == {g.frame} && {g.frame} - {g.frame} == {};
    GrewMap(m0, m1, pages, {g.frame}, v, g.frame, flags);
    var m2 := MapPage(m1, v, g.frame, flags);
    InvSeparate(m2);
    BackedPage(m2.mmu, v);
    WriteSpec(m2.mmu, v * 4096, ZeroFrame());
    SameViewGrew(m0, m2, LoadPage(m, v, flags).mem.mmu, pages + {v}, {});
  }

  /** Releasing the same page in both states keeps the ledger between them. */
  lemma Rebase(m0: Mem, m: Mem, pages: set<nat>, v: nat)
    requires Inv(m0) && Inv(m) && Grew(m0, m, pages, {}) && Tracked(v) && v !in pages
    ensures Inv(ReleasePage(m0, v)) && Inv(ReleasePage(m, v)) && Grew(ReleasePage(m0, v), ReleasePage(m, v), pages, {})
  {
    hide Pde, Pte, At, UserBit, Writable, Present, FrameOf, Unmap, FreeFrame, UsedSet, TableSet, ReleasePage;
    hide KernelPrivate, UserTables;
    ReleasePageStep(m0, v);
    ReleasePageStep(m, v);
    if Mapped(m0.mmu, v) {
      var g := Frm(m.mmu, v);
      assert Occupied(m.mmu, v) && Occupied(m0.mmu, v) && Frm(m0.mmu, v) == g;
      UnmapSpec(m0.mmu, v);
      UnmapSpec(m.mmu, v);
      FreedSets(m0.pmm, g);
      FreedSets(m.pmm, g);
      TableMember(m.mmu);
      var r := ReleasePage(m, v);
      assert forall w: nat | w in pages :: Frm(r.mmu, w) == Frm(m.mmu, w) && Occupied(r.mmu, w) && Frm(m.mmu, w) != g;
      assert FramesOf(r.mmu, pages) == FramesOf(m.mmu, pages) && g !in FramesOf(m.mmu, pages);
    }
  }

  lemma FreedSets(p: Pmm, f: nat)
    ensures UsedSet(FreeFrame(p, f)) == UsedSet(p) - {f}
  {
  }

  /** One page of the load, over the base state without that page. */
  lemma PageGrew(m0: Mem, m: Mem, v: nat, flags: nat, recs: seq<Rec>)
    requires Inv(m0) && Inv(m) && UserPages(v, v + 1) && (flags == 5 || flags == 7) && Grew(m0, m, Virts(recs), {})
    ensures var b := ReleasePage(m0, v); var p := LoadPage(m, v, flags);
      && Inv(b) && (p.frame != 0 ==> Grew(b, p.mem, Virts(recs) + {v}, {}))
      && (p.frame == 0 && v !in Virts(recs) ==> Grew(b, p.mem, Virts(recs), {}))
  {
    hide Pde, Pte, Present, FrameOf, LoadPage, ReleasePage, Inv, GrewFrames, Virts;
    LoadPageSame(m, v, flags);
    var m1 := ReleasePage(m, v);
    var pages := Virts(recs);
    ReleasePageStep(m0, v);
    ReleasePageStep(m, v);
    if v in pages {
      assert Occupied(m.mmu, v) && !Mapped(m0.mmu, v);
      GrewUnmapFree(m0, m, pages, {}, v);
      if LoadPage(m, v, flags).frame != 0 {
        LoadPageGrew(m0, m1, v, flags, pages - {v});
        assert pages - {v} + {v} == pages + {v};
      }
    } else {
      Rebase(m0, m, pages, v);
      if LoadPage(m, v, flags).frame != 0 {
        LoadPageGrew(ReleasePage(m0, v), m1, v, flags, pages);
      } else {
        LoadPageFailsGrew(ReleasePage(m0, v), m1, v, flags, pages);
      }
    }
  }

  /** The state without the given pages. */
  function Without(m: Mem, ts: seq<nat>): Mem
    requires forall v | v in ts :: v < PAGES
    decreases |ts|
  {
    if ts == [] then m
    else
      assert ts[0] in ts && forall v | v in ts[1..] :: v in ts;
      Without(ReleasePage(m, ts[0]), ts[1..])
  }

  ghost predicate UserOnly(ts: seq<nat>) { forall v | v in ts :: USER_FIRST <= v < KERNEL_FIRST }

  /** The pages the loop over one segment gets to, the one it fails on included. */
  function PagesReached(m: Mem, v: nat, hi: nat, flags: nat): (ts: seq<nat>)
    requires v <= hi <= PAGES && flags < 4096
    ensures forall w | w in ts :: v <= w < hi
    decreases hi - v
  {
    if v == hi then []
    else
      var p := LoadPage(m, v, flags);
      [v] + (if p.frame == 0 then [] else PagesReached(p.mem, v + 1, hi, flags))
  }

  /** The pages a load gets to. */
  function ReachedBy(m: Mem, segs: seq<Seg>, recs: seq<Rec>): (ts: seq<nat>)
    requires SegsOk(segs) && RecsInRange(recs)
    ensures forall w | w in ts :: USER_FIRST <= w < KERNEL_FIRST && exists s :: s in segs && Covers(s, w)
    decreases |segs|
  {
    if segs == [] then []
    else
      var s := segs[0];
      assert SegOk(s);
      assert forall t | t in segs[1..] :: t in segs;
      if EndPage(s) == FirstPage(s) then ReachedBy(m, segs[1..], recs)
      else if EndPage(s) - FirstPage(s) > MAX_PAGES - |recs| then []
      else
        var l := LoadPages(m, FirstPage(s), EndPage(s), Flags(s), recs);
        var ts := PagesReached(m, FirstPage(s), EndPage(s), Flags(s));
        assert forall w | w in ts :: s in segs && Covers(s, w);
        ts + (if l.ok then ReachedBy(Mem(l.mem.pmm, Fill(l.mem.mmu, s)), segs[1..], l.recs) else [])
  }

  lemma {:induction false} WithoutAppend(m: Mem, a: seq<nat>, b: seq<nat>)
    requires (forall v | v in a :: v < PAGES) && (forall v | v in b :: v < PAGES)
    ensures Without(m, a + b) == Without(Without(m, a), b)
    decreases |a|
  {
    if a == [] {
      assert a + b == b;
    } else {
      assert (a + b)[1..] == a[1..] + b;
      assert a[0] in a && forall v | v in a[1..] :: v in a;
      WithoutAppend(ReleasePage(m, a[0]), a[1..], b);
    }
  }

  lemma WithoutFirst(m: Mem, v: nat, ts: seq<nat>)
    requires v < PAGES && forall w | w in ts :: w < PAGES
    ensures Without(m, [v] + ts) == Without(ReleasePage(m, v), ts)
  {
    assert ([v] + ts)[1..] == ts;
  }

  lemma {:induction false} LoadPagesGrew(m0: Mem, m: Mem, v: nat, hi: nat, flags: nat, recs: seq<Rec>)
    requires Inv(m0) && Inv(m) && UserPages(v, hi) && (flags == 5 || flags == 7)
    requires Grew(m0, m, Virts(recs), {}) && Current(m.mmu, recs) && Low(m.pmm, recs)
    ensures RecsInRange(recs)
    ensures var l := LoadPages(m, v, hi, flags, recs); var b := Without(m0, PagesReached(m, v, hi, flags));
      Inv(b) && (if l.ok then Grew(b, l.mem, Virts(l.recs), {}) else Grew(b, l.mem, {}, {}))
    decreases hi - v
  {
    hide LoadPage, Inv, Current, PageDone, Grew, Mapped, Virts, Low, ReleasePage;
    CurrentInRange(m.mmu, recs);
    if v < hi {
      var p := LoadPage(m, v, flags);
      var b := ReleasePage(m0, v);
      PageGrew(m0, m, v, flags, recs);
      if p.frame == 0 {
        WithoutFirst(m0, v, []);
        LoadPageFails(m, v, flags, recs);
        CurrentPends(p.mem, recs);
        GrewUnmapped(b, p.mem, recs);
        CleanupRestores(b, p.mem, recs, Virts(recs));
      } else {
        WithoutFirst(m0, v, PagesReached(p.mem, v + 1, hi, flags));
        LoadPageDone(m, v, flags);
        LowStep(m, v, flags, recs);
        CurrentSnoc(m, p.mem, recs, v, p.frame, flags);
        VirtsSnoc(recs, Rec(v, p.frame));
        LoadPagesGrew(b, p.mem, v + 1, hi, flags, recs + [Rec(v, p.frame)]);
      }
    }
  }

  lemma GrewUnmapped(m0: Mem, m: Mem, recs: seq<Rec>)
    requires Grew(m0, m, Virts(recs), {}) && RecsInRange(recs)
    ensures forall r | r in recs :: r.virt < PAGES && !Mapped(m0.mmu, r.virt)
  {
    hide Mapped, Pde, Pte;
    forall r | r in recs ensures !Mapped(m0.mmu, r.virt) { assert r.virt in Virts(recs); }
  }

  /** Main result for a failed load, whatever the segments and whatever was mapped: compared with the
      state without the pages it got to, nothing is left but new page tables. A successful one
      accounts for every frame in the same way. */
  lemma {:induction false} LoadRollsBack(m0: Mem, m: Mem, segs: seq<Seg>, recs: seq<Rec>)
    requires Inv(m0) && Inv(m) && SegsOk(segs) && Current(m.mmu, recs) && Low(m.pmm, recs)
    requires Grew(m0, m, Virts(recs), {})
    ensures RecsInRange(recs)
    ensures var l := LoadSegs(m, segs, recs); var b := Without(m0, ReachedBy(m, segs, recs));
      Inv(b) && (if l.ok then Grew(b, l.mem, Virts(l.recs), {}) else Grew(b, l.mem, {}, {}))
    decreases |segs|
  {
    hide Inv, LoadPages, Fill, Current, Grew, Mapped, Virts, Low;
    CurrentInRange(m.mmu, recs);
    if segs != [] {
      var s := segs[0];
      assert SegOk(s);
      if EndPage(s) == FirstPage(s) {
        LoadRollsBack(m0, m, segs[1..], recs);
      } else if EndPage(s) - FirstPage(s) > MAX_PAGES - |recs| {
        CurrentPends(m, recs);
        GrewUnmapped(m0, m, recs);
        CleanupRestores(m0, m, recs, Virts(recs));
      } else {
        LoadPagesInv(m, FirstPage(s), EndPage(s), Flags(s), recs);
        LoadPagesGrew(m0, m, FirstPage(s), EndPage(s), Flags(s), recs);
        var l := LoadPages(m, FirstPage(s), EndPage(s), Flags(s), recs);
        var ts := PagesReached(m, FirstPage(s), EndPage(s), Flags(s));
        var b := Without(m0, ts);
        if l.ok {
          var next := Mem(l.mem.pmm, Fill(l.mem.mmu, s));
          FillStep(m, s, recs);
          SameViewCurrent(l.mem.mmu, next.mmu, l.recs);
          SameViewGrew(b, l.mem, next.mmu, Virts(l.recs), {});
          LoadRollsBack(b, next, segs[1..], l.recs);
          WithoutAppend(m0, ts, ReachedBy(next, segs[1..], l.recs));
        } else {
          assert ts + [] == ts;
        }
      }
    }
  }

  // ---- What is left without a set of pages ----

  ghost function SetOf(ts: seq<nat>): set<nat> { set v | v in ts }

  lemma {:induction false} WithoutSpec(m: Mem, ts: seq<nat>)
    requires Inv(m) && UserOnly(ts)
    ensures var r := Without(m, ts);
      && Inv(r) && r.mmu.pd == m.mmu.pd
      && (forall v: nat | v in ts :: !Mapped(r.mmu, v))
      && (forall v: nat | v < PAGES && v !in ts :: Pte(r.mmu, v) == Pte(m.mmu, v))
      && (forall i: nat | i < ENTRIES :: Pde(r.mmu, i) == Pde(m.mmu, i))
      && TableSet(r.mmu) == TableSet(m.mmu)
      && UsedSet(r.pmm) == UsedSet(m.pmm) - FramesOf(m.mmu, SetOf(ts))
    decreases |ts|
  {
    hide Pde, Pte, At, UserBit, Writable, Present, FrameOf, FreeFrame, Unmap, ReleasePage, UsedSet, TableSet;
    hide Separate, KernelPrivate, UserTables;
    if ts == [] {
      assert FramesOf(m.mmu, SetOf(ts)) == {};
    } else {
      var v := ts[0];
      assert v in ts && forall w | w in ts[1..] :: w in ts;
      ReleasePageStep(m, v);
      ReleasedUnmapped(m, v);
      var r := ReleasePage(m, v);
      if Mapped(m.mmu, v) { UnmapSpec(m.mmu, v) by { InvSeparate(m); SeparateTables(m.mmu); } }
      WithoutSpec(r, ts[1..]);
      ReleasedSets(m, v, SetOf(ts[1..]));
      assert SetOf(ts) == {v} + SetOf(ts[1..]);
    }
  }

  lemma ReleasedSets(m: Mem, v: nat, rest: set<nat>)
    requires Inv(m) && Tracked(v)
    ensures var r := ReleasePage(m, v);
      UsedSet(r.pmm) - FramesOf(r.mmu, rest) == UsedSet(m.pmm) - FramesOf(m.mmu, {v} + rest)
  {
    hide Pde, Pte, At, UserBit, Writable, Present, FrameOf, Unmap, FreeFrame, UsedSet, TableSet, ReleasePage;
    hide KernelPrivate, UserTables;
    ReleasePageStep(m, v);
    var r := ReleasePage(m, v);
    if Mapped(m.mmu, v) {
      UnmapSpec(m.mmu, v);
      FreedSets(m.pmm, Frm(m.mmu, v));
      assert Occupied(m.mmu, v);
      assert forall w: nat | w != v ::
        Occupied(r.mmu, w) == Occupied(m.mmu, w) && (Occupied(m.mmu, w) ==> Frm(r.mmu, w) == Frm(m.mmu, w));
      forall f ensures f in FramesOf(m.mmu, {v} + rest) <==> f in FramesOf(r.mmu, rest) + {Frm(m.mmu, v)} { }
    } else {
      assert !Occupied(m.mmu, v);
      assert FramesOf(m.mmu, {v} + rest) == FramesOf(m.mmu, rest);
    }
  }
}
