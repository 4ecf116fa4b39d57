/** The kernel heap's pages under everything else the kernel does: loads, break calls, stack and
    buffer allocation and heap growth leave every byte of it where it was, through translation
    (kernel/kernel.c:446-459, kernel/elf.c:32-94, 213-292, kernel/fs.c:172-187). */
module Isolation {
  import opened Words
  import opened Frames
  import opened Paging
  import opened Memory
  import opened Ownership
  import opened UserHeap
  import opened Access
  import opened Break
  import opened Loader
  import opened Image
  import opened Rollback
  import opened Elf
  import opened System
  import opened Reserved

  predicate HeapPage(v: nat) { KERNEL_FIRST <= v < KERNEL_LAST }

  /** Every heap page has the same entry, and every byte of a mapped one reads the same. */
  ghost predicate Kept(u: Mmu, r: Mmu) {
    && (forall v: nat | HeapPage(v) :: Pte(r, v) == Pte(u, v))
    && (forall a: u32 | HeapPage(a / 4096) && Mapped(u, a / 4096) :: Peek(r, a) == Peek(u, a))
  }

  lemma KeptTrans(u: Mmu, r: Mmu, s: Mmu)
    requires Kept(u, r) && Kept(r, s)
    ensures Kept(u, s)
  {
    hide Pte, Peek, Present;
  }

  lemma KeptRefl(u: Mmu)
    ensures Kept(u, u)
  {
  }

  // ---- The parts of a call ----

  lemma KeptRelease(m: Mem, v: nat)
    requires Inv(m) && UserPages(v, v + 1)
    ensures Inv(ReleasePage(m, v)) && Kept(m.mmu, ReleasePage(m, v).mmu)
  {
    hide Pte, Peek, Present, ReleasePage, Inv;
    ReleasePageStep(m, v);
    ReleaseOthers(m, v);
  }

  lemma KeptMap(m: Mem, v: nat, f: nat, flags: nat)
    requires Inv(m) && v < KERNEL_FIRST && f < PAGES && flags < 4096
    ensures Kept(m.mmu, MapPage(m, v, f, flags).mmu)
  {
    hide Pte, Peek, Present, MapPage, Inv;
    MapOthers(m, v, f, flags);
  }

  lemma {:induction false} KeptReleaseRange(m: Mem, lo: nat, hi: nat)
    requires Inv(m) && UserPages(lo, hi)
    ensures Kept(m.mmu, Release(m, lo, hi).mmu)
    decreases hi - lo
  {
    hide Kept, ReleasePage, Inv;
    if lo < hi {
      KeptRelease(m, lo);
      KeptReleaseRange(ReleasePage(m, lo), lo + 1, hi);
      KeptTrans(m.mmu, ReleasePage(m, lo).mmu, Release(m, lo, hi).mmu);
    } else {
      KeptRefl(m.mmu);
    }
  }

  lemma {:induction false} KeptGrow(m: Mem, lo: nat, v: nat, hi: nat)
    requires Inv(m) && UserPages(lo, v) && UserPages(v, hi)
    ensures Kept(m.mmu, Grow(m, lo, v, hi).mem.mmu)
    decreases hi - v
  {
    hide Kept, MapPage, AllocFrame, Release, Inv;
    if v == hi {
      KeptRefl(m.mmu);
    } else {
      var g := AllocFrame(m.pmm);
      if g.frame == 0 {
        KeptReleaseRange(m, lo, v);
      } else {
        GrowPageInv(m, v);
        var r := MapPage(Mem(g.pmm, m.mmu), v, g.frame, 7);
        KeptMap(Mem(g.pmm, m.mmu), v, g.frame, 7);
        KeptGrow(r, lo, v + 1, hi);
        KeptTrans(m.mmu, r.mmu, Grow(m, lo, v, hi).mem.mmu);
      }
    }
  }

  lemma KeptSbrk(m: Mem, h: Heap, inc: i32)
    requires Inv(m) && HeapOk(h)
    ensures Kept(m.mmu, Sbrk(m, h, inc).mem.mmu)
  {
    hide Kept, Inv, Grow, Release;
    KeptRefl(m.mmu);
    var brk := Wrap32(h.brk + inc);
    if Accepts(h, inc) && inc > 0 && PageUp(h.brk) < PageUp(brk) {
      KeptGrow(m, PageUp(h.brk), PageUp(h.brk), PageUp(brk));
    } else if Accepts(h, inc) && inc < 0 && PageUp(brk) < PageUp(h.brk) {
      KeptReleaseRange(m, PageUp(brk), PageUp(h.brk));
    }
  }

  // ---- Loads ----

  lemma KeptLoadPage(m: Mem, v: nat, flags: nat)
    requires Inv(m) && UserPages(v, v + 1) && (flags == 5 || flags == 7)
    ensures Kept(m.mmu, LoadPage(m, v, flags).mem.mmu)
  {
    hide Pte, Peek, Present, LoadPage, Inv, ReleasePage, MapPage, AllocFrame, FreeFrame, CanMap, Entry;
    if LoadPage(m, v, flags).frame != 0 {
      LoadPageDone(m, v, flags);
    } else {
      LoadPageSteps(m, v, flags);
      ReleaseOthers(m, v);
    }
  }

  lemma KeptDrop(m: Mem, r: Rec)
    requires Inv(m) && UserRec(r)
    ensures Kept(m.mmu, Drop(m, r).mmu)
  {
    hide Pde, Pte, At, Present, FrameOf, Unmap, FreeFrame, IsTable;
    UnmapSpec(m.mmu, r.virt);
    forall a: u32 | HeapPage(a / 4096) && Mapped(m.mmu, a / 4096) ensures Peek(Drop(m, r).mmu, a) == Peek(m.mmu, a) {
      assert Occupied(m.mmu, a / 4096);
    }
  }

  lemma {:induction false} KeptCleanup(m: Mem, recs: seq<Rec>)
    requires Inv(m) && Pending(m, recs)
    ensures RecsInRange(recs) && Kept(m.mmu, Cleanup(m, recs).mmu)
    decreases |recs|
  {
    hide Inv, Drop, Pends, Kept, UserRec;
    PendingInRange(m, recs);
    if recs == [] {
      KeptRefl(m.mmu);
    } else {
      PendsUser(m, recs[0]);
      DropInv(m, recs[0]);
      KeptDrop(m, recs[0]);
      forall x | x in recs[1..] ensures Pends(Drop(m, recs[0]), x) { DropPends(m, recs[0], x); }
      KeptCleanup(Drop(m, recs[0]), recs[1..]);
      CleanupFirst(m, recs);
      KeptTrans(m.mmu, Drop(m, recs[0]).mmu, Cleanup(m, recs).mmu);
    }
  }

  lemma PendsUser(m: Mem, r: Rec)
    requires Pends(m, r)
    ensures UserRec(r)
  {
  }

  lemma {:induction false} KeptLoadPages(m: Mem, v: nat, hi: nat, flags: nat, recs: seq<Rec>)
    requires Inv(m) && UserPages(v, hi) && (flags == 5 || flags == 7) && Current(m.mmu, recs) && Low(m.pmm, recs)
    ensures RecsInRange(recs) && Kept(m.mmu, LoadPages(m, v, hi, flags, recs).mem.mmu)
    decreases hi - v
  {
    hide LoadPage, Inv, Current, PageDone, Low, Kept;
    CurrentInRange(m.mmu, recs);
    if v == hi {
      KeptRefl(m.mmu);
    } else {
      var p := LoadPage(m, v, flags);
      KeptLoadPage(m, v, flags);
      if p.frame == 0 {
        LoadPageFails(m, v, flags, recs);
        CurrentPends(p.mem, recs);
        KeptCleanup(p.mem, recs);
      } else {
        LoadPageDone(m, v, flags);
        LowStep(m, v, flags, recs);
        CurrentSnoc(m, p.mem, recs, v, p.frame, flags);
        KeptLoadPages(p.mem, v + 1, hi, flags, recs + [Rec(v, p.frame)]);
      }
      KeptTrans(m.mmu, p.mem.mmu, LoadPages(m, v, hi, flags, recs).mem.mmu);
    }
  }

  lemma KeptFill(m: Mem, s: Seg)
    requires Inv(m) && SegOk(s) && forall v: nat | Covers(s, v) :: Occupied(m.mmu, v)
    ensures Kept(m.mmu, Fill(m.mmu, s))
  {
    hide Pde, Pte, Peek, Fill, Inv, Present;
    InvSeparate(m);
    FillSpec(m.mmu, s);
    forall a: u32 | HeapPage(a / 4096) && Mapped(m.mmu, a / 4096) ensures Peek(Fill(m.mmu, s), a) == Peek(m.mmu, a) {
      assert Occupied(m.mmu, a / 4096) && !(s.va <= a < s.va + s.memsz);
    }
  }

  lemma {:induction false} KeptLoadSegs(m: Mem, segs: seq<Seg>, recs: seq<Rec>)
    requires Inv(m) && SegsOk(segs) && Current(m.mmu, recs) && Low(m.pmm, recs)
    ensures RecsInRange(recs) && Kept(m.mmu, LoadSegs(m, segs, recs).mem.mmu)
    decreases |segs|
  {
    hide Inv, LoadPages, Fill, Current, Low, Kept, Pte, Entry;
    CurrentInRange(m.mmu, recs);
    KeptRefl(m.mmu);
    if segs != [] {
      var s := segs[0];
      assert SegOk(s);
      if EndPage(s) == FirstPage(s) {
        KeptLoadSegs(m, segs[1..], recs);
      } else if EndPage(s) - FirstPage(s) > MAX_PAGES - |recs| {
        CurrentPends(m, recs);
        KeptCleanup(m, recs);
      } else {
        KeptLoadPages(m, FirstPage(s), EndPage(s), Flags(s), recs);
        LoadPagesInv(m, FirstPage(s), EndPage(s), Flags(s), recs);
        var l := LoadPages(m, FirstPage(s), EndPage(s), Flags(s), recs);
        if l.ok {
          var next := Mem(l.mem.pmm, Fill(l.mem.mmu, s));
          LoadPagesDone(m, FirstPage(s), EndPage(s), Flags(s), recs);
          KeptFill(l.mem, s);
          FillStep(m, s, recs);
          SameViewCurrent(l.mem.mmu, next.mmu, l.recs);
          KeptLoadSegs(next, segs[1..], l.recs);
          KeptTrans(m.mmu, l.mem.mmu, next.mmu);
          KeptTrans(m.mmu, next.mmu, LoadSegs(m, segs, recs).mem.mmu);
        }
      }
    }
  }

  lemma KeptExec(m: Mem, h: Heap, d: seq<byte>)
    requires Inv(m)
    ensures Kept(m.mmu, ElfLoad(m, h, d).mem.mmu)
  {
    hide Inv, LoadSegs, TableFits, U16, U32, Segments, MaxEnd, Kept;
    KeptRefl(m.mmu);
    if Accepted(d) { KeptLoadSegs(m, Segments(d, PhNum(d)), []); }
  }

  // ---- Stack, buffers and heap pages ----

  lemma KeptZero(m: Mem, p: Pmm, f: nat, n: nat)
    requires Inv(m) && Inv(Mem(p, m.mmu)) && forall g: nat | f <= g < f + n :: !Used(m.pmm, g)
    ensures Kept(m.mmu, ZeroPhys(m.mmu, f, n))
  {
    hide Pde, Pte, At, Present, FrameOf, ZeroPhys;
    ZeroPhysInv(m, p, f, n);
    ZeroPhysFrames(m.mmu, f, n);
    forall a: u32 | HeapPage(a / 4096) && Mapped(m.mmu, a / 4096)
      ensures Peek(ZeroPhys(m.mmu, f, n), a) == Peek(m.mmu, a)
    {
      assert Occupied(m.mmu, a / 4096) && Used(m.pmm, Frm(m.mmu, a / 4096));
    }
  }

  /** Mapping one more heap page changes that page only. */
  ghost predicate KeptBut(u: Mmu, r: Mmu, v: nat) {
    && (forall w: nat | HeapPage(w) && w != v :: Pte(r, w) == Pte(u, w))
    && (forall a: u32 | HeapPage(a / 4096) && a / 4096 != v && Mapped(u, a / 4096) :: Peek(r, a) == Peek(u, a))
  }

  lemma KeptTake(m: Mem, v: nat, flags: nat, clear: bool)
    requires Inv(m) && v < KERNEL_LAST && flags < 4096
    ensures KeptBut(m.mmu, TakeAndMap(m, v, flags, clear).mmu, v)
  {
    hide Pde, Pte, Peek, Present, MapPage, ZeroPhys, Inv, AllocFrame;
    var g := AllocFrame(m.pmm);
    if g.frame != 0 {
      AllocInv(m);
      AllocSpec(m.pmm);
      KeptZero(m, g.pmm, g.frame, 1);
      ZeroPhysInv(m, g.pmm, g.frame, 1);
      var u := if clear then ZeroPhys(m.mmu, g.frame, 1) else m.mmu;
      MapOthers(Mem(g.pmm, u), v, g.frame, flags);
    }
  }

  lemma KeptBuffer(m: Mem, count: u32)
    requires Inv(m)
    ensures var g := AllocBlocks(m.pmm, count);
      g.frame != 0 ==> Kept(m.mmu, ZeroPhys(m.mmu, g.frame, count))
  {
    hide Kept, Inv, ZeroPhys;
    var g := AllocBlocks(m.pmm, count);
    if g.frame != 0 {
      BlocksUsed(m.pmm, count);
      BlocksFree(m.pmm, count);
      hide AllocBlocks;
      PmmInv(m, g.pmm);
      KeptZero(m, g.pmm, g.frame, count);
    }
  }

  // ---- Whole runs ----

  /** Heap pages from heap_next_virtual on are not mapped yet. */
  ghost predicate NextFree(s: Sys) {
    KERNEL_FIRST <= s.next && forall v: nat | s.next <= v < KERNEL_LAST :: !Mapped(s.mem.mmu, v)
  }

  lemma StepKept(s: Sys, op: Op)
    requires SysInv(s) && NextFree(s)
    ensures NextFree(Step(s, op)) && PagesKept(s.mem.mmu, Step(s, op).mem.mmu)
  {
    hide Inv, HeapOk, ElfLoad, Sbrk, TakeAndMap, ZeroPhys, AllocBlocks, Kept, KeptBut, NextFree, PagesKept, AllocFrame;
    KeptRefl(s.mem.mmu);
    match op
    case KernelPage =>
      NextAtLeast(s);
      KeptSame(s, s);
      if Step(s, op) != s {
        KeptTake(s.mem, s.next, 3, false);
        KeptButNext(s, Step(s, op));
      }
    case Exec(d) =>
      KeptExec(s.mem, s.heap, d);
      KeptSame(s, Step(s, op));
    case Stack =>
      KeptTake(s.mem, STACK_PAGE, 7, true);
      KeptButUser(s.mem.mmu, Step(s, op).mem.mmu, STACK_PAGE);
      KeptSame(s, Step(s, op));
    case SbrkCall(inc) =>
      KeptSbrk(s.mem, s.heap, inc);
      KeptSame(s, Step(s, op));
    case BrkCall(addr) =>
      var target := if addr == 0 then s.heap.brk else addr;
      KeptSbrk(s.mem, s.heap, Signed32(target - s.heap.brk));
      KeptSame(s, Step(s, op));
    case Buffer(count) =>
      KeptBuffer(s.mem, count);
      KeptSame(s, Step(s, op));
  }

  lemma NextAtLeast(s: Sys)
    requires NextFree(s)
    ensures KERNEL_FIRST <= s.next
  {
  }

  lemma KeptSame(s: Sys, r: Sys)
    requires NextFree(s) && Kept(s.mem.mmu, r.mem.mmu) && r.next == s.next
    ensures NextFree(r) && PagesKept(s.mem.mmu, r.mem.mmu)
  {
    hide Pte, Peek, Present;
    forall v: nat | r.next <= v < KERNEL_LAST ensures !Mapped(r.mem.mmu, v) {
      assert HeapPage(v) && !Mapped(s.mem.mmu, v);
    }
  }

  lemma KeptButUser(u: Mmu, r: Mmu, v: nat)
    requires KeptBut(u, r, v) && v < KERNEL_FIRST
    ensures Kept(u, r)
  {
    hide Pte, Peek, Present;
  }

  lemma KeptButNext(s: Sys, r: Sys)
    requires NextFree(s) && KeptBut(s.mem.mmu, r.mem.mmu, s.next) && r.next == s.next + 1 && s.next < KERNEL_LAST
    ensures NextFree(r) && PagesKept(s.mem.mmu, r.mem.mmu)
  {
    hide Pte, Peek, Present;
    assert !Mapped(s.mem.mmu, s.next);
    forall v: nat | r.next <= v < KERNEL_LAST ensures !Mapped(r.mem.mmu, v) {
      assert HeapPage(v) && !Mapped(s.mem.mmu, v);
    }
  }

  /** Every mapped heap page keeps its entry and every byte of it. */
  ghost predicate PagesKept(u: Mmu, r: Mmu) {
    && (forall v: nat | HeapPage(v) && Mapped(u, v) :: Pte(r, v) == Pte(u, v))
    && (forall a: u32 | HeapPage(a / 4096) && Mapped(u, a / 4096) :: Peek(r, a) == Peek(u, a))
  }

  /** Main result: after a start-up that has reserved the vital frames, over every run, a heap page once
      mapped stays mapped to its frame and every byte of it reads the same through translation,
      whatever is loaded, grown, shrunk or allocated; and the vital frames stay reserved. */
  lemma {:induction false} HeapIsolated(s: Sys, ops: seq<Op>, image: nat)
    requires SysInv(s) && NextFree(s) && VitalPinned(s.mem, image)
    ensures NextFree(Run(s, ops)) && PagesKept(s.mem.mmu, Run(s, ops).mem.mmu) && VitalPinned(Run(s, ops).mem, image)
    decreases |ops|
  {
    hide Step, SysInv, NextFree, Pte, Peek, Present, VitalPinned;
    if ops != [] {
      StepInv(s, ops[0]);
      StepKept(s, ops[0]);
      StepVital(s, ops[0], image);
      HeapIsolated(Step(s, ops[0]), ops[1..], image);
    }
  }

  lemma StepVital(s: Sys, op: Op, image: nat)
    requires SysInv(s) && VitalPinned(s.mem, image)
    ensures VitalPinned(Step(s, op).mem, image)
  {
    hide Inv, HeapOk, Step, Pins, Vital;
    ZeroPinned(s.mem);
    StepSpares(s, op, 0);
    forall f: nat | Vital(|s.mem.pmm.used|, image, f) ensures Pins(Step(s, op).mem, f) { StepSpares(s, op, f); }
  }

  lemma ZeroFree(p: Pmm)
    ensures !IsFree(p, 0)
  {
  }

  /** A start-up that has reserved the vital frames leaves the state such runs need. */
  lemma BootNextFree(p: Pmm, ram: map<nat, Frame>, image: nat)
    requires PagingInit(p, ram).Booted? && StartOk(p, image)
    ensures var s := Sys(PagingInit(p, ram).mem, Heap(0, 0, false), KERNEL_FIRST);
      SysInv(s) && NextFree(s) && VitalPinned(s.mem, image)
  {
    hide PagingInit, Inv, Mapped, Pins, Vital, IsFree;
    BootInv(p, ram);
    ZeroFree(p);
    BootSpares(p, ram, 0);
    forall f: nat | Vital(|p.used|, image, f) ensures Pins(PagingInit(p, ram).mem, f) { BootSpares(p, ram, f); }
  }
}
