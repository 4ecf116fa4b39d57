/** What user_sbrk and user_brk return, for every state and every argument (kernel/elf.c:32-94). */
module BreakReturns {
  import opened Words
  import opened Frames
  import opened Paging
  import opened Memory
  import opened Ownership
  import opened UserHeap
  import opened Access
  import opened Break
  import opened Ledger

  /** The grow loop runs out of frames: fewer are free than the pages and their missing tables take, and
      it is not only the table of the last page that is missing. */
  predicate Short(m: Mem, lo: nat, hi: nat)
    requires lo <= hi <= PAGES
  {
    lo < hi && Clear(m.pmm.used) < Cost(m.mmu, lo, hi) && !StrandsAt(m, lo, hi - 1)
  }

  lemma ShortAfter(m: Mem, v: nat, hi: nat)
    requires Inv(m) && UserPages(v, hi) && v + 1 < hi && AllocFrame(m.pmm).frame != 0
    requires CanMap(Mem(AllocFrame(m.pmm).pmm, m.mmu), v)
    ensures var g := AllocFrame(m.pmm); var r := MapPage(Mem(g.pmm, m.mmu), v, g.frame, 7);
      Short(r, v + 1, hi) <==> Short(m, v, hi)
  {
    hide MapPage, AllocFrame, Inv, CanMap, NeedsTable, HasTable, Clear, Cost;
    NeedsAfter(m, v, hi - 1);
    CostAfter(m, v, hi - 1);
    CostAfter(m, v, hi);
    StepCount(m, v);
    FirstCost(m.mmu, v);
  }

  lemma OnePage(m: Mem, v: nat)
    requires v < PAGES
    ensures Short(m, v, v + 1) <==> Clear(m.pmm.used) == 0
  {
    hide HasTable, Clear;
    FirstCost(m.mmu, v);
  }

  /** Main result for the grow loop over any pages, mapped or not: it fails exactly when it is short. */
  lemma {:induction false} GrowFails(m: Mem, lo: nat, v: nat, hi: nat)
    requires Inv(m) && UserPages(lo, v) && UserPages(v, hi)
    ensures !Grow(m, lo, v, hi).ok <==> Short(m, v, hi)
    decreases hi - v
  {
    hide MapPage, AllocFrame, Release, Inv, CanMap, Clear, HasTable, Short;
    if v == hi {
      NotShort(m, v);
    } else {
      AllocFails(m.pmm);
      var g := AllocFrame(m.pmm);
      if g.frame == 0 {
        NothingLeft(m, v, hi);
      } else {
        var m1 := Mem(g.pmm, m.mmu);
        GrowPageInv(m, v);
        StepCount(m, v);
        if CanMap(m1, v) {
          var r := MapPage(m1, v, g.frame, 7);
          GrowFails(r, lo, v + 1, hi);
          if v + 1 < hi { ShortAfter(m, v, hi); } else { NotShort(r, hi); OnePage(m, v); }
        } else {
          StrandedGrow(m, lo, v, hi);
          if v + 1 < hi { OneLeft(m, v, hi); } else { OnePage(m, v); }
        }
      }
    }
  }

  lemma NotShort(m: Mem, v: nat)
    requires v <= PAGES
    ensures !Short(m, v, v)
  {
  }

  lemma NothingLeft(m: Mem, v: nat, hi: nat)
    requires v < hi <= PAGES && Clear(m.pmm.used) == 0
    ensures Short(m, v, hi)
  {
    hide HasTable, Clear;
    CostMonotone(m.mmu, v, v, hi);
  }

  lemma OneLeft(m: Mem, v: nat, hi: nat)
    requires v + 1 < hi <= PAGES && Clear(m.pmm.used) == 1 && !HasTable(m.mmu, v)
    ensures Short(m, v, hi)
  {
    hide HasTable, Clear;
    CostMonotone(m.mmu, v, v, hi);
    CostMonotone(m.mmu, v, v, hi - 1);
  }

  const TOP := 0xBFFF_F000

  /** The pages between two breaks, both rounded up. */
  function Up(a: nat): nat { (a + 4095) / 4096 }

  lemma UpIs(a: u32)
    requires a <= 0xC000_0000
    ensures PageUp(a) == Up(a) <= 0xC_0000
  {
  }

  predicate OutOfFrames(m: Mem, from: u32, to: u32) {
    from <= to <= 0xC000_0000 && Up(from) < Up(to) && Short(m, Up(from), Up(to))
  }

  /** The break after the increment, as the processor adds. */
  function Sum(brk: u32, inc: int): nat { (brk + inc) % 0x1_0000_0000 }

  /** Main result for user_sbrk: exactly when it returns -1, what it returns otherwise, and the new break. */
  lemma SbrkReturns(m: Mem, h: Heap, inc: i32)
    requires Inv(m) && HeapOk(h)
    ensures var o := Sbrk(m, h, inc); var to := Sum(h.brk, inc);
      var refused := !h.ready || (inc != 0 && (to < h.base || to > TOP));
      && (o.ret == 0xFFFF_FFFF <==> refused || (inc > 0 && OutOfFrames(m, h.brk, to)))
      && (refused || inc == 0 ==> o.mem == m && o.heap == h)
      && (o.ret == 0xFFFF_FFFF ==> o.heap == h)
      && (o.ret != 0xFFFF_FFFF ==> o.ret == h.brk && o.heap == Heap(h.base, to, true))
  {
    hide Inv, Grow, Release, Short, PageUp, Up;
    var to := Sum(h.brk, inc);
    assert to == Wrap32(h.brk + inc);
    if Accepts(h, inc) && inc != 0 {
      UpIs(h.brk);
      UpIs(to);
      if inc > 0 && Up(h.brk) < Up(to) {
        InUser(h.base, h.brk);
        UpOrder(to, h.brk);
        GrowFails(m, Up(h.brk), Up(h.brk), Up(to));
      }
    }
  }

  lemma InUser(base: u32, brk: u32)
    requires USER_BASE <= base <= brk
    ensures Up(brk) >= USER_FIRST
  {
  }

  lemma UpOrder(a: nat, b: nat)
    ensures Up(a) < Up(b) ==> a < b
    ensures Up(b) < Up(a) ==> b < a
  {
  }

  /** Main result for user_brk: 0 or -1, and exactly when. */
  lemma BrkReturns(m: Mem, h: Heap, addr: u32)
    requires Inv(m) && HeapOk(h)
    ensures var o := Brk(m, h, addr); var to := if addr == 0 then h.brk else addr;
      var refused := !h.ready || to < h.base || to > TOP;
      && (o.ret == 0 || o.ret == 0xFFFF_FFFF)
      && (o.ret == 0xFFFF_FFFF <==> refused || (to - h.brk < 0x8000_0000 && OutOfFrames(m, h.brk, to)))
      && (refused ==> o.mem == m && o.heap == h)
      && (o.ret == 0xFFFF_FFFF ==> o.heap == h)
      && (o.ret == 0 ==> o.heap == Heap(h.base, to, true))
  {
    hide Inv, Sbrk, Short, Up, Signed32, Wrap32;
    var to := if addr == 0 then h.brk else addr;
    if h.ready && h.base <= to <= TOP && to != h.brk {
      var inc := Signed32(to - h.brk);
      SignedStep(h.brk, to);
      SbrkReturns(m, h, inc);
      SumIs(h.brk, to, inc);
      UpOrder(h.brk, to);
      CastSign(h.brk, to);
    } else {
      UpOrder(h.brk, to);
    }
  }

  lemma SumIs(a: u32, to: u32, inc: int)
    requires Wrap32(a + inc) == to
    ensures Sum(a, inc) == to
  {
  }

  lemma CastSign(a: u32, to: u32)
    requires a <= 0xC000_0000 && to <= 0xC000_0000
    ensures a < to ==> (Signed32(to - a) > 0 <==> to - a < 0x8000_0000)
  {
  }
}
