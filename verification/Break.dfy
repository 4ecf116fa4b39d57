/** The program break: user_heap_init, user_sbrk and user_brk as calls (kernel/elf.c:23-94). */
module Break {
  import opened Words
  import opened Frames
  import opened Paging
  import opened Memory
  import opened Ownership
  import opened UserHeap

  datatype Heap = Heap(base: u32, brk: u32, ready: bool)
  datatype Outcome = Outcome(mem: Mem, heap: Heap, ret: u32)

  type i32 = x: int | -0x8000_0000 <= x < 0x8000_0000

  /** Reinterpretation of a 32-bit pattern as a signed integer. */
  function Signed32(x: int): (r: i32)
    ensures Wrap32(r) == Wrap32(x)
    ensures -0x8000_0000 <= x < 0x8000_0000 <==> r == x
  {
    var w := Wrap32(x);
    if w < 0x8000_0000 then w else w - 0x1_0000_0000
  }

  function Init(end: u32): Heap {
    var b := if AlignUp(end) < USER_BASE then USER_BASE else AlignUp(end);
    Heap(b, b, true)
  }

  function PageUp(a: u32): nat { AlignUp(a) / 4096 }

  predicate Accepts(h: Heap, inc: i32) {
    h.ready && h.base <= Wrap32(h.brk + inc) <= USER_HEAP_LIMIT
  }

  function Sbrk(m: Mem, h: Heap, inc: i32): Outcome
  {
    if !h.ready then Outcome(m, h, FAIL)
    else if inc == 0 then Outcome(m, h, h.brk)
    else
      var brk := Wrap32(h.brk + inc);
      if brk < h.base || brk > USER_HEAP_LIMIT then Outcome(m, h, FAIL)
      else if inc > 0 then
        if PageUp(h.brk) < PageUp(brk) then
          var g := Grow(m, PageUp(h.brk), PageUp(h.brk), PageUp(brk));
          if g.ok then Outcome(g.mem, h.(brk := brk), h.brk) else Outcome(g.mem, h, FAIL)
        else Outcome(m, h.(brk := brk), h.brk)
      else if PageUp(brk) < PageUp(h.brk) then
        Outcome(Release(m, PageUp(brk), PageUp(h.brk)), h.(brk := brk), h.brk)
      else Outcome(m, h.(brk := brk), h.brk)
  }

  /** user_brk: the distance passes through a signed 32-bit cast before it reaches user_sbrk. */
  function Brk(m: Mem, h: Heap, addr: u32): Outcome
  {
    var target := if addr == 0 then h.brk else addr;
    if !h.ready || target < h.base || target > USER_HEAP_LIMIT then Outcome(m, h, FAIL)
    else if target == h.brk then Outcome(m, h, 0)
    else
      var o := Sbrk(m, h, Signed32(target - h.brk));
      o.(ret := if o.ret == FAIL then FAIL else 0)
  }

  predicate HeapOk(h: Heap) {
    h.ready ==>
      && USER_BASE <= h.base <= 0xC000_0000 && h.base % 4096 == 0
      && h.base <= h.brk && (h.brk <= USER_HEAP_LIMIT || h.brk == h.base)
  }

  predicate UserWritable(u: Mmu, v: nat)
    requires v < PAGES
  {
    UserAccessible(u, v) && Writable(Pde(u, v / ENTRIES)) && Writable(Pte(u, v))
  }

  const STACK_PAGE := 0xB_FFFF

  /** Between the heap base and the stack page, exactly the pages below the break are mapped,
      and those are user-writable. */
  ghost predicate HeapExact(m: Mem, h: Heap) {
    h.ready ==> forall v: nat | h.base / 4096 <= v < STACK_PAGE ::
      && (Mapped(m.mmu, v) <==> v < PageUp(h.brk))
      && (v < PageUp(h.brk) ==> UserWritable(m.mmu, v))
  }

  /** Whatever the increment, wrapped or not, frame ownership survives user_sbrk. */
  lemma SbrkInv(m: Mem, h: Heap, inc: i32)
    requires Inv(m) && HeapOk(h)
    ensures var o := Sbrk(m, h, inc); Inv(o.mem) && HeapOk(o.heap)
  {
    hide Inv;
    var brk := Wrap32(h.brk + inc);
    if Accepts(h, inc) && inc > 0 && PageUp(h.brk) < PageUp(brk) {
      GrowInv(m, PageUp(h.brk), PageUp(h.brk), PageUp(brk));
    } else if Accepts(h, inc) && inc < 0 && PageUp(brk) < PageUp(h.brk) {
      ReleaseInv(m, PageUp(brk), PageUp(h.brk));
    }
  }

  predicate NoWrap(h: Heap, inc: i32) { 0 <= h.brk + inc < 0x1_0000_0000 }

  /** The last page of this grow would take the last frame while its table is still missing. */
  predicate LastPageStrands(m: Mem, h: Heap, inc: i32)
  {
    && inc > 0 && Accepts(h, inc) && NoWrap(h, inc)
    && PageUp(h.brk) < PageUp(h.brk + inc)
    && StrandsAt(m, PageUp(h.brk), PageUp(h.brk + inc) - 1)
  }

  /** Main result for the break: an accepted call keeps the mapped set exact if and only if the
      sum does not wrap and the last page does not strand its frame. */
  lemma SbrkExact(m: Mem, h: Heap, inc: i32)
    requires Inv(m) && HeapOk(h) && HeapExact(m, h)
    ensures var o := Sbrk(m, h, inc);
      HeapExact(o.mem, o.heap) <==> !Accepts(h, inc) || inc == 0 || (NoWrap(h, inc) && !LastPageStrands(m, h, inc))
  {
    hide Inv, Pde, Pte, At, Present, Writable, UserBit, FrameOf, Grow, Release, Clear, UserWritable;
    if Accepts(h, inc) && inc != 0 {
      var lo, hi := PageUp(h.brk), PageUp(Wrap32(h.brk + inc));
      if !NoWrap(h, inc) {
        WrapBreaks(m, h, inc);
      } else if inc > 0 {
        GrowKeepsExact(m, h, inc);
      } else {
        ShrinkKeepsExact(m, h, inc);
      }
    }
  }

  /** A wrapped sum moves the break without touching the pages in between. */
  lemma WrapBreaks(m: Mem, h: Heap, inc: i32)
    requires HeapOk(h) && HeapExact(m, h) && Accepts(h, inc) && inc != 0 && !NoWrap(h, inc)
    ensures !HeapExact(Sbrk(m, h, inc).mem, Sbrk(m, h, inc).heap)
  {
    hide Inv, Pde, Pte, At, Present, Writable, UserBit, FrameOf, Mapped, UserWritable, Grow, Release, PageUp;
    var brk := Wrap32(h.brk + inc);
    var o := Sbrk(m, h, inc);
    WrapFar(h.brk, inc);
    PageUpMonotone(h.base, brk);
    PageUpMonotone(h.base, h.brk);
    assert o.mem == m && o.heap.brk == brk;
    var v := if inc > 0 then PageUp(brk) else PageUp(h.brk);
    assert h.base / 4096 <= v < STACK_PAGE;
    assert Mapped(m.mmu, v) <==> v < PageUp(h.brk);
  }

  lemma WrapFar(a: u32, inc: i32)
    requires a <= 0xC000_0000 && !(0 <= a + inc < 0x1_0000_0000) && Wrap32(a + inc) <= USER_HEAP_LIMIT
    ensures inc > 0 ==> PageUp(Wrap32(a + inc)) < PageUp(a) && PageUp(Wrap32(a + inc)) < STACK_PAGE
    ensures inc <= 0 ==> PageUp(a) < PageUp(Wrap32(a + inc)) && PageUp(a) < STACK_PAGE
  {
    var w := Wrap32(a + inc);
    assert w == a + inc - 0x1_0000_0000 || w == a + inc + 0x1_0000_0000;
  }

  lemma PageUpMonotone(a: u32, b: u32)
    requires a % 4096 == 0 && a <= b <= 0xC000_0000
    ensures a / 4096 <= PageUp(b)
  {
  }

  lemma GrowKeepsExact(m: Mem, h: Heap, inc: i32)
    requires Inv(m) && HeapOk(h) && HeapExact(m, h) && Accepts(h, inc) && inc > 0 && NoWrap(h, inc)
    ensures var o := Sbrk(m, h, inc); HeapExact(o.mem, o.heap) <==> !LastPageStrands(m, h, inc)
  {
    hide Inv, Grow, Clear, UserWritable, Cost, NeedsTable, GrewFrames, Mapped, PageUp, Midway, StrandsAt, Lost, Release;
    var lo, hi := PageUp(h.brk), PageUp(h.brk + inc);
    PageUpBounds(h, inc);
    if lo < hi {
      MidwayStart(m, lo);
      GrowExact(m, m, lo, lo, hi);
      var g := Grow(m, lo, lo, hi);
      if StrandsAt(m, lo, hi - 1) {
        LastUnmapped(m, g.mem, lo, hi);
      } else if g.ok {
        GrownWritable(m, g.mem, h, lo, hi);
      } else {
        FailedPages(m, g.mem);
        StillWritable(m, g.mem, h);
      }
    } else {
      assert hi == lo by { PageUpOrder(h.brk, h.brk + inc); }
    }
  }

  lemma PageUpOrder(a: u32, b: u32)
    requires a <= b <= 0xC000_0000
    ensures PageUp(a) <= PageUp(b)
  {
  }

  lemma LastUnmapped(m: Mem, r: Mem, lo: nat, hi: nat)
    requires lo < hi <= PAGES && Lost(m, r, Range(lo, hi - 1)) && !Mapped(m.mmu, hi - 1)
    ensures !Mapped(r.mmu, hi - 1)
  {
    hide Pte, Pde, Present, GrewFrames;
    var f: nat :| Grew(m, r, Range(lo, hi - 1), {f});
  }

  lemma FailedPages(m: Mem, r: Mem)
    requires Grew(m, r, {}, {}) || Lost(m, r, {})
    ensures GrewPages(m, r, {})
  {
  }

  lemma MidwayStart(m: Mem, lo: nat)
    requires Inv(m) && lo <= PAGES
    ensures Midway(m, m, lo, lo)
  {
    assert Range(lo, lo) == {};
    GrewRefl(m);
  }

  /** A failed grow with or without a stray frame leaves every page as it was. */
  lemma StillWritable(m: Mem, r: Mem, h: Heap)
    requires HeapOk(h) && HeapExact(m, h) && GrewPages(m, r, {})
    ensures HeapExact(r, h)
  {
    hide Pde, Pte, At, Present, Writable, UserBit, FrameOf;
    forall v: nat | h.ready && h.base / 4096 <= v < STACK_PAGE
      ensures Mapped(r.mmu, v) <==> v < PageUp(h.brk)
      ensures v < PageUp(h.brk) ==> UserWritable(r.mmu, v)
    {
      SamePage(m.mmu, r.mmu, v);
    }
  }

  lemma SamePage(u: Mmu, r: Mmu, v: nat)
    requires v < PAGES && Mapped(u, v) == Mapped(r, v) && (Mapped(u, v) ==> Pte(r, v) == Pte(u, v))
    requires Present(Pde(u, v / ENTRIES)) ==> Pde(r, v / ENTRIES) == Pde(u, v / ENTRIES)
    ensures UserWritable(u, v) ==> UserWritable(r, v)
  {
  }

  lemma GrownWritable(m: Mem, r: Mem, h: Heap, lo: nat, hi: nat)
    requires HeapOk(h) && h.ready && HeapExact(m, h) && lo == PageUp(h.brk) && lo <= hi <= STACK_PAGE
    requires Midway(m, r, lo, hi)
    ensures forall v: nat | h.base / 4096 <= v < STACK_PAGE ::
      (Mapped(r.mmu, v) <==> v < hi) && (v < hi ==> UserWritable(r.mmu, v))
  {
    hide Pde, Pte, At, FrameOf, Clear, Cost, GrewFrames;
    forall v: nat | h.base / 4096 <= v < STACK_PAGE
      ensures (Mapped(r.mmu, v) <==> v < hi) && (v < hi ==> UserWritable(r.mmu, v))
    {
      if lo <= v < hi {
        assert v in Range(lo, hi);
        assert Occupied(r.mmu, v);
        assert Pte(r.mmu, v) == Entry(Frm(r.mmu, v), 7);
        TableOfMapped(r.mmu, v);
        assert 32 <= v / ENTRIES < 768;
      } else {
        assert v !in Range(lo, hi);
        SamePage(m.mmu, r.mmu, v);
      }
    }
  }

  /** Releasing lo..hi removes exactly those pages and frees exactly their frames. */
  lemma {:induction false} ReleaseSpec(m: Mem, lo: nat, hi: nat)
    requires Inv(m) && UserPages(lo, hi)
    ensures var r := Release(m, lo, hi);
      && Inv(r) && r.mmu.pd == m.mmu.pd
      && (forall v: nat | lo <= v < hi :: !Mapped(r.mmu, v))
      && (forall v: nat | v < PAGES && !(lo <= v < hi) :: Pte(r.mmu, v) == Pte(m.mmu, v))
      && (forall i: nat | i < ENTRIES :: Pde(r.mmu, i) == Pde(m.mmu, i))
      && UsedSet(r.pmm) == UsedSet(m.pmm) - FramesOf(m.mmu, Range(lo, hi))
    decreases hi - lo
  {
    hide Pde, Pte, At, UserBit, Writable, Present, FrameOf, FreeFrame, Unmap, ReleasePage, UsedSet, TableSet;
    hide Separate, KernelPrivate, UserTables;
    if lo == hi {
      assert FramesOf(m.mmu, Range(lo, hi)) == {};
    } else {
      ReleasePageStep(m, lo);
      var r := ReleasePage(m, lo);
      if Mapped(m.mmu, lo) { UnmapSpec(m.mmu, lo) by { assert Separate(m.mmu); SeparateTables(m.mmu); } }
      ReleaseSpec(r, lo + 1, hi);
      assert forall v: nat | lo < v < hi ::
        Pte(r.mmu, v) == Pte(m.mmu, v) && Frm(r.mmu, v) == Frm(m.mmu, v) && Occupied(r.mmu, v) == Occupied(m.mmu, v);
      assert FramesOf(r.mmu, Range(lo + 1, hi)) == FramesOf(m.mmu, Range(lo + 1, hi));
      assert Range(lo, hi) == Range(lo + 1, hi) + {lo};
      assert FramesOf(m.mmu, Range(lo, hi)) ==
        FramesOf(m.mmu, Range(lo + 1, hi)) + (if Mapped(m.mmu, lo) then {Frm(m.mmu, lo)} else {});
    }
  }

  lemma ShrinkKeepsExact(m: Mem, h: Heap, inc: i32)
    requires Inv(m) && HeapOk(h) && HeapExact(m, h) && Accepts(h, inc) && inc < 0 && NoWrap(h, inc)
    ensures var o := Sbrk(m, h, inc); HeapExact(o.mem, o.heap)
  {
    hide Inv, Pde, Pte, At, Present, Writable, UserBit, FrameOf, Release;
    var lo, hi := PageUp(h.brk + inc), PageUp(h.brk);
    if lo < hi {
      ReleaseSpec(m, lo, hi);
      var r := Release(m, lo, hi);
      forall v: nat | h.base / 4096 <= v < STACK_PAGE
        ensures (Mapped(r.mmu, v) <==> v < lo) && (v < lo ==> UserWritable(r.mmu, v))
      {
        if !(lo <= v < hi) {
          SamePage(m.mmu, r.mmu, v);
        }
      }
    }
  }

  /** user_brk keeps the mapped set exact if and only if the distance survives the signed cast
      and the last page does not strand its frame. */
  lemma BrkExact(m: Mem, h: Heap, addr: u32)
    requires Inv(m) && HeapOk(h) && HeapExact(m, h) && h.ready
    ensures var o := Brk(m, h, addr); var target := if addr == 0 then h.brk else addr;
      && Inv(o.mem) && HeapOk(o.heap)
      && (o.ret == 0 ==> o.heap.brk == target)
      && (o.ret == FAIL ==> o.heap == h)
      && (h.base <= target <= USER_HEAP_LIMIT ==>
            (HeapExact(o.mem, o.heap) <==>
              -0x8000_0000 <= target - h.brk < 0x8000_0000 && !LastPageStrands(m, h, target - h.brk)))
  {
    hide Inv, HeapExact, LastPageStrands, Sbrk, Signed32, Wrap32, HeapOk;
    var target := if addr == 0 then h.brk else addr;
    if h.base <= target <= USER_HEAP_LIMIT {
      if target == h.brk {
        NotStranded(m, h);
      } else {
        var inc := Signed32(target - h.brk);
        SignedStep(h.brk, target);
        SbrkInv(m, h, inc);
        SbrkExact(m, h, inc);
        SbrkBreak(m, h, inc);
        if inc != target - h.brk {
          assert !NoWrap(h, inc);
        }
      }
    }
  }

  lemma NotStranded(m: Mem, h: Heap)
    ensures !LastPageStrands(m, h, 0)
  {
  }

  lemma SignedStep(a: u32, target: u32)
    ensures var inc := Signed32(target - a);
      Wrap32(a + inc) == target && (0 <= a + inc < 0x1_0000_0000 <==> inc == target - a) && (a != target ==> inc != 0)
  {
    var inc := Signed32(target - a);
    assert inc == target - a || inc == target - a - 0x1_0000_0000 || inc == target - a + 0x1_0000_0000;
  }

  lemma SbrkBreak(m: Mem, h: Heap, inc: i32)
    requires Accepts(h, inc) && HeapOk(h)
    ensures var o := Sbrk(m, h, inc);
      (o.ret == FAIL ==> o.heap == h) && (o.ret != FAIL ==> o.ret == h.brk && o.heap == h.(brk := Wrap32(h.brk + inc)))
  {
  }

  /** When an accepted grow fails it is for lack of frames; the break and the whole page map are
      as before, and the frames are as before (new tables aside) if and only if no page stranded one. */
  lemma FailedGrowRestores(m: Mem, h: Heap, inc: i32)
    requires Inv(m) && HeapOk(h) && HeapExact(m, h) && Accepts(h, inc) && inc > 0 && NoWrap(h, inc)
    ensures var o := Sbrk(m, h, inc); var lo, hi := PageUp(h.brk), PageUp(h.brk + inc);
      && (o.ret == FAIL <==> lo < hi && Clear(m.pmm.used) < Cost(m.mmu, lo, hi) && !StrandsAt(m, lo, hi - 1))
      && (o.ret == FAIL ==>
            && o.heap == h && PageMap(o.mem.mmu) == PageMap(m.mmu)
            && (UsedSet(o.mem.pmm) == UsedSet(m.pmm) + (TableSet(o.mem.mmu) - TableSet(m.mmu)) <==>
              !Strands(m, lo, hi)))
  {
    hide Inv, Grow, Clear, Cost, NeedsTable, TableSet, UsedSet, PageMap, PageUp, Release, Midway, StrandsAt, FramesOf;
    hide HeapExact;
    var lo, hi := PageUp(h.brk), PageUp(h.brk + inc);
    PageUpBounds(h, inc);
    if lo < hi {
      ExactUnmapped(m, h, lo, hi);
      GrowFails(m, lo, hi);
    }
  }

  lemma PageUpBounds(h: Heap, inc: i32)
    requires HeapOk(h) && Accepts(h, inc) && NoWrap(h, inc)
    ensures PageUp(h.brk) >= USER_FIRST && PageUp(h.brk) >= h.base / 4096
    ensures PageUp(h.brk + inc) <= STACK_PAGE && Wrap32(h.brk + inc) == h.brk + inc && h.brk != FAIL
  {
  }

  lemma ExactUnmapped(m: Mem, h: Heap, lo: nat, hi: nat)
    requires HeapExact(m, h) && h.ready && h.base / 4096 <= lo == PageUp(h.brk) && hi <= STACK_PAGE
    ensures forall v: nat | lo <= v < hi :: !Mapped(m.mmu, v)
  {
  }

  lemma GrowFails(m: Mem, lo: nat, hi: nat)
    requires Inv(m) && UserPages(lo, hi) && lo < hi && forall v: nat | lo <= v < hi :: !Mapped(m.mmu, v)
    ensures var g := Grow(m, lo, lo, hi);
      && (!g.ok <==> Clear(m.pmm.used) < Cost(m.mmu, lo, hi) && !StrandsAt(m, lo, hi - 1))
      && (!g.ok ==>
            && PageMap(g.mem.mmu) == PageMap(m.mmu)
            && (UsedSet(g.mem.pmm) == UsedSet(m.pmm) + (TableSet(g.mem.mmu) - TableSet(m.mmu)) <==>
              !Strands(m, lo, hi)))
  {
    hide Inv, Grow, Clear, Cost, NeedsTable, Mapped, TableSet, UsedSet, PageMap, GrewPages, GrewFrames, Midway;
    hide StrandsAt, Lost;
    MidwayStart(m, lo);
    GrowExact(m, m, lo, lo, hi);
    var g := Grow(m, lo, lo, hi);
    if Strands(m, lo, hi) {
      var k: nat :| lo <= k < hi && StrandsAt(m, lo, k);
      StrandIsShort(m, lo, k, hi);
      if StrandsAt(m, lo, hi - 1) {
        StrandUnique(m, lo, k, hi - 1);
      }
      if !g.ok {
        LostFrame(m, g.mem);
      }
    } else if !g.ok {
      SamePageMap(m, g.mem);
      NothingLost(m, g.mem);
    }
  }

  lemma LostFrame(m: Mem, r: Mem)
    requires Lost(m, r, {})
    ensures PageMap(r.mmu) == PageMap(m.mmu)
    ensures UsedSet(r.pmm) != UsedSet(m.pmm) + (TableSet(r.mmu) - TableSet(m.mmu))
  {
    hide TableSet, UsedSet, PageMap, GrewPages;
    var f: nat :| Grew(m, r, {}, {f});
    SamePageMap(m, r);
    assert f in UsedSet(r.pmm) && f !in UsedSet(m.pmm) && f !in TableSet(r.mmu);
  }

  lemma NothingLost(m: Mem, r: Mem)
    requires Grew(m, r, {}, {})
    ensures UsedSet(r.pmm) == UsedSet(m.pmm) + (TableSet(r.mmu) - TableSet(m.mmu))
  {
    assert FramesOf(r.mmu, {}) == {};
  }

  lemma StrandIsShort(m: Mem, lo: nat, k: nat, hi: nat)
    requires lo <= k < hi <= PAGES && StrandsAt(m, lo, k)
    ensures Clear(m.pmm.used) < Cost(m.mmu, lo, hi)
  {
    CostMonotone(m.mmu, lo, k, hi);
  }

  lemma SamePageMap(m: Mem, r: Mem)
    requires GrewPages(m, r, {})
    ensures PageMap(r.mmu) == PageMap(m.mmu)
  {
    hide Pde, Pte, At, Present, FrameOf;
  }

  /** Growing and then shrinking by the same amount restores the break and the page map; it restores
      every data frame, new page tables aside, if and only if the grow did not strand one. */
  lemma GrowShrinkRoundTrip(m: Mem, h: Heap, inc: i32)
    requires Inv(m) && HeapOk(h) && HeapExact(m, h) && Accepts(h, inc) && inc > 0 && NoWrap(h, inc)
    requires Sbrk(m, h, inc).ret != FAIL
    ensures var o := Sbrk(m, h, inc); var b := Sbrk(o.mem, o.heap, -inc);
      && o.ret == h.brk && b.ret == h.brk + inc && b.heap == h
      && PageMap(b.mem.mmu) == PageMap(m.mmu)
      && (UsedSet(b.mem.pmm) == UsedSet(m.pmm) + (TableSet(b.mem.mmu) - TableSet(m.mmu)) <==>
        !LastPageStrands(m, h, inc))
  {
    hide Inv, Pde, Pte, At, Present, Writable, UserBit, FrameOf, Grow, Release, Clear, UserWritable, Cost, NeedsTable;
    hide Mapped, TableSet, UsedSet, FramesOf, StrandsAt, Midway, Lost, PageMap, PageUp, HeapExact;
    var lo, hi := PageUp(h.brk), PageUp(h.brk + inc);
    PageUpBounds(h, inc);
    var o := Sbrk(m, h, inc);
    assert Wrap32(h.brk + inc) == h.brk + inc;
    if lo < hi {
      ExactUnmapped(m, h, lo, hi);
      MidwayStart(m, lo);
      GrowExact(m, m, lo, lo, hi);
      GrowFails(m, lo, hi);
      assert o.mem == Grow(m, lo, lo, hi).mem && o.heap.brk == h.brk + inc;
      assert Wrap32(o.heap.brk - inc) == h.brk;
      if StrandsAt(m, lo, hi - 1) {
        ReleaseLost(m, o.mem, lo, hi);
      } else {
        ReleaseBack(m, o.mem, lo, hi);
      }
    } else {
      PageUpOrder(h.brk, h.brk + inc);
      assert TableSet(m.mmu) - TableSet(m.mmu) == {};
    }
  }

  lemma ReleaseLost(m0: Mem, m: Mem, lo: nat, hi: nat)
    requires Inv(m0) && UserPages(lo, hi) && lo < hi && Lost(m0, m, Range(lo, hi - 1))
    requires forall v: nat | lo <= v < hi :: !Mapped(m0.mmu, v)
    ensures var r := Release(m, lo, hi);
      PageMap(r.mmu) == PageMap(m0.mmu) && UsedSet(r.pmm) != UsedSet(m0.pmm) + (TableSet(r.mmu) - TableSet(m0.mmu))
  {
    hide Inv, Pte, Pde, GrewFrames, TableSet, UsedSet, PageMap, Mapped, FrameOf;
    var f: nat :| Grew(m0, m, Range(lo, hi - 1), {f}) && OffPages(m.mmu, f);
    ReleaseRestores(m0, m, Range(lo, hi - 1), lo, hi, {f});
    assert Range(lo, hi - 1) - Range(lo, hi) == {};
    ReleaseInv(m, lo, hi);
    assert OffPages(Release(m, lo, hi).mmu, f);
    LostFrame(m0, Release(m, lo, hi));
  }

  lemma ReleaseBack(m0: Mem, m: Mem, lo: nat, hi: nat)
    requires UserPages(lo, hi) && Midway(m0, m, lo, hi)
    ensures var r := Release(m, lo, hi);
      PageMap(r.mmu) == PageMap(m0.mmu) && UsedSet(r.pmm) == UsedSet(m0.pmm) + (TableSet(r.mmu) - TableSet(m0.mmu))
  {
    ReleaseRestores(m0, m, Range(lo, hi), lo, hi, {});
    assert Range(lo, hi) - Range(lo, hi) == {};
    SamePageMap(m0, Release(m, lo, hi));
    assert FramesOf(Release(m, lo, hi).mmu, {}) == {};
  }
}
