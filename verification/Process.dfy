/** The program break over whole runs, loads included (kernel/elf.c:23-94, 213-292). */
module Process {
  import opened Words
  import opened Frames
  import opened Paging
  import opened Memory
  import opened Ownership
  import opened UserHeap
  import opened Break
  import opened Loader
  import opened Image
  import opened Rollback
  import opened Budget
  import opened Elf
  import opened System

  // ---- A load and the heap ----

  ghost predicate Below(recs: seq<Rec>, top: nat) { forall r | r in recs :: r.virt < top }

  lemma {:induction false} PagesRecs(m: Mem, v: nat, hi: nat, flags: nat, recs: seq<Rec>)
    requires v <= hi <= PAGES && flags < 4096 && RecsInRange(recs)
    ensures forall r | r in LoadPages(m, v, hi, flags, recs).recs :: r in recs || v <= r.virt < hi
    decreases hi - v
  {
    hide LoadPage, Cleanup;
    if v < hi && LoadPage(m, v, flags).frame != 0 {
      PagesRecs(LoadPage(m, v, flags).mem, v + 1, hi, flags, recs + [Rec(v, LoadPage(m, v, flags).frame)]);
    }
  }

  /** Every page a load records lies below the end of the highest segment. */
  lemma {:induction false} RecsBelow(m: Mem, segs: seq<Seg>, recs: seq<Rec>, top: nat)
    requires SegsOk(segs) && RecsInRange(recs) && Below(recs, top)
    requires forall s | s in segs :: EndPage(s) <= top || EndPage(s) == FirstPage(s)
    ensures Below(LoadSegs(m, segs, recs).recs, top)
    decreases |segs|
  {
    hide LoadPages, Fill;
    if segs != [] {
      var s := segs[0];
      assert SegOk(s) && s in segs;
      assert forall t | t in segs[1..] :: t in segs;
      if EndPage(s) == FirstPage(s) {
        RecsBelow(m, segs[1..], recs, top);
      } else if EndPage(s) - FirstPage(s) <= MAX_PAGES - |recs| {
        var l := LoadPages(m, FirstPage(s), EndPage(s), Flags(s), recs);
        PagesRecs(m, FirstPage(s), EndPage(s), Flags(s), recs);
        if l.ok { RecsBelow(Mem(l.mem.pmm, Fill(l.mem.mmu, s)), segs[1..], l.recs, top); }
      }
    }
  }

  lemma EndsBelow(segs: seq<Seg>, s: Seg)
    requires SegsOk(segs) && s in segs
    ensures EndPage(s) <= MaxEnd(segs) / 4096 || EndPage(s) == FirstPage(s)
  {
    assert SegOk(s);
  }

  /** A load changes no page at or above the end of its highest segment. */
  lemma LoadLeavesAbove(m: Mem, segs: seq<Seg>, v: nat)
    requires Inv(m) && SegsOk(segs) && LoadSegs(m, segs, []).ok && MaxEnd(segs) / 4096 <= v < PAGES
    ensures Mapped(LoadSegs(m, segs, []).mem.mmu, v) == Mapped(m.mmu, v)
  {
    hide Inv, LoadSegs, MaxEnd, Mapped, Pte, Pde, GrewFrames, Without;
    var l := LoadSegs(m, segs, []);
    var top := MaxEnd(segs) / 4096;
    forall s | s in segs ensures EndPage(s) <= top || EndPage(s) == FirstPage(s) { EndsBelow(segs, s); }
    RecsBelow(m, segs, [], top);
    GrewRefl(m);
    assert Virts([]) == {};
    LoadRollsBack(m, m, segs, []);
    var ts := ReachedBy(m, segs, []);
    WithoutSpec(m, ts);
    assert v !in Virts(l.recs);
    SameMapped(m.mmu, Without(m, ts).mmu, v);
  }

  lemma SameMapped(u: Mmu, r: Mmu, v: nat)
    requires v < PAGES && Pte(r, v) == Pte(u, v)
    ensures Mapped(r, v) == Mapped(u, v)
  {
  }

  /** What decides, before a load, whether the mapped heap is exact after it: a load that will succeed
      needs the space above its segments empty, one that will fail must not get to a heap page. */
  ghost predicate LoadFits(m: Mem, h: Heap, d: seq<byte>) {
    if Loadable(m, d) then
      forall v: nat | MaxEnd(Segments(d, PhNum(d))) / 4096 <= v < STACK_PAGE :: !Mapped(m.mmu, v)
    else
      h.ready ==> forall v: nat | v in Touched(m, d) :: !(h.base / 4096 <= v < PageUp(h.brk))
  }

  lemma SuccessExact(m: Mem, h: Heap, d: seq<byte>)
    requires Inv(m) && Loadable(m, d)
    ensures HeapExact(ElfLoad(m, h, d).mem, ElfLoad(m, h, d).heap) <==> LoadFits(m, h, d)
  {
    LoaderSucceeds(m, h, d);
    hide Inv, LoadSegs, MaxEnd, Mapped, Pte, Pde, Segments, U16, U32, UserWritable, Affords, TotalPages, CoveredPages;
    var segs := Segments(d, PhNum(d));
    var r := LoadSegs(m, segs, []).mem;
    assert PageUp(MaxEnd(segs)) == MaxEnd(segs) / 4096;
    forall v: nat | MaxEnd(segs) / 4096 <= v < STACK_PAGE ensures Mapped(r.mmu, v) == Mapped(m.mmu, v) {
      LoadLeavesAbove(m, segs, v);
    }
  }

  lemma FailureExact(m: Mem, h: Heap, d: seq<byte>)
    requires Inv(m) && HeapOk(h) && HeapExact(m, h) && !Loadable(m, d)
    ensures HeapExact(ElfLoad(m, h, d).mem, ElfLoad(m, h, d).heap) <==> LoadFits(m, h, d)
  {
    hide Inv, LoadSegs, MaxEnd, Mapped, Pte, Pde, Segments, U16, U32, UserWritable, ElfLoad, Touched, HeapOk, PageUp;
    hide Loadable;
    LoaderRollsBack(m, h, d);
    var r := ElfLoad(m, h, d).mem;
    var ts := Touched(m, d);
    FailedTables(m, h, d);
    forall v: nat | h.ready && h.base / 4096 <= v < STACK_PAGE
      ensures Mapped(r.mmu, v) <==> Mapped(m.mmu, v) && v !in ts
      ensures Mapped(r.mmu, v) && UserWritable(m.mmu, v) ==> UserWritable(r.mmu, v)
    {
      PageMapAt(m.mmu, v);
      PageMapAt(r.mmu, v);
      if Mapped(r.mmu, v) { SamePage(m.mmu, r.mmu, v); }
    }
    HeapTop(h);
    forall v: nat | h.ready && v in ts && h.base / 4096 <= v < PageUp(h.brk) ensures !HeapExact(r, h) {
      assert Mapped(m.mmu, v) && !Mapped(r.mmu, v);
    }
  }

  lemma HeapTop(h: Heap)
    requires HeapOk(h)
    ensures h.ready && h.base / 4096 < PageUp(h.brk) ==> PageUp(h.brk) <= STACK_PAGE
  {
  }

  lemma PageMapAt(u: Mmu, v: nat)
    requires v < PAGES
    ensures v in PageMap(u) <==> Mapped(u, v)
    ensures v in PageMap(u) ==> PageMap(u)[v] == Pte(u, v)
  {
    hide Mapped, Pte;
  }

  lemma FailedTables(m: Mem, h: Heap, d: seq<byte>)
    requires Inv(m) && ElfLoad(m, h, d).entry == 0
    ensures forall i: nat | i < ENTRIES && Present(Pde(m.mmu, i)) :: Pde(ElfLoad(m, h, d).mem.mmu, i) == Pde(m.mmu, i)
  {
    hide Inv, LoadSegs, MaxEnd, Mapped, Pte, Pde, Segments, U16, U32, GrewFrames, Without;
    if Accepted(d) {
      var segs := Segments(d, PhNum(d));
      GrewRefl(m);
      assert Virts([]) == {};
      LoadRollsBack(m, m, segs, []);
      WithoutSpec(m, ReachedBy(m, segs, []));
    }
  }

  /** A load keeps the mapped heap exact if and only if it fits. */
  lemma ExecExact(m: Mem, h: Heap, d: seq<byte>)
    requires Inv(m) && HeapOk(h) && HeapExact(m, h)
    ensures HeapExact(ElfLoad(m, h, d).mem, ElfLoad(m, h, d).heap) <==> LoadFits(m, h, d)
  {
    hide Inv, HeapOk, HeapExact, ElfLoad, LoadFits, Loadable;
    if Loadable(m, d) { SuccessExact(m, h, d); } else { FailureExact(m, h, d); }
  }

  // ---- The program break over runs ----

  /** The calls that keep the mapped set exact, by a test on the state before the call. */
  ghost predicate Guarded(s: Sys, op: Op) {
    match op
    case SbrkCall(inc) =>
      !Accepts(s.heap, inc) || inc == 0 || (NoWrap(s.heap, inc) && !LastPageStrands(s.mem, s.heap, inc))
    case BrkCall(addr) =>
      var d := (if addr == 0 then s.heap.brk else addr) - s.heap.brk;
      -0x8000_0000 <= d < 0x8000_0000 && !LastPageStrands(s.mem, s.heap, d)
    case Exec(d) => LoadFits(s.mem, s.heap, d)
    case _ => true
  }

  ghost predicate GuardedRun(s: Sys, ops: seq<Op>)
    decreases |ops|
  {
    ops == [] || (Guarded(s, ops[0]) && GuardedRun(Step(s, ops[0]), ops[1..]))
  }

  ghost predicate ExactInv(s: Sys) {
    SysInv(s) && HeapExact(s.mem, s.heap)
  }

  lemma TakeAndMapExact(m: Mem, h: Heap, v: nat, flags: nat, clear: bool)
    requires Inv(m) && HeapExact(m, h) && STACK_PAGE <= v < KERNEL_LAST && flags < 4096
    ensures HeapExact(TakeAndMap(m, v, flags, clear), h)
  {
    hide Pde, Pte, Present, FrameOf, UserBit, Writable, MapPage, ZeroPhys, Inv, UserWritable, PageUp;
    var g := AllocFrame(m.pmm);
    if g.frame != 0 {
      AllocInv(m);
      ZeroPhysInv(m, g.pmm, g.frame, 1);
      var u := if clear then ZeroPhys(m.mmu, g.frame, 1) else m.mmu;
      MapPageSpec(Mem(g.pmm, u), v, g.frame, flags);
      OthersExact(m, TakeAndMap(m, v, flags, clear), h);
    }
  }

  lemma OthersExact(m: Mem, r: Mem, h: Heap)
    requires HeapExact(m, h)
    requires forall v: nat | v < STACK_PAGE :: Pte(r.mmu, v) == Pte(m.mmu, v)
    requires forall i: nat | i < ENTRIES && Present(Pde(m.mmu, i)) :: Pde(r.mmu, i) == Pde(m.mmu, i)
    ensures HeapExact(r, h)
  {
    hide Pde, Pte, Present, FrameOf, UserBit, Writable, UserWritable, PageUp;
    forall v: nat | h.ready && h.base / 4096 <= v < STACK_PAGE
      ensures (Mapped(r.mmu, v) <==> v < PageUp(h.brk)) && (v < PageUp(h.brk) ==> UserWritable(r.mmu, v))
    {
      SamePage(m.mmu, r.mmu, v);
    }
  }

  lemma StepExact(s: Sys, op: Op)
    requires ExactInv(s) && Guarded(s, op)
    ensures ExactInv(Step(s, op))
  {
    hide Inv, HeapOk, HeapExact, ElfLoad, Sbrk, TakeAndMap, ZeroPhys, AllocBlocks, LastPageStrands, Accepts, NoWrap;
    hide Pte, Pde, LoadFits;
    StepInv(s, op);
    match op
    case KernelPage =>
      if KERNEL_FIRST <= s.next < KERNEL_LAST { TakeAndMapExact(s.mem, s.heap, s.next, 3, false); }
    case Exec(d) => ExecExact(s.mem, s.heap, d);
    case Stack => TakeAndMapExact(s.mem, s.heap, STACK_PAGE, 7, true);
    case SbrkCall(inc) =>
      SbrkExact(s.mem, s.heap, inc);
    case BrkCall(addr) =>
      if s.heap.ready { BrkExact(s.mem, s.heap, addr); }
    case Buffer(count) =>
      BufferInv(s.mem, count);
      var g := AllocBlocks(s.mem.pmm, count);
      if g.frame != 0 { OthersExact(s.mem, Mem(g.pmm, ZeroPhys(s.mem.mmu, g.frame, count)), s.heap); }
  }

  /** Main result: over any run of guarded calls, between the heap base and the stack page exactly
      the pages below the break are mapped, each user-writable with a frame of its own. */
  lemma {:induction false} BreakRun(s: Sys, ops: seq<Op>)
    requires ExactInv(s) && GuardedRun(s, ops)
    ensures ExactInv(Run(s, ops))
    decreases |ops|
  {
    hide ExactInv, Step, Guarded;
    if ops != [] {
      StepExact(s, ops[0]);
      BreakRun(Step(s, ops[0]), ops[1..]);
    }
  }

  /** Main result: from start-up, over any run of guarded calls, loads included, between the heap base
      and the stack page exactly the pages below the break are mapped, each user-writable. */
  lemma ProcessHeap(p: Pmm, ram: map<nat, Frame>, ops: seq<Op>)
    requires PagingInit(p, ram).Booted? && GuardedRun(Sys(PagingInit(p, ram).mem, Heap(0, 0, false), KERNEL_FIRST), ops)
    ensures ExactInv(Run(Sys(PagingInit(p, ram).mem, Heap(0, 0, false), KERNEL_FIRST), ops))
  {
    hide Inv, Step, Run, PagingInit, GuardedRun;
    BootInv(p, ram);
    BreakRun(Sys(PagingInit(p, ram).mem, Heap(0, 0, false), KERNEL_FIRST), ops);
  }
}
