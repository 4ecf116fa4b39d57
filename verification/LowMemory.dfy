/** The kernel's own window: paging_init maps the first 16 MB onto themselves, for ring 0 only, and no
    call ever changes that; and the pages handed out zeroed are zero (kernel/kernel.c:306-323, 633-670,
    kernel/fs.c:172-187). */
module LowMemory {
  import opened Words
  import opened Frames
  import opened Paging
  import opened Memory
  import opened Ownership
  import opened UserHeap
  import opened Access
  import opened Break
  import opened Loader
  import opened Image
  import opened Rollback
  import opened Elf
  import opened System
  import opened Reserved
  import Scenarios

  const WINDOW := 4096      // pages of the first 16 MB

  /** Page `v` of the window is mapped onto itself, writable, without the user bit at either level. */
  predicate OntoItself(u: Mmu, v: nat)
    requires v < PAGES
  {
    HasTable(u, v) && Pte(u, v) == Entry(v, 3) && !UserBit(Pde(u, v / ENTRIES))
  }

  ghost predicate Window(u: Mmu, n: nat)
    requires n <= WINDOW
  {
    forall v: nat | v < n :: OntoItself(u, v)
  }

  // ---- Start-up ----

  lemma {:induction false} IdentityMaps(m: Mem, v: nat, hi: nat, i: nat)
    requires i < 4 && i * ENTRIES <= v <= hi <= (i + 1) * ENTRIES
    requires Bare(m) && Present(Pde(m.mmu, i)) && EmptyFrom(m.mmu, i + 1) && !UserBit(Pde(m.mmu, i)) && Window(m.mmu, v)
    ensures Window(Identity(m.mmu, v, hi), hi)
    decreases hi - v
  {
    hide Pde, Pte, At, Present, FrameOf, Entry, SetPte, Bare, UserBit;
    if v < hi {
      assert v / ENTRIES == i;
      IdentityInv(m, v, v + 1, i);
      IdentityOne(m.mmu, v);
      BareOk(m);
      SetPteSpec(m.mmu, v, Entry(v, 3));
      var r := SetPte(m.mmu, v, Entry(v, 3));
      forall w: nat | w < v + 1 ensures OntoItself(r, w) { assert w < v ==> OntoItself(m.mmu, w); }
      IdentityMaps(Mem(m.pmm, r), v + 1, hi, i);
    }
  }

  lemma InstallWindow(m: Mem, i: nat, n: nat)
    requires Bare(m) && EmptyFrom(m.mmu, i) && (i < 4 || 768 <= i < 832) && AllocFrame(m.pmm).frame != 0
    requires n <= WINDOW && n <= i * ENTRIES && Window(m.mmu, n)
    ensures var r := Install(m.mmu, i, AllocFrame(m.pmm).frame, 3); Window(r, n) && !UserBit(Pde(r, i))
  {
    hide Pde, Pte, At, Present, FrameOf, Install, AllocFrame, TableSet, Inv;
    AllocInv(m);
    AllocSpec(m.pmm);
    BareOk(m);
    var g := AllocFrame(m.pmm);
    InstallSpec(m.mmu, i, g.frame, 3);
    var r := Install(m.mmu, i, g.frame, 3);
    forall v: nat | v < n ensures OntoItself(r, v) {
      assert OntoItself(m.mmu, v) && v / ENTRIES < i;
    }
  }

  lemma {:induction false} LowTablesWindow(m: Mem, i: nat)
    requires i <= 4 && Bare(m) && EmptyFrom(m.mmu, i) && Window(m.mmu, i * ENTRIES) && LowTables(m, i).ok
    ensures Window(LowTables(m, i).mem.mmu, WINDOW)
    decreases 4 - i
  {
    hide Bare, EmptyFrom, Identity, Install, Pde, Present, AllocFrame, Window, UserBit;
    if i < 4 {
      var g := AllocFrame(m.pmm);
      InstallInv(m, i);
      InstallWindow(m, i, i * ENTRIES);
      var u := Install(m.mmu, i, g.frame, 3);
      IdentityInv(Mem(g.pmm, u), i * ENTRIES, (i + 1) * ENTRIES, i);
      IdentityMaps(Mem(g.pmm, u), i * ENTRIES, (i + 1) * ENTRIES, i);
      LowTablesWindow(Mem(g.pmm, Identity(u, i * ENTRIES, (i + 1) * ENTRIES)), i + 1);
    }
  }

  lemma {:induction false} HeapTablesWindow(m: Mem, i: nat)
    requires 768 <= i <= 832 && Bare(m) && EmptyFrom(m.mmu, i) && Window(m.mmu, WINDOW)
    ensures Window(HeapTables(m, i).mmu, WINDOW)
    decreases 832 - i
  {
    hide Bare, Install, Pde, Present, AllocFrame, Window, UserBit;
    if i < 832 {
      var g := AllocFrame(m.pmm);
      if g.frame == 0 {
        HeapTablesWindow(m, i + 1);
      } else {
        InstallInv(m, i);
        InstallWindow(m, i, WINDOW);
        HeapTablesWindow(Mem(g.pmm, Install(m.mmu, i, g.frame, 3)), i + 1);
      }
    }
  }

  /** Start-up maps the window whenever it finds frames for the directory and four tables. */
  lemma BootWindow(p: Pmm, ram: map<nat, Frame>)
    requires Clear(p.used) >= 5
    ensures PagingInit(p, ram).Booted? && Window(PagingInit(p, ram).mem.mmu, WINDOW)
  {
    AllocFails(p);
    var g := AllocFrame(p);
    var u := Mmu(ram[g.frame := ZeroFrame()], g.frame);
    var m := Mem(g.pmm, u);
    ZeroDirectory(u);
    UsedMember(g.pmm);
    ZeroBare(g.pmm, u);
    hide Bare, Clear, LowTables, HeapTables, Pde, Present, AllocFrame, Window;
    LowTablesEnough(m, 0);
    EmptyWindow(u);
    LowTablesWindow(m, 0);
    LowTablesInv(m, 0);
    HeapTablesWindow(LowTables(m, 0).mem, 768) by { FromLow(LowTables(m, 0).mem.mmu); }
  }

  lemma EmptyWindow(u: Mmu)
    ensures Window(u, 0)
  {
  }

  lemma FromLow(u: Mmu)
    requires EmptyFrom(u, 4)
    ensures EmptyFrom(u, 768)
  {
    hide Pde, Present;
  }

  lemma {:induction false} LowTablesEnough(m: Mem, i: nat)
    requires i <= 4 && Clear(m.pmm.used) >= 4 - i
    ensures LowTables(m, i).ok
    decreases 4 - i
  {
    hide AllocFrame, Clear, Install, Identity;
    if i < 4 {
      AllocFails(m.pmm);
      var g := AllocFrame(m.pmm);
      LowTablesEnough(Mem(g.pmm, Identity(Install(m.mmu, i, g.frame, 3), i * ENTRIES, (i + 1) * ENTRIES)), i + 1);
    }
  }

  // ---- Whole runs ----

  /** The page is mapped as before, entry and slot, or unmapped as before. */
  ghost predicate PageKept(u: Mmu, r: Mmu, v: nat)
    requires v < PAGES
  {
    && Mapped(r, v) == Mapped(u, v)
    && (Mapped(u, v) ==> Pte(r, v) == Pte(u, v) && Pde(r, v / ENTRIES) == Pde(u, v / ENTRIES))
  }

  lemma TakeKeeps(m: Mem, v: nat, flags: nat, clear: bool, w: nat)
    requires Inv(m) && v < PAGES && flags < 4096 && w < PAGES && w != v
    ensures PageKept(m.mmu, TakeAndMap(m, v, flags, clear).mmu, w)
  {
    hide Inv, ZeroPhys, MapPage, AllocFrame, Pde, Pte, Present;
    var g := AllocFrame(m.pmm);
    if Mapped(m.mmu, w) { TableOfMapped(m.mmu, w); }
    if g.frame != 0 {
      AllocInv(m);
      AllocSpec(m.pmm);
      ZeroPhysInv(m, g.pmm, g.frame, 1);
      var u := if clear then ZeroPhys(m.mmu, g.frame, 1) else m.mmu;
      MapPageSpec(Mem(g.pmm, u), v, g.frame, flags);
    }
  }

  lemma {:induction false} GrowKeeps(m: Mem, lo: nat, v: nat, hi: nat, w: nat)
    requires Inv(m) && UserPages(lo, v) && UserPages(v, hi) && w < USER_FIRST
    ensures PageKept(m.mmu, Grow(m, lo, v, hi).mem.mmu, w)
    decreases hi - v
  {
    hide Pde, Pte, Present, Inv, MapPage, AllocFrame, Release;
    if v < hi {
      var g := AllocFrame(m.pmm);
      if Mapped(m.mmu, w) { TableOfMapped(m.mmu, w); }
      if g.frame == 0 {
        ReleaseSpec(m, lo, v);
      } else {
        GrowPageInv(m, v);
        MapPageSpec(Mem(g.pmm, m.mmu), v, g.frame, 7);
        GrowKeeps(MapPage(Mem(g.pmm, m.mmu), v, g.frame, 7), lo, v + 1, hi, w);
      }
    }
  }

  lemma SbrkKeeps(m: Mem, h: Heap, inc: i32, w: nat)
    requires Inv(m) && HeapOk(h) && w < USER_FIRST
    ensures PageKept(m.mmu, Sbrk(m, h, inc).mem.mmu, w)
  {
    hide Inv, Grow, Release, Pde, Pte, Present;
    var brk := Wrap32(h.brk + inc);
    if Accepts(h, inc) && inc > 0 && PageUp(h.brk) < PageUp(brk) {
      GrowKeeps(m, PageUp(h.brk), PageUp(h.brk), PageUp(brk), w);
    } else if Accepts(h, inc) && inc < 0 && PageUp(brk) < PageUp(h.brk) {
      ReleaseSpec(m, PageUp(brk), PageUp(h.brk));
    }
  }

  lemma ExecKeeps(m: Mem, h: Heap, d: seq<byte>, w: nat)
    requires Inv(m) && w < USER_FIRST
    ensures PageKept(m.mmu, ElfLoad(m, h, d).mem.mmu, w)
  {
    hide Inv, LoadSegs, TableFits, U16, U32, Segments, MaxEnd, Without, Pde, Pte, Present, GrewFrames, FrameOf;
    if Accepted(d) {
      if Mapped(m.mmu, w) { TableOfMapped(m.mmu, w); }
      var segs := Segments(d, PhNum(d));
      assert Current(m.mmu, []) && Low(m.pmm, []) && Virts([]) == {};
      GrewRefl(m);
      LoadRollsBack(m, m, segs, []);
      var ts := ReachedBy(m, segs, []);
      var l := LoadSegs(m, segs, []);
      WithoutSpec(m, ts);
      assert w !in ts;
      var b := Without(m, ts);
      var pages := if l.ok then Virts(l.recs) else {};
      assert Grew(b, l.mem, pages, {});
      assert w in pages ==> Occupied(l.mem.mmu, w);
    }
  }

  lemma StepKeepsLow(s: Sys, op: Op, w: nat)
    requires SysInv(s) && w < USER_FIRST
    ensures PageKept(s.mem.mmu, Step(s, op).mem.mmu, w)
  {
    hide Inv, HeapOk, ElfLoad, Sbrk, TakeAndMap, ZeroPhys, AllocBlocks, AllocFrame, Pde, Pte, Present;
    match op
    case KernelPage => if KERNEL_FIRST <= s.next < KERNEL_LAST { TakeKeeps(s.mem, s.next, 3, false, w); }
    case Exec(d) => ExecKeeps(s.mem, s.heap, d, w);
    case Stack => TakeKeeps(s.mem, STACK_PAGE, 7, true, w);
    case SbrkCall(inc) => SbrkKeeps(s.mem, s.heap, inc, w);
    case BrkCall(addr) =>
      var target := if addr == 0 then s.heap.brk else addr;
      SbrkKeeps(s.mem, s.heap, Signed32(target - s.heap.brk), w);
    case Buffer(count) => BufferInv(s.mem, count);
  }

  lemma OntoKept(u: Mmu, r: Mmu, v: nat)
    requires v < PAGES && OntoItself(u, v) && PageKept(u, r, v)
    ensures OntoItself(r, v)
  {
    hide Pde, Pte, UserBit, FrameOf;
  }

  lemma {:induction false} RunWindow(s: Sys, ops: seq<Op>, v: nat)
    requires SysInv(s) && v < WINDOW && OntoItself(s.mem.mmu, v)
    ensures OntoItself(Run(s, ops).mem.mmu, v)
    decreases |ops|
  {
    hide SysInv, Step, OntoItself, PageKept;
    if ops != [] {
      StepInv(s, ops[0]);
      StepKeepsLow(s, ops[0], v);
      OntoKept(s.mem.mmu, Step(s, ops[0]).mem.mmu, v);
      RunWindow(Step(s, ops[0]), ops[1..], v);
    }
  }

  /** Main result: in every run from a start-up with five free frames every address of the first 16 MB is
      its own physical address, and ring 3 has no access to it. */
  lemma KernelWindow(p: Pmm, ram: map<nat, Frame>, ops: seq<Op>, a: u32)
    requires Clear(p.used) >= 5 && a < 0x100_0000
    ensures PagingInit(p, ram).Booted?
    ensures var u := Run(Sys(PagingInit(p, ram).mem, Heap(0, 0, false), KERNEL_FIRST), ops).mem.mmu;
      Mapped(u, a / 4096) && Translate(u, a) == a && Writable(Pte(u, a / 4096)) && !UserAccessible(u, a / 4096)
  {
    hide PagingInit, Run, Clear, Pde, Pte, Present, Inv;
    BootWindow(p, ram);
    BootInv(p, ram);
    var s := Sys(PagingInit(p, ram).mem, Heap(0, 0, false), KERNEL_FIRST);
    assert OntoItself(s.mem.mmu, a / 4096);
    RunWindow(s, ops, a / 4096);
    OntoAnswers(Run(s, ops).mem.mmu, a);
  }

  lemma OntoAnswers(u: Mmu, a: u32)
    requires OntoItself(u, a / 4096)
    ensures Mapped(u, a / 4096) && Translate(u, a) == a && Writable(Pte(u, a / 4096)) && !UserAccessible(u, a / 4096)
  {
    hide Pde, Pte;
  }

  // ---- How far the window reaches ----

  lemma {:induction false} RunKeepsLow(s: Sys, ops: seq<Op>, w: nat)
    requires SysInv(s) && w < USER_FIRST
    ensures Mapped(Run(s, ops).mem.mmu, w) == Mapped(s.mem.mmu, w)
    decreases |ops|
  {
    hide SysInv, Step, Mapped, Pte, Pde;
    if ops != [] {
      StepInv(s, ops[0]);
      StepKeepsLow(s, ops[0], w);
      RunKeepsLow(Step(s, ops[0]), ops[1..], w);
    }
  }

  /** Tables, stack pages and buffers are written through their physical addresses. On a machine whose
      managed memory ends at 16 MB that is right for every frame, in every run. */
  lemma PhysicalReach(p: Pmm, ram: map<nat, Frame>, ops: seq<Op>, f: nat, k: nat)
    requires Clear(p.used) >= 5 && p.base + |p.used| <= WINDOW && Managed(p, f) && k < 4096
    ensures PagingInit(p, ram).Booted?
    ensures var u := Run(Sys(PagingInit(p, ram).mem, Heap(0, 0, false), KERNEL_FIRST), ops).mem.mmu;
      Mapped(u, f) && Translate(u, f * 4096 + k) == f * 4096 + k && Writable(Pte(u, f))
  {
    hide PagingInit, Run, Clear, Translate, Pte;
    assert (f * 4096 + k) / 4096 == f;
    KernelWindow(p, ram, ops, f * 4096 + k);
  }

  lemma NoSlot(u: Mmu, v: nat)
    requires v < PAGES && !HasTable(u, v)
    ensures !Mapped(u, v)
  {
  }

  /** Beyond it is not: no page from 16 MB up to user space is ever mapped, so such a store faults. */
  lemma WindowEnds(p: Pmm, ram: map<nat, Frame>, ops: seq<Op>, v: nat)
    requires Clear(p.used) >= 69 && WINDOW <= v < USER_FIRST
    ensures PagingInit(p, ram).Booted?
    ensures !Mapped(Run(Sys(PagingInit(p, ram).mem, Heap(0, 0, false), KERNEL_FIRST), ops).mem.mmu, v)
  {
    hide PagingInit, Run, Clear, Mapped, Pde, Present, Inv;
    Scenarios.BootShape(p, ram);
    var s := Sys(PagingInit(p, ram).mem, Heap(0, 0, false), KERNEL_FIRST);
    assert 4 <= v / ENTRIES < 768;
    NoSlot(s.mem.mmu, v);
    RunKeepsLow(s, ops, v);
  }

  // ---- Zeroed pages ----

  lemma {:induction false} ZeroPhysZero(u: Mmu, f: nat, n: nat, g: nat)
    requires f <= g < f + n
    ensures At(ZeroPhys(u, f, n), g) == ZeroFrame()
    decreases n
  {
    var r := Mmu(u.ram[f := ZeroFrame()], u.pd);
    if g == f { ZeroPhysFrames(r, f + 1, n - 1); } else { ZeroPhysZero(r, f + 1, n - 1, g); }
  }

  /** The frames of a file buffer are cleared. */
  lemma BufferZero(s: Sys, count: u32, f: nat)
    requires var g := AllocBlocks(s.mem.pmm, count); g.frame != 0 && g.frame <= f < g.frame + count
    ensures At(Step(s, Buffer(count)).mem.mmu, f) == ZeroFrame()
  {
    hide ZeroPhys, At, AllocBlocks;
    ZeroPhysZero(s.mem.mmu, AllocBlocks(s.mem.pmm, count).frame, count, f);
  }

  /** A program starts with a stack page of zeros, for ring 3 to read and write, whenever two frames are
      free, or one when the page's table exists. */
  lemma StackReady(s: Sys, a: u32)
    requires SysInv(s) && a / 4096 == 0xB_FFFF
    requires Clear(s.mem.pmm.used) > (if HasTable(s.mem.mmu, 0xB_FFFF) then 0 else 1)
    ensures var u := Step(s, Stack).mem.mmu; UserWritable(u, a / 4096) && Peek(u, a) == 0
  {
    hide Inv, HeapOk, ZeroPhys, MapPage, AllocFrame, Clear, Pde, Pte, At, Present, FrameOf, TableSet, UsedSet, HasTable;
    var m := s.mem;
    AllocFails(m.pmm);
    AllocInv(m);
    AllocSpec(m.pmm);
    var g := AllocFrame(m.pmm);
    AllocFails(g.pmm);
    ZeroPhysInv(m, g.pmm, g.frame, 1);
    var u := ZeroPhys(m.mmu, g.frame, 1);
    var m1 := Mem(g.pmm, u);
    SameViewUnowned(m.mmu, u, g.frame);
    assert HasTable(u, STACK_PAGE) == HasTable(m.mmu, STACK_PAGE) by { SameSlot(m.mmu, u, STACK_PAGE); }
    MapPageSpec(m1, STACK_PAGE, g.frame, 7);
    MapInv(m1, STACK_PAGE, g.frame, 7);
    ZeroPhysZero(m.mmu, g.frame, 1, g.frame);
    NotSpent(m1, STACK_PAGE, g.frame);
    var r := MapPage(m1, STACK_PAGE, g.frame, 7);
    StackShows(r.mmu, g.frame, a) by { assert Inv(r); InvUser(r, STACK_PAGE); }
  }

  lemma SameSlot(u: Mmu, r: Mmu, v: nat)
    requires SameView(u, r) && v < PAGES
    ensures HasTable(r, v) == HasTable(u, v)
  {
    hide Pde, Pte;
  }

  lemma NotSpent(m: Mem, v: nat, f: nat)
    requires v < PAGES && Used(m.pmm, f)
    ensures f !in NewTable(m, v)
  {
  }

  lemma InvUser(m: Mem, v: nat)
    requires Inv(m) && USER_FIRST <= v < KERNEL_FIRST && HasTable(m.mmu, v)
    ensures UserBit(Pde(m.mmu, v / ENTRIES)) && Writable(Pde(m.mmu, v / ENTRIES))
  {
    hide Pde;
    assert 32 <= v / ENTRIES < 768;
  }

  lemma StackShows(u: Mmu, f: nat, a: u32)
    requires a / 4096 == STACK_PAGE && f < PAGES && HasTable(u, STACK_PAGE) && Pte(u, STACK_PAGE) == Entry(f, 7)
    requires At(u, f) == ZeroFrame() && UserBit(Pde(u, STACK_PAGE / ENTRIES)) && Writable(Pde(u, STACK_PAGE / ENTRIES))
    ensures UserWritable(u, STACK_PAGE) && Peek(u, a) == 0
  {
    hide Pde, Pte, At;
  }
}
