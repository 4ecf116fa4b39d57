/** Frames that the kernel must never hand out: those that hold the frame bitmap at 2 MB and the
    kernel image from 1 MB on (kernel/kernel.c:122-230, linker.ld:10). A frame that is out of the
    allocator's reach and backs nothing stays so over every run, with its bytes unchanged; and when
    start-up has put the vital ones out of reach. */
module Reserved {
  import opened Words
  import opened Frames
  import opened Paging
  import opened Memory
  import opened Ownership
  import opened UserHeap
  import opened Access
  import opened Break
  import opened Loader
  import opened Image
  import opened Rollback
  import opened Elf
  import opened System

  /** Used or not managed, and neither a table nor behind a tracked page. */
  ghost predicate Pins(m: Mem, f: nat) { !IsFree(m.pmm, f) && Unowned(m.mmu, f) }

  /** The frame is still pinned and holds the same bytes. */
  ghost predicate Spared(m: Mem, r: Mem, f: nat) {
    Pins(r, f) && At(r.mmu, f) == At(m.mmu, f) && |r.pmm.used| == |m.pmm.used|
  }

  // ---- The parts of a call ----

  lemma AllocSpares(m: Mem, f: nat)
    requires Pins(m, f)
    ensures AllocFrame(m.pmm).frame != 0 ==> AllocFrame(m.pmm).frame != f
    ensures Spared(m, Mem(AllocFrame(m.pmm).pmm, m.mmu), f)
  {
    hide Unowned, At;
    AllocSpec(m.pmm);
  }

  lemma ReleaseSpares(m: Mem, v: nat, f: nat)
    requires Inv(m) && Tracked(v) && Pins(m, f)
    ensures Inv(ReleasePage(m, v)) && Spared(m, ReleasePage(m, v), f)
  {
    hide Pde, Pte, At, Present, FrameOf, Unmap, FreeFrame, ReleasePage, IsTable;
    ReleasePageStep(m, v);
    ReleasedFree(m, v);
    if Mapped(m.mmu, v) {
      assert Occupied(m.mmu, v);
      UnmapSpec(m.mmu, v);
      var r := ReleasePage(m, v);
      assert forall w: nat | Occupied(r.mmu, w) :: Occupied(m.mmu, w) && Frm(r.mmu, w) == Frm(m.mmu, w);
    }
  }

  lemma MapSpares(m: Mem, v: nat, g: nat, flags: nat, f: nat)
    requires Inv(m) && v < PAGES && g < PAGES && flags < 4096 && Pins(m, f) && f != g
    ensures Spared(m, MapPage(m, v, g, flags), f)
  {
    hide Pde, Pte, At, Present, MapPage, IsTable, Inv, UsedSet, TableSet, Entry;
    MapPageSpec(m, v, g, flags);
    var r := MapPage(m, v, g, flags);
    if CanMap(m, v) {
      MappedFree(m, v, g, flags);
      TablesAfterMap(m, v, g, flags);
      AllocSpares(m, f);
      assert f !in NewTable(m, v);
      assert forall w: nat | Occupied(r.mmu, w) && w != v :: Occupied(m.mmu, w) && Frm(r.mmu, w) == Frm(m.mmu, w);
    }
  }

  /** Stores into tracked pages reach no unowned frame. */
  lemma {:induction false} WriteSpares(u: Mmu, a: nat, bs: seq<byte>, f: nat)
    requires a + |bs| <= 0x1_0000_0000 && Separate(u) && Backed(u, a, |bs|) && Unowned(u, f)
    ensures At(Write(u, a, bs), f) == At(u, f)
    decreases |bs|
  {
    hide Pde, Pte, Present, FrameOf, Separate, IsTable;
    if bs != [] {
      assert Occupied(u, a / 4096);
      PokeSpec(u, a, bs[0]);
      var p := Poke(u, a, bs[0]);
      SameViewUnowned(u, p, f);
      assert Frm(u, a / 4096) != f && At(p, f) == At(u, f);
      assert Backed(p, a + 1, |bs[1..]|);
      WriteSpares(p, a + 1, bs[1..], f);
    }
  }

  lemma {:induction false} ReleaseRangeSpares(m: Mem, lo: nat, hi: nat, f: nat)
    requires Inv(m) && UserPages(lo, hi) && Pins(m, f)
    ensures Spared(m, Release(m, lo, hi), f)
    decreases hi - lo
  {
    hide ReleasePage, Inv, Pins, At;
    if lo < hi {
      ReleaseSpares(m, lo, f);
      ReleaseRangeSpares(ReleasePage(m, lo), lo + 1, hi, f);
    }
  }

  lemma {:induction false} GrowSpares(m: Mem, lo: nat, v: nat, hi: nat, f: nat)
    requires Inv(m) && UserPages(lo, v) && UserPages(v, hi) && Pins(m, f)
    ensures Spared(m, Grow(m, lo, v, hi).mem, f)
    decreases hi - v
  {
    hide MapPage, AllocFrame, Release, Inv, Pins, At;
    if v < hi {
      var g := AllocFrame(m.pmm);
      if g.frame == 0 {
        ReleaseRangeSpares(m, lo, v, f);
      } else {
        GrowPageInv(m, v);
        AllocSpares(m, f);
        MapSpares(Mem(g.pmm, m.mmu), v, g.frame, 7, f);
        GrowSpares(MapPage(Mem(g.pmm, m.mmu), v, g.frame, 7), lo, v + 1, hi, f);
      }
    }
  }

  lemma SbrkSpares(m: Mem, h: Heap, inc: i32, f: nat)
    requires Inv(m) && HeapOk(h) && Pins(m, f)
    ensures Spared(m, Sbrk(m, h, inc).mem, f)
  {
    hide Pins, Inv, Grow, Release, At;
    var brk := Wrap32(h.brk + inc);
    if Accepts(h, inc) && inc > 0 && PageUp(h.brk) < PageUp(brk) {
      GrowSpares(m, PageUp(h.brk), PageUp(h.brk), PageUp(brk), f);
    } else if Accepts(h, inc) && inc < 0 && PageUp(brk) < PageUp(h.brk) {
      ReleaseRangeSpares(m, PageUp(brk), PageUp(h.brk), f);
    }
  }

  // ---- Loads ----

  lemma LoadPageSpares(m: Mem, v: nat, flags: nat, f: nat)
    requires Inv(m) && UserPages(v, v + 1) && (flags == 5 || flags == 7) && Pins(m, f)
    ensures Spared(m, LoadPage(m, v, flags).mem, f)
  {
    hide Pte, Pde, Present, LoadPage, Inv, ReleasePage, MapPage, AllocFrame, FreeFrame, CanMap, Entry, At, Unowned;
    hide IsFree;
    LoadPageSteps(m, v, flags);
    ReleaseSpares(m, v, f);
    var m1 := ReleasePage(m, v);
    var g := AllocFrame(m1.pmm);
    if g.frame != 0 {
      AllocSpares(m1, f);
      var m1' := Mem(g.pmm, m1.mmu);
      if CanMap(m1', v) {
        var m2 := MapPage(m1', v, g.frame, flags);
        MapSpares(m1', v, g.frame, flags, f);
        InvSeparate(m2);
        BackedPage(m2.mmu, v);
        WriteSpec(m2.mmu, v * 4096, ZeroFrame());
        WriteSpares(m2.mmu, v * 4096, ZeroFrame(), f);
        SameViewUnowned(m2.mmu, Write(m2.mmu, v * 4096, ZeroFrame()), f);
      } else {
        FreedAgain(g.pmm, g.frame, f);
      }
    }
  }

  lemma FreedAgain(p: Pmm, g: nat, f: nat)
    requires !IsFree(p, f) && f != g
    ensures !IsFree(FreeFrame(p, g), f)
  {
    FreeSpec(p, g);
  }

  lemma DropSpares(m: Mem, r: Rec, f: nat)
    requires Inv(m) && Pends(m, r) && Pins(m, f)
    ensures Spared(m, Drop(m, r), f)
  {
    hide Pde, Pte, At, Present, FrameOf, Unmap, IsTable;
    UnmapSpec(m.mmu, r.virt);
    FreeSpec(m.pmm, r.phys);
    if Stands(m.mmu, r) { assert Occupied(m.mmu, r.virt); }
    var u := Unmap(m.mmu, r.virt);
    assert forall w: nat | Occupied(u, w) :: Occupied(m.mmu, w) && Frm(u, w) == Frm(m.mmu, w);
  }

  lemma {:induction false} CleanupSpares(m: Mem, recs: seq<Rec>, f: nat)
    requires Inv(m) && Pending(m, recs) && Pins(m, f)
    ensures RecsInRange(recs) && Spared(m, Cleanup(m, recs), f)
    decreases |recs|
  {
    hide Inv, Drop, Pends, Pins, At;
    PendingInRange(m, recs);
    if recs != [] {
      DropInv(m, recs[0]);
      DropSpares(m, recs[0], f);
      forall x | x in recs[1..] ensures Pends(Drop(m, recs[0]), x) { DropPends(m, recs[0], x); }
      CleanupSpares(Drop(m, recs[0]), recs[1..], f);
      CleanupFirst(m, recs);
    }
  }

  lemma {:induction false} LoadPagesSpares(m: Mem, v: nat, hi: nat, flags: nat, recs: seq<Rec>, f: nat)
    requires Inv(m) && UserPages(v, hi) && (flags == 5 || flags == 7) && Current(m.mmu, recs) && Low(m.pmm, recs)
    requires Pins(m, f)
    ensures RecsInRange(recs) && Spared(m, LoadPages(m, v, hi, flags, recs).mem, f)
    decreases hi - v
  {
    hide LoadPage, Inv, Current, PageDone, Low, Pins, At;
    CurrentInRange(m.mmu, recs);
    if v < hi {
      var p := LoadPage(m, v, flags);
      LoadPageSpares(m, v, flags, f);
      if p.frame == 0 {
        LoadPageFails(m, v, flags, recs);
        CurrentPends(p.mem, recs);
        CleanupSpares(p.mem, recs, f);
      } else {
        LoadPageDone(m, v, flags);
        LowStep(m, v, flags, recs);
        CurrentSnoc(m, p.mem, recs, v, p.frame, flags);
        LoadPagesSpares(p.mem, v + 1, hi, flags, recs + [Rec(v, p.frame)], f);
      }
    }
  }

  lemma FillSpares(m: Mem, s: Seg, f: nat)
    requires Inv(m) && SegOk(s) && (forall v: nat | Covers(s, v) :: Occupied(m.mmu, v)) && Pins(m, f)
    ensures Spared(m, Mem(m.pmm, Fill(m.mmu, s)), f)
  {
    hide Pde, Pte, At, Write, Inv, Present, Occupied, UserPages, Unowned, IsFree, Peek;
    InvSeparate(m);
    forall x: u32 | s.va <= x < s.va + s.memsz ensures Occupied(m.mmu, x / 4096) { CoversByte(s, x); }
    WriteSpec(m.mmu, s.va, s.bytes);
    WriteSpares(m.mmu, s.va, s.bytes, f);
    var w := Write(m.mmu, s.va, s.bytes);
    SameViewUnowned(m.mmu, w, f);
    var zeros := seq(s.memsz - |s.bytes|, _ => 0);
    WriteSpec(w, s.va + |s.bytes|, zeros);
    WriteSpares(w, s.va + |s.bytes|, zeros, f);
    SameViewUnowned(w, Write(w, s.va + |s.bytes|, zeros), f);
  }

  lemma {:induction false} LoadSegsSpares(m: Mem, segs: seq<Seg>, recs: seq<Rec>, f: nat)
    requires Inv(m) && SegsOk(segs) && Current(m.mmu, recs) && Low(m.pmm, recs) && Pins(m, f)
    ensures RecsInRange(recs) && Spared(m, LoadSegs(m, segs, recs).mem, f)
    decreases |segs|
  {
    hide Inv, LoadPages, Fill, Current, Low, Pins, At, Pte, Entry;
    CurrentInRange(m.mmu, recs);
    if segs != [] {
      var s := segs[0];
      assert SegOk(s);
      if EndPage(s) == FirstPage(s) {
        LoadSegsSpares(m, segs[1..], recs, f);
      } else if EndPage(s) - FirstPage(s) > MAX_PAGES - |recs| {
        CurrentPends(m, recs);
        CleanupSpares(m, recs, f);
      } else {
        LoadPagesSpares(m, FirstPage(s), EndPage(s), Flags(s), recs, f);
        LoadPagesInv(m, FirstPage(s), EndPage(s), Flags(s), recs);
        var l := LoadPages(m, FirstPage(s), EndPage(s), Flags(s), recs);
        if l.ok {
          var next := Mem(l.mem.pmm, Fill(l.mem.mmu, s));
          LoadPagesDone(m, FirstPage(s), EndPage(s), Flags(s), recs);
          FillSpares(l.mem, s, f);
          FillStep(m, s, recs);
          SameViewCurrent(l.mem.mmu, next.mmu, l.recs);
          LoadSegsSpares(next, segs[1..], l.recs, f);
        }
      }
    }
  }

  lemma ExecSpares(m: Mem, h: Heap, d: seq<byte>, f: nat)
    requires Inv(m) && Pins(m, f)
    ensures Spared(m, ElfLoad(m, h, d).mem, f)
  {
    hide Inv, LoadSegs, TableFits, U16, U32, Segments, MaxEnd, Pins, At;
    if Accepted(d) { LoadSegsSpares(m, Segments(d, PhNum(d)), [], f); }
  }

  // ---- Stack, buffers and heap pages ----

  /** Clearing free frames through their physical addresses. */
  lemma {:induction false} ZeroPhysFrames(u: Mmu, g: nat, n: nat)
    ensures forall f: nat | f < g || f >= g + n :: At(ZeroPhys(u, g, n), f) == At(u, f)
    decreases n
  {
    if n > 0 { ZeroPhysFrames(Mmu(u.ram[g := ZeroFrame()], u.pd), g + 1, n - 1); }
  }

  lemma TakeSpares(m: Mem, v: nat, flags: nat, clear: bool, f: nat)
    requires Inv(m) && v < PAGES && flags < 4096 && Pins(m, f)
    ensures Spared(m, TakeAndMap(m, v, flags, clear), f)
  {
    hide Pde, Pte, Present, MapPage, ZeroPhys, Inv, AllocFrame, Unowned, IsFree, At;
    var g := AllocFrame(m.pmm);
    if g.frame != 0 {
      AllocInv(m);
      AllocSpec(m.pmm);
      AllocSpares(m, f);
      ZeroPhysInv(m, g.pmm, g.frame, 1);
      ZeroPhysFrames(m.mmu, g.frame, 1);
      SameViewUnowned(m.mmu, ZeroPhys(m.mmu, g.frame, 1), f);
      var u := if clear then ZeroPhys(m.mmu, g.frame, 1) else m.mmu;
      MapSpares(Mem(g.pmm, u), v, g.frame, flags, f);
    }
  }

  lemma BlocksFree(p: Pmm, count: u32)
    ensures var g := AllocBlocks(p, count);
      g.frame != 0 ==> forall f: nat | g.frame <= f < g.frame + count :: IsFree(p, f)
    ensures forall f: nat | IsFree(AllocBlocks(p, count).pmm, f) :: IsFree(p, f)
  {
  }

  lemma BufferSpares(m: Mem, count: u32, f: nat)
    requires Inv(m) && Pins(m, f)
    ensures var g := AllocBlocks(m.pmm, count);
      g.frame != 0 ==> Spared(m, Mem(g.pmm, ZeroPhys(m.mmu, g.frame, count)), f)
  {
    hide Inv, ZeroPhys, Unowned, At, AllocBlocks, IsFree;
    var g := AllocBlocks(m.pmm, count);
    BlocksFree(m.pmm, count);
    if g.frame != 0 {
      assert !(g.frame <= f < g.frame + count);
      BufferInv(m, count);
      ZeroPhysFrames(m.mmu, g.frame, count);
      SameViewUnowned(m.mmu, ZeroPhys(m.mmu, g.frame, count), f);
    }
  }

  // ---- Whole runs ----

  lemma StepSpares(s: Sys, op: Op, f: nat)
    requires SysInv(s) && Pins(s.mem, f)
    ensures Spared(s.mem, Step(s, op).mem, f)
  {
    hide Inv, HeapOk, ElfLoad, Sbrk, TakeAndMap, ZeroPhys, AllocBlocks, Pins, At, AllocFrame;
    match op
    case KernelPage =>
      if KERNEL_FIRST <= s.next < KERNEL_LAST { TakeSpares(s.mem, s.next, 3, false, f); }
    case Exec(d) => ExecSpares(s.mem, s.heap, d, f);
    case Stack => TakeSpares(s.mem, STACK_PAGE, 7, true, f);
    case SbrkCall(inc) => SbrkSpares(s.mem, s.heap, inc, f);
    case BrkCall(addr) =>
      var target := if addr == 0 then s.heap.brk else addr;
      SbrkSpares(s.mem, s.heap, Signed32(target - s.heap.brk), f);
    case Buffer(count) => BufferSpares(s.mem, count, f);
  }

  /** Frame 0 is never managed, so it is always pinned. */
  lemma ZeroPinned(m: Mem)
    requires Inv(m)
    ensures Pins(m, 0)
  {
    hide Pde, Pte, Present, FrameOf;
    assert !Used(m.pmm, 0);
  }

  /** Main result: over every run frame ownership is kept, and a pinned frame stays pinned and keeps
      every byte. */
  lemma {:induction false} RunSpares(s: Sys, ops: seq<Op>, f: nat)
    requires SysInv(s) && Pins(s.mem, f)
    ensures SysInv(Run(s, ops)) && Spared(s.mem, Run(s, ops).mem, f)
    decreases |ops|
  {
    hide SysInv, Step, Pins, At;
    if ops != [] {
      StepInv(s, ops[0]);
      StepSpares(s, ops[0], f);
      RunSpares(Step(s, ops[0]), ops[1..], f);
    }
  }

  // ---- Start-up ----

  /** The frame's bytes before paging_init. */
  function Bytes(ram: map<nat, Frame>, f: nat): Frame { if f in ram then ram[f] else ZeroFrame() }

  ghost predicate BootPins(m: Mem, f: nat) { Bare(m) && !IsFree(m.pmm, f) && !IsTable(m.mmu, f) }

  lemma BarePins(m: Mem, f: nat)
    requires BootPins(m, f)
    ensures Pins(m, f)
  {
    hide Mapped, IsTable, Inv;
  }

  lemma InstallSpares(m: Mem, i: nat, f: nat)
    requires BootPins(m, f) && EmptyFrom(m.mmu, i) && (i < 4 || 768 <= i < 832) && AllocFrame(m.pmm).frame != 0
    ensures var g := AllocFrame(m.pmm); var r := Mem(g.pmm, Install(m.mmu, i, g.frame, 3));
      && BootPins(r, f) && EmptyFrom(r.mmu, i + 1) && Present(Pde(r.mmu, i)) && At(r.mmu, f) == At(m.mmu, f)
      && |r.pmm.used| == |m.pmm.used|
  {
    hide Pde, Pte, At, Present, FrameOf, Entry, Install, AllocFrame, TableSet, Inv;
    InstallInv(m, i);
    AllocInv(m);
    AllocSpec(m.pmm);
    var g := AllocFrame(m.pmm);
    BareOk(m);
    InstallSpec(m.mmu, i, g.frame, 3);
    TableMember(m.mmu);
    TableMember(Install(m.mmu, i, g.frame, 3));
  }

  lemma {:induction false} IdentitySpares(m: Mem, v: nat, hi: nat, i: nat, f: nat)
    requires i < 4 && i * ENTRIES <= v <= hi <= (i + 1) * ENTRIES
    requires BootPins(m, f) && Present(Pde(m.mmu, i)) && EmptyFrom(m.mmu, i + 1)
    ensures var r := Identity(m.mmu, v, hi);
      BootPins(Mem(m.pmm, r), f) && EmptyFrom(r, i + 1) && At(r, f) == At(m.mmu, f)
    decreases hi - v
  {
    hide Pde, Pte, At, Present, FrameOf, Entry, SetPte, Bare;
    if v < hi {
      assert v / ENTRIES == i;
      IdentityInv(m, v, v + 1, i);
      IdentityOne(m.mmu, v);
      BareOk(m);
      SetPteSpec(m.mmu, v, Entry(v, 3));
      var r := SetPte(m.mmu, v, Entry(v, 3));
      SameTables(m.mmu, r);
      assert IsTable(m.mmu, TableOf(m.mmu, i));
      IdentitySpares(Mem(m.pmm, r), v + 1, hi, i, f);
    }
  }

  lemma BareOk(m: Mem)
    requires Bare(m)
    ensures TablesOk(m.mmu)
  {
  }

  lemma IdentityOne(u: Mmu, v: nat)
    requires v < PAGES
    ensures Identity(u, v, v + 1) == SetPte(u, v, Entry(v, 3))
  {
    hide SetPte, Entry;
  }

  lemma {:induction false} LowTablesSpares(m: Mem, i: nat, f: nat)
    requires i <= 4 && BootPins(m, f) && EmptyFrom(m.mmu, i)
    ensures var l := LowTables(m, i);
      && BootPins(l.mem, f) && At(l.mem.mmu, f) == At(m.mmu, f) && (l.ok ==> EmptyFrom(l.mem.mmu, 4))
      && |l.mem.pmm.used| == |m.pmm.used|
    decreases 4 - i
  {
    hide BootPins, EmptyFrom, Identity, Install, Pde, Present, At, AllocFrame;
    if i < 4 {
      var g := AllocFrame(m.pmm);
      if g.frame != 0 {
        InstallSpares(m, i, f);
        var u := Install(m.mmu, i, g.frame, 3);
        IdentitySpares(Mem(g.pmm, u), i * ENTRIES, (i + 1) * ENTRIES, i, f);
        LowTablesSpares(Mem(g.pmm, Identity(u, i * ENTRIES, (i + 1) * ENTRIES)), i + 1, f);
      }
    }
  }

  lemma {:induction false} HeapTablesSpares(m: Mem, i: nat, f: nat)
    requires 768 <= i <= 832 && BootPins(m, f) && EmptyFrom(m.mmu, i)
    ensures var r := HeapTables(m, i);
      BootPins(r, f) && At(r.mmu, f) == At(m.mmu, f) && |r.pmm.used| == |m.pmm.used|
    decreases 832 - i
  {
    hide BootPins, Install, Pde, Present, At, AllocFrame;
    if i < 832 {
      var g := AllocFrame(m.pmm);
      if g.frame == 0 {
        HeapTablesSpares(m, i + 1, f);
      } else {
        InstallSpares(m, i, f);
        HeapTablesSpares(Mem(g.pmm, Install(m.mmu, i, g.frame, 3)), i + 1, f);
      }
    }
  }

  /** paging_init leaves a frame out of the allocator's reach alone. */
  lemma BootSpares(p: Pmm, ram: map<nat, Frame>, f: nat)
    requires PagingInit(p, ram).Booted? && !IsFree(p, f)
    ensures var m := PagingInit(p, ram).mem;
      Pins(m, f) && At(m.mmu, f) == Bytes(ram, f) && |m.pmm.used| == |p.used|
  {
    AllocSpec(p);
    var g := AllocFrame(p);
    var u := Mmu(ram[g.frame := ZeroFrame()], g.frame);
    ZeroDirectory(u);
    ZeroBare(g.pmm, u);
    var m := Mem(g.pmm, u);
    assert !IsTable(u, f);
    assert At(u, f) == Bytes(ram, f);
    hide Bare, LowTables, HeapTables, Pde, Present, AllocFrame, At, IsTable, IsFree;
    LowTablesSpares(m, 0, f);
    var low := LowTables(m, 0);
    if low.ok { HeapTablesSpares(low.mem, 768, f); }
    BarePins(PagingInit(p, ram).mem, f);
  }

  const BITMAP := 512          // the frame at 2 MB, where the bitmap starts
  const IMAGE := 256           // the frame at 1 MB, where the kernel image starts

  /** Frames of the bitmap for `n` managed pages. */
  function BitmapFrames(n: nat): nat { ((n + 7) / 8 + 4095) / 4096 }

  /** Frames the kernel lives on; its image ends before frame `image`. */
  predicate Vital(n: nat, image: nat, f: nat) {
    BITMAP <= f < BITMAP + BitmapFrames(n) || IMAGE <= f < image
  }

  /** Start-up has put every vital frame out of the allocator's reach. */
  ghost predicate StartOk(p: Pmm, image: nat) { forall f: nat | Vital(|p.used|, image, f) :: !IsFree(p, f) }

  /** The same later on. */
  ghost predicate VitalPinned(m: Mem, image: nat) {
    forall f: nat | Vital(|m.pmm.used|, image, f) :: Pins(m, f)
  }

  /** pmm_init with a memory map meets it if and only if the marking before the reservation has set the
      bits of the vital frames beyond the first 2048 pages. */
  lemma ReserveStart(base: nat, used: seq<bool>, image: nat)
    requires 1 <= base && base + |used| <= PAGES
    ensures StartOk(Reserve(base, used), image) <==>
      forall f: nat | Vital(|used|, image, f) && base + 2048 <= f < base + |used| :: used[f - base]
  {
    hide Clear, BitmapFrames;
    var p := Reserve(base, used);
    forall f: nat ensures IsFree(p, f) <==> base + 2048 <= f < base + |used| && !used[f - base] { }
  }

  /** So it always does for a region from 1 MB on of at most 128 MB, as long as the image ends within
      8 MB of the region's start. */
  lemma ReserveMeets(base: nat, used: seq<bool>, image: nat)
    requires IMAGE <= base && |used| <= 32768 && base + |used| <= PAGES && image <= base + 2048
    ensures StartOk(Reserve(base, used), image)
  {
    assert BitmapFrames(|used|) <= 1;
    ReserveStart(base, used, image);
  }

  /** The fallback does not: it marks the page at 3 MB instead of the bitmap's own, and no page of the
      image. */
  lemma FallbackFails(image: nat)
    ensures !StartOk(Fallback(), image) && IsFree(Fallback(), BITMAP) && IsFree(Fallback(), IMAGE)
  {
    assert BitmapFrames(1024) == 1;
    assert Vital(1024, image, BITMAP);
    assert !Fallback().used[0] && !Fallback().used[256];
  }

  /** The allocator after `k` pages have been taken. */
  function Taken(p: Pmm, k: nat): Pmm { if k == 0 then p else AllocFrame(Taken(p, k - 1)).pmm }

  /** The fallback's bits after `k` pages. */
  function Marks(k: nat): (used: seq<bool>)
    ensures |used| == 1024 && forall i | 0 <= i < 1024 :: used[i] == (i < k || i == 512)
  {
    seq(1024, i => i < k || i == 512)
  }

  lemma LowestBit(p: Pmm, k: nat)
    requires p.used == Marks(k) && k < 512
    ensures AllocFrame(p).frame == p.base + k
    ensures AllocFrame(p).pmm.used == Marks(k + 1) && AllocFrame(p).pmm.base == p.base
  {
    hide Marks;
    assert !p.used[k];
    assert FirstClear(p.used, 0) == k;
    assert p.used[k := true] == Marks(k + 1);
  }

  /** Page after page the fallback hands out the image from its first frame on, and as the 257th page
      the bitmap itself. */
  lemma {:induction false} FallbackHandsOut(k: nat)
    requires k < 512
    ensures Taken(Fallback(), k).base == IMAGE && Taken(Fallback(), k).used == Marks(k)
    ensures AllocFrame(Taken(Fallback(), k)).frame == IMAGE + k
  {
    hide Marks, AllocFrame;
    if k == 0 {
      assert Fallback().used == Marks(0);
    } else {
      FallbackHandsOut(k - 1);
      LowestBit(Taken(Fallback(), k - 1), k - 1);
    }
    LowestBit(Taken(Fallback(), k), k);
  }

  /** Main result: after a start-up that has reserved the vital frames, in every run distinct mapped
      pages of user space and kernel heap have distinct frames, all marked used, none of them a page
      table, the directory or a vital frame, no kernel-heap page is accessible from ring 3, and the
      vital frames keep every byte. */
  lemma FrameOwnership(p: Pmm, ram: map<nat, Frame>, image: nat, ops: seq<Op>, v: nat, w: nat, f: nat)
    requires PagingInit(p, ram).Booted? && StartOk(p, image)
    requires Tracked(v) && Tracked(w) && Vital(|p.used|, image, f)
    ensures var m := Run(Sys(PagingInit(p, ram).mem, Heap(0, 0, false), KERNEL_FIRST), ops).mem;
      && (Mapped(m.mmu, v) ==>
            Used(m.pmm, Frm(m.mmu, v)) && !IsTable(m.mmu, Frm(m.mmu, v)) && Frm(m.mmu, v) != f)
      && (Mapped(m.mmu, v) && Mapped(m.mmu, w) && v != w ==> Frm(m.mmu, v) != Frm(m.mmu, w))
      && (v >= KERNEL_FIRST ==> !UserAccessible(m.mmu, v))
      && !IsFree(m.pmm, f) && !IsTable(m.mmu, f) && At(m.mmu, f) == Bytes(ram, f)
  {
    hide Pde, Pte, Present, FrameOf, UserBit, PagingInit, Run, TablesOk, At, IsFree, Vital, IsTable;
    var s := Sys(PagingInit(p, ram).mem, Heap(0, 0, false), KERNEL_FIRST);
    BootInv(p, ram);
    BootSpares(p, ram, f);
    RunSpares(s, ops, f);
    var m := Run(s, ops).mem;
    assert v >= KERNEL_FIRST ==> 768 <= v / ENTRIES < 832;
    assert Mapped(m.mmu, v) ==> Occupied(m.mmu, v);
    assert Mapped(m.mmu, w) ==> Occupied(m.mmu, w);
  }
}
