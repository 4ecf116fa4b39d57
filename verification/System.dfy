/** Start-up of paging and whole runs of the memory stack. */
module System {
  import opened Words
  import opened Frames
  import opened Paging
  import opened Memory
  import opened Ownership
  import opened UserHeap
  import opened Access
  import opened Break
  import opened Loader
  import opened Image
  import opened Rollback
  import opened Elf

  // ---- paging_init (kernel/kernel.c:633-670) ----

  /** Identity entries for pages v..hi of an installed low table. */
  function Identity(u: Mmu, v: nat, hi: nat): Mmu
    requires v <= hi <= PAGES
    decreases hi - v
  {
    if v == hi then u else Identity(SetPte(u, v, Entry(v, 3)), v + 1, hi)
  }

  /** The four identity-mapped tables; stops at the first failed allocation. */
  function LowTables(m: Mem, i: nat): Grown
    requires i <= 4
    decreases 4 - i
  {
    if i == 4 then Grown(m, true)
    else
      var g := AllocFrame(m.pmm);
      if g.frame == 0 then Grown(m, false)
      else LowTables(Mem(g.pmm, Identity(Install(m.mmu, i, g.frame, 3), i * ENTRIES, (i + 1) * ENTRIES)), i + 1)
  }

  /** The kernel heap's tables; a failed allocation is skipped. */
  function HeapTables(m: Mem, i: nat): Mem
    requires i <= 832
    decreases 832 - i
  {
    if i == 832 then m
    else
      var g := AllocFrame(m.pmm);
      if g.frame == 0 then HeapTables(m, i + 1)
      else HeapTables(Mem(g.pmm, Install(m.mmu, i, g.frame, 3)), i + 1)
  }

  datatype Boot = NoDirectory | Booted(mem: Mem)

  function PagingInit(p: Pmm, ram: map<nat, Frame>): Boot {
    var g := AllocFrame(p);
    if g.frame == 0 then NoDirectory
    else
      var low := LowTables(Mem(g.pmm, Mmu(ram[g.frame := ZeroFrame()], g.frame)), 0);
      if low.ok then Booted(HeapTables(low.mem, 768)) else Booted(low.mem)
  }

  /** During start-up nothing above the low tables is mapped and slots from `i` on are empty. */
  ghost predicate Bare(m: Mem) {
    Inv(m) && forall v: nat | Tracked(v) :: !Mapped(m.mmu, v)
  }

  ghost predicate EmptyFrom(u: Mmu, i: nat) {
    forall j: nat | i <= j < ENTRIES :: !Present(Pde(u, j))
  }

  /** One table for a slot outside user space. */
  lemma InstallInv(m: Mem, i: nat)
    requires Bare(m) && EmptyFrom(m.mmu, i) && (i < 4 || 768 <= i < 832) && AllocFrame(m.pmm).frame != 0
    ensures var g := AllocFrame(m.pmm); var r := Mem(g.pmm, Install(m.mmu, i, g.frame, 3));
      Bare(r) && EmptyFrom(r.mmu, i + 1) && Present(Pde(r.mmu, i))
  {
    hide Pde, Pte, At, Present, FrameOf, UserBit, Writable, Entry, Install, AllocFrame, UsedSet, TableSet;
    var g := AllocFrame(m.pmm);
    AllocInv(m);
    InstallSpec(m.mmu, i, g.frame, 3);
    var r := Install(m.mmu, i, g.frame, 3);
    assert TableOf(r, i) == g.frame;
    assert forall j: nat | j < ENTRIES && j != i :: TableOf(r, j) == TableOf(m.mmu, j);
    assert Separate(r) by { assert forall v: nat :: !Occupied(r, v); }
    assert forall v: nat :: !Occupied(r, v);
  }

  lemma {:induction false} IdentityInv(m: Mem, v: nat, hi: nat, i: nat)
    requires i < 4 && i * ENTRIES <= v <= hi <= (i + 1) * ENTRIES && Bare(m) && Present(Pde(m.mmu, i))
    requires EmptyFrom(m.mmu, i + 1)
    ensures Bare(Mem(m.pmm, Identity(m.mmu, v, hi))) && EmptyFrom(Identity(m.mmu, v, hi), i + 1)
    decreases hi - v
  {
    hide Pde, Pte, At, Present, FrameOf, UserBit, Writable, Entry, SetPte, UsedSet, TableSet;
    if v < hi {
      assert v / ENTRIES == i;
      SetPteSpec(m.mmu, v, Entry(v, 3));
      var r := SetPte(m.mmu, v, Entry(v, 3));
      assert forall w: nat :: !Occupied(r, w);
      SameTables(m.mmu, r);
      assert forall j: nat | j < ENTRIES :: TableOf(r, j) == TableOf(m.mmu, j);
      IdentityInv(Mem(m.pmm, r), v + 1, hi, i);
    }
  }

  lemma {:induction false} LowTablesInv(m: Mem, i: nat)
    requires i <= 4 && Bare(m) && EmptyFrom(m.mmu, i)
    ensures Bare(LowTables(m, i).mem) && (LowTables(m, i).ok ==> EmptyFrom(LowTables(m, i).mem.mmu, 4))
    decreases 4 - i
  {
    hide Bare, EmptyFrom, Identity, Install, Pde, Present;
    if i < 4 {
      var g := AllocFrame(m.pmm);
      if g.frame != 0 {
        InstallInv(m, i);
        IdentityInv(Mem(g.pmm, Install(m.mmu, i, g.frame, 3)), i * ENTRIES, (i + 1) * ENTRIES, i);
        LowTablesInv(Mem(g.pmm, Identity(Install(m.mmu, i, g.frame, 3), i * ENTRIES, (i + 1) * ENTRIES)), i + 1);
      }
    }
  }

  lemma {:induction false} HeapTablesInv(m: Mem, i: nat)
    requires 768 <= i <= 832 && Bare(m) && EmptyFrom(m.mmu, i)
    ensures Bare(HeapTables(m, i))
    decreases 832 - i
  {
    hide Bare, Install, Pde, Present;
    if i < 832 {
      var g := AllocFrame(m.pmm);
      if g.frame == 0 {
        HeapTablesInv(m, i + 1);
      } else {
        InstallInv(m, i);
        HeapTablesInv(Mem(g.pmm, Install(m.mmu, i, g.frame, 3)), i + 1);
      }
    }
  }

  lemma ZeroDirectory(u: Mmu)
    requires At(u, u.pd) == ZeroFrame()
    ensures forall i: nat | i < ENTRIES :: Pde(u, i) == 0
  {
    forall i: nat | i < ENTRIES ensures Pde(u, i) == 0 {
      ZeroWord(i);
    }
  }

  /** paging_init establishes frame ownership with nothing mapped in user space or kernel heap. */
  lemma BootInv(p: Pmm, ram: map<nat, Frame>)
    requires PagingInit(p, ram).Booted?
    ensures Bare(PagingInit(p, ram).mem)
  {
    hide Pde, Present, LowTables, HeapTables;
    var g := AllocFrame(p);
    var u := Mmu(ram[g.frame := ZeroFrame()], g.frame);
    ZeroDirectory(u);
    ZeroBare(g.pmm, u);
    LowTablesInv(Mem(g.pmm, u), 0);
    if LowTables(Mem(g.pmm, u), 0).ok {
      HeapTablesInv(LowTables(Mem(g.pmm, u), 0).mem, 768);
    }
  }

  lemma ZeroBare(p: Pmm, u: Mmu)
    requires Used(p, u.pd) && forall i: nat | i < ENTRIES :: Pde(u, i) == 0
    ensures Bare(Mem(p, u)) && EmptyFrom(u, 0)
  {
    hide Pde;
    assert forall i: nat | i < ENTRIES :: !Present(Pde(u, i));
    assert forall v: nat | v < PAGES :: !Mapped(u, v);
  }

  // ---- Whole runs ----

  /** `next` is heap_next_virtual as a page number. */
  datatype Sys = Sys(mem: Mem, heap: Heap, next: nat)

  datatype Op =
    | KernelPage               // heap_alloc_page: one more kernel heap page
    | Exec(file: seq<byte>)    // elf_load
    | Stack                    // k_exec: the user stack page
    | SbrkCall(inc: i32)
    | BrkCall(addr: u32)
    | Buffer(count: u32)       // pmm_alloc_z: zeroed pages that back file contents

  /** Stores zeros in `n` frames from `f` through their physical addresses. */
  function ZeroPhys(u: Mmu, f: nat, n: nat): Mmu
    decreases n
  {
    if n == 0 then u else ZeroPhys(Mmu(u.ram[f := ZeroFrame()], u.pd), f + 1, n - 1)
  }

  /** Take a frame and map it; a missing table that cannot be allocated leaves it unmapped. */
  function TakeAndMap(m: Mem, v: nat, flags: nat, clear: bool): Mem
    requires v < PAGES && flags < 4096
  {
    var g := AllocFrame(m.pmm);
    if g.frame == 0 then m
    else MapPage(Mem(g.pmm, if clear then ZeroPhys(m.mmu, g.frame, 1) else m.mmu), v, g.frame, flags)
  }

  function Step(s: Sys, op: Op): Sys {
    match op
    case KernelPage =>
      if KERNEL_FIRST <= s.next < KERNEL_LAST && AllocFrame(s.mem.pmm).frame != 0
      then s.(mem := TakeAndMap(s.mem, s.next, 3, false), next := s.next + 1) else s
    case Exec(d) =>
      var l := ElfLoad(s.mem, s.heap, d);
      s.(mem := l.mem, heap := l.heap)
    case Stack => s.(mem := TakeAndMap(s.mem, STACK_PAGE, 7, true))
    case SbrkCall(inc) =>
      var o := Sbrk(s.mem, s.heap, inc);
      s.(mem := o.mem, heap := o.heap)
    case BrkCall(addr) =>
      var o := Brk(s.mem, s.heap, addr);
      s.(mem := o.mem, heap := o.heap)
    case Buffer(count) =>
      var g := AllocBlocks(s.mem.pmm, count);
      if g.frame == 0 then s else s.(mem := Mem(g.pmm, ZeroPhys(s.mem.mmu, g.frame, count)))
  }

  function Run(s: Sys, ops: seq<Op>): Sys
    decreases |ops|
  {
    if ops == [] then s else Run(Step(s, ops[0]), ops[1..])
  }

  ghost predicate SysInv(s: Sys) {
    Inv(s.mem) && HeapOk(s.heap)
  }

  /** A store into frames that nobody owns is invisible to every translation. */
  lemma {:induction false} ZeroPhysSpec(u: Mmu, f: nat, n: nat)
    requires TablesOk(u) && forall g: nat | f <= g < f + n :: !IsTable(u, g)
    ensures SameView(u, ZeroPhys(u, f, n))
    decreases n
  {
    hide Pde, Present, FrameOf;
    if n > 0 {
      var r := Mmu(u.ram[f := ZeroFrame()], u.pd);
      assert !IsTable(u, f);
      assert IsTable(u, u.pd);
      assert forall i: nat | i < ENTRIES && Present(Pde(u, i)) :: IsTable(u, TableOf(u, i));
      assert forall g: nat | g != f :: At(r, g) == At(u, g);
      PdeFrom(u, r);
      SameTables(u, r);
      assert SameView(u, r);
      assert TablesOk(r) by { assert forall i: nat | i < ENTRIES :: TableOf(r, i) == TableOf(u, i); }
      ZeroPhysSpec(r, f + 1, n - 1);
    }
  }

  lemma ZeroPhysInv(m: Mem, p: Pmm, f: nat, n: nat)
    requires Inv(m) && Inv(Mem(p, m.mmu)) && forall g: nat | f <= g < f + n :: !Used(m.pmm, g)
    ensures Inv(Mem(p, ZeroPhys(m.mmu, f, n))) && SameView(m.mmu, ZeroPhys(m.mmu, f, n))
  {
    hide Pde, Pte, Present, FrameOf, ZeroPhys, UserBit, Writable;
    forall g: nat | f <= g < f + n ensures !IsTable(m.mmu, g) {
      FreeIsUnowned(m, g);
    }
    ZeroPhysSpec(m.mmu, f, n);
    SameViewInv(Mem(p, m.mmu), ZeroPhys(m.mmu, f, n));
  }

  lemma TakeAndMapInv(m: Mem, v: nat, flags: nat, clear: bool)
    requires Inv(m) && Tracked(v) && flags < 4096 && flags % 2 == 1 && (v < KERNEL_FIRST <==> flags / 4 % 2 == 1)
    ensures Inv(TakeAndMap(m, v, flags, clear))
  {
    hide Inv, Unowned, MapPage, ZeroPhys;
    var g := AllocFrame(m.pmm);
    if g.frame != 0 {
      AllocInv(m);
      ZeroPhysInv(m, g.pmm, g.frame, 1);
      var u := if clear then ZeroPhys(m.mmu, g.frame, 1) else m.mmu;
      SameViewUnowned(m.mmu, u, g.frame);
      MapInv(Mem(g.pmm, u), v, g.frame, flags);
    }
  }

  lemma BufferInv(m: Mem, count: u32)
    requires Inv(m)
    ensures var g := AllocBlocks(m.pmm, count);
      g.frame != 0 ==>
        Inv(Mem(g.pmm, ZeroPhys(m.mmu, g.frame, count))) && SameView(m.mmu, ZeroPhys(m.mmu, g.frame, count))
  {
    hide Inv, ZeroPhys, SameView, FindRun, SetRange;
    var g := AllocBlocks(m.pmm, count);
    if g.frame != 0 {
      BlocksUsed(m.pmm, count);
      PmmInv(m, g.pmm);
      ZeroPhysInv(m, g.pmm, g.frame, count);
    }
  }

  lemma ExecInv(m: Mem, h: Heap, d: seq<byte>)
    requires Inv(m) && HeapOk(h)
    ensures var l := ElfLoad(m, h, d); Inv(l.mem) && HeapOk(l.heap)
  {
    hide Inv, LoadSegs, TableFits, U16, U32, Segments, MaxEnd;
    if Accepted(d) {
      LoadSegsInv(m, Segments(d, PhNum(d)), []);
    }
  }

  lemma StepInv(s: Sys, op: Op)
    requires SysInv(s)
    ensures SysInv(Step(s, op))
  {
    hide Inv, HeapOk, ElfLoad, Sbrk, TakeAndMap, ZeroPhys, AllocBlocks;
    match op
    case KernelPage =>
      if KERNEL_FIRST <= s.next < KERNEL_LAST { TakeAndMapInv(s.mem, s.next, 3, false); }
    case Exec(d) => ExecInv(s.mem, s.heap, d);
    case Stack => TakeAndMapInv(s.mem, STACK_PAGE, 7, true);
    case SbrkCall(inc) => SbrkInv(s.mem, s.heap, inc);
    case BrkCall(addr) =>
      var target := if addr == 0 then s.heap.brk else addr;
      SbrkInv(s.mem, s.heap, Signed32(target - s.heap.brk));
    case Buffer(count) => BufferInv(s.mem, count);
  }
}
