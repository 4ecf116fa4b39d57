/** heap_init runs before enable_paging (kernel/kernel.c:811-815). It maps its page, but what it stores
    goes to physical 3 GB, not to the page's frame. Once paging is on the page shows whatever the frame
    held before, so the heap works only if that was a heap page already. */
module Unpaged {
  import opened Words
  import opened Frames
  import opened Paging
  import opened Memory
  import opened Ownership
  import opened Access
  import opened Break
  import opened Loader
  import opened Rollback
  import opened System
  import opened Reserved
  import opened Isolation
  import opened Ledger
  import opened HeapBlocks
  import opened HeapMemory
  import Scenarios
  import KernelRuns

  // ---- Start-up touches nothing but tables ----

  /** Every frame that is no table holds what it held before start-up. */
  ghost predicate Pristine(ram: map<nat, Frame>, u: Mmu) {
    forall f: nat | !IsTable(u, f) :: At(u, f) == Bytes(ram, f)
  }

  lemma InstallPristine(ram: map<nat, Frame>, m: Mem, i: nat)
    requires Bare(m) && EmptyFrom(m.mmu, i) && (i < 4 || 768 <= i < 832) && AllocFrame(m.pmm).frame != 0
    requires Pristine(ram, m.mmu)
    ensures Pristine(ram, Install(m.mmu, i, AllocFrame(m.pmm).frame, 3))
  {
    hide Pde, Pte, At, Present, FrameOf, Entry, Install, AllocFrame, TableSet, Inv;
    AllocInv(m);
    BareOk(m);
    var g := AllocFrame(m.pmm);
    InstallSpec(m.mmu, i, g.frame, 3);
    var r := Install(m.mmu, i, g.frame, 3);
    TableMember(m.mmu);
    TableMember(r);
  }

  lemma {:induction false} IdentityPristine(ram: map<nat, Frame>, m: Mem, v: nat, hi: nat, i: nat)
    requires i < 4 && i * ENTRIES <= v <= hi <= (i + 1) * ENTRIES
    requires Bare(m) && Present(Pde(m.mmu, i)) && EmptyFrom(m.mmu, i + 1) && Pristine(ram, m.mmu)
    ensures Pristine(ram, Identity(m.mmu, v, hi))
    decreases hi - v
  {
    hide Pde, Pte, At, Present, FrameOf, Entry, SetPte, Bare, TableSet;
    if v < hi {
      assert v / ENTRIES == i;
      IdentityInv(m, v, v + 1, i);
      IdentityOne(m.mmu, v);
      BareOk(m);
      SetPteSpec(m.mmu, v, Entry(v, 3));
      var r := SetPte(m.mmu, v, Entry(v, 3));
      SameTables(m.mmu, r);
      assert IsTable(m.mmu, TableOf(m.mmu, i));
      IdentityPristine(ram, Mem(m.pmm, r), v + 1, hi, i);
    }
  }

  lemma {:induction false} LowPristine(ram: map<nat, Frame>, m: Mem, i: nat)
    requires i <= 4 && Bare(m) && EmptyFrom(m.mmu, i) && Pristine(ram, m.mmu)
    ensures Pristine(ram, LowTables(m, i).mem.mmu)
    decreases 4 - i
  {
    hide Bare, EmptyFrom, Identity, Install, Pde, Present, AllocFrame, Pristine;
    if i < 4 {
      var g := AllocFrame(m.pmm);
      if g.frame != 0 {
        InstallInv(m, i);
        InstallPristine(ram, m, i);
        var u := Install(m.mmu, i, g.frame, 3);
        IdentityInv(Mem(g.pmm, u), i * ENTRIES, (i + 1) * ENTRIES, i);
        IdentityPristine(ram, Mem(g.pmm, u), i * ENTRIES, (i + 1) * ENTRIES, i);
        LowPristine(ram, Mem(g.pmm, Identity(u, i * ENTRIES, (i + 1) * ENTRIES)), i + 1);
      }
    }
  }

  lemma {:induction false} HeapPristine(ram: map<nat, Frame>, m: Mem, i: nat)
    requires 768 <= i <= 832 && Bare(m) && EmptyFrom(m.mmu, i) && Pristine(ram, m.mmu)
    ensures Pristine(ram, HeapTables(m, i).mmu)
    decreases 832 - i
  {
    hide Bare, Install, Pde, Present, AllocFrame, Pristine;
    if i < 832 {
      var g := AllocFrame(m.pmm);
      if g.frame == 0 {
        HeapPristine(ram, m, i + 1);
      } else {
        InstallInv(m, i);
        InstallPristine(ram, m, i);
        HeapPristine(ram, Mem(g.pmm, Install(m.mmu, i, g.frame, 3)), i + 1);
      }
    }
  }

  lemma BootPristine(p: Pmm, ram: map<nat, Frame>)
    requires PagingInit(p, ram).Booted?
    ensures Pristine(ram, PagingInit(p, ram).mem.mmu)
  {
    AllocSpec(p);
    var g := AllocFrame(p);
    var u := Mmu(ram[g.frame := ZeroFrame()], g.frame);
    var m := Mem(g.pmm, u);
    ZeroDirectory(u);
    ZeroBare(g.pmm, u);
    assert Pristine(ram, u);
    hide Bare, LowTables, HeapTables, Pde, Present, AllocFrame, Pristine;
    LowPristine(ram, m, 0);
    LowTablesInv(m, 0);
    var low := LowTables(m, 0);
    if low.ok { HeapPristine(ram, low.mem, 768); }
  }

  // ---- heap_init with paging off ----

  const THREE_GB := 0xC_0000     // the frame at physical 0xC0000000

  function Booted(p: Pmm, ram: map<nat, Frame>): Sys
    requires PagingInit(p, ram).Booted?
  {
    Sys(PagingInit(p, ram).mem, Heap(0, 0, false), KERNEL_FIRST)
  }

  /** The page is mapped; the stores, whatever they leave, go to the frame at 3 GB. */
  function HeapInit(s: Sys, stored: Frame): Sys {
    var r := Step(s, KernelPage);
    r.(mem := Mem(r.mem.pmm, Mmu(r.mem.mmu.ram[THREE_GB := stored], r.mem.mmu.pd)))
  }

  /** The frame that backs the first heap page. */
  function Backing(p: Pmm, ram: map<nat, Frame>): nat
    requires PagingInit(p, ram).Booted?
  {
    AllocFrame(PagingInit(p, ram).mem.pmm).frame
  }

  lemma StoreAside(u: Mmu, f: nat, x: Frame)
    requires TablesOk(u) && Unowned(u, f)
    ensures var r := Mmu(u.ram[f := x], u.pd); SameView(u, r) && forall g: nat | g != f :: At(r, g) == At(u, g)
  {
    hide Pde, Present, FrameOf;
    var r := Mmu(u.ram[f := x], u.pd);
    assert IsTable(u, u.pd);
    assert forall i: nat | i < ENTRIES && Present(Pde(u, i)) :: IsTable(u, TableOf(u, i));
    assert forall g: nat | g != f :: At(r, g) == At(u, g);
    PdeFrom(u, r);
    SameTables(u, r);
  }

  /** After heap_init the machine is in order, and the first heap page shows its frame's old bytes. */
  lemma PageShows(p: Pmm, ram: map<nat, Frame>, image: nat, stored: Frame)
    requires Clear(p.used) >= 70 && StartOk(p, image) && p.base + |p.used| <= THREE_GB
    ensures PagingInit(p, ram).Booted?
    ensures var s := HeapInit(Booted(p, ram), stored); var u := s.mem.mmu;
      && KernelRuns.Machine(s, image) && s.next == KERNEL_FIRST + 1
      && Backing(p, ram) != 0 && Frm(u, KERNEL_FIRST) == Backing(p, ram)
      && At(u, Backing(p, ram)) == Bytes(ram, Backing(p, ram))
  {
    hide PagingInit, Clear, Pde, Pte, Present, Inv, AllocFrame, NextFree, VitalPinned, StartOk, At, Pristine, MapPage;
    hide Entry;
    Scenarios.BootShape(p, ram);
    BootNextFree(p, ram, image);
    BootPristine(p, ram);
    var s := Booted(p, ram);
    var m := s.mem;
    AllocFails(m.pmm);
    AllocInv(m);
    var g := AllocFrame(m.pmm);
    KernelRuns.StepMachine(s, KernelPage, image);
    KernelRuns.NextMapped(s);
    KernelRuns.SlotOf(KERNEL_FIRST);
    var r := Step(s, KernelPage);
    MapPageSpec(Mem(g.pmm, m.mmu), KERNEL_FIRST, g.frame, 3);
    assert r.mem == MapPage(Mem(g.pmm, m.mmu), KERNEL_FIRST, g.frame, 3);
    assert At(r.mem.mmu, g.frame) == Bytes(ram, g.frame) by { PristineAt(ram, m.mmu, g.frame); }
    OutOfReach(p, THREE_GB);
    BootSpares(p, ram, THREE_GB);
    StepSpares(s, KernelPage, THREE_GB);
    Differ(m, r.mem, g.frame, THREE_GB);
    InvSeparate(r.mem);
    SeparateTables(r.mem.mmu);
    StoreAside(r.mem.mmu, THREE_GB, stored);
    KernelRuns.SameViewMachine(r, Mmu(r.mem.mmu.ram[THREE_GB := stored], r.mem.mmu.pd), image);
  }

  lemma PristineAt(ram: map<nat, Frame>, u: Mmu, f: nat)
    requires Pristine(ram, u) && Unowned(u, f)
    ensures At(u, f) == Bytes(ram, f)
  {
    hide IsTable, At;
  }

  lemma OutOfReach(p: Pmm, f: nat)
    requires p.base + |p.used| <= f
    ensures !IsFree(p, f)
  {
  }

  lemma Differ(m: Mem, r: Mem, g: nat, f: nat)
    requires Pins(m, f) && Pins(r, f) && g == AllocFrame(m.pmm).frame != 0
    ensures g != f && Unowned(r.mmu, f)
  {
    hide Unowned;
    AllocSpec(m.pmm);
  }

  /** The word at offset `o` of the first heap page. */
  predicate ShowsWord(u: Mmu, fr: Frame, o: nat)
    requires o < 4096 && o % 4 == 0
  {
    PeekWord(u, HEAP_START + o) == ReadWord(fr, o / 4)
  }

  lemma PageWord(u: Mmu, f: nat, o: nat)
    requires Mapped(u, KERNEL_FIRST) && Frm(u, KERNEL_FIRST) == f && o < 4096 && o % 4 == 0
    ensures ShowsWord(u, At(u, f), o)
  {
    hide Pte, Pde, Present, At, FrameOf, Word32;
    var a := HEAP_START + o;
    SamePageBytes(a);
    assert a / 4096 == KERNEL_FIRST && a % 4096 == o && (a + 1) % 4096 == o + 1;
    assert (a + 2) % 4096 == o + 2 && (a + 3) % 4096 == o + 3;
  }

  /** Main result: on a machine with less than 3 GB, after start-up as kernel_main does it, in every run,
      every word of the first heap page is what its frame held before start-up; nothing that heap_init
      stored is ever seen there. */
  lemma HeapInitMisses(p: Pmm, ram: map<nat, Frame>, image: nat, stored: Frame, ops: seq<Op>, o: nat)
    requires Clear(p.used) >= 70 && StartOk(p, image) && p.base + |p.used| <= THREE_GB && o < 4096 && o % 4 == 0
    ensures PagingInit(p, ram).Booted?
    ensures var s := HeapInit(Booted(p, ram), stored);
      && Mapped(Run(s, ops).mem.mmu, KERNEL_FIRST)
      && ShowsWord(Run(s, ops).mem.mmu, Bytes(ram, Backing(p, ram)), o)
  {
    PageShows(p, ram, image, stored);
    hide PagingInit, Clear, Pde, Pte, Present, Inv, AllocFrame, NextFree, VitalPinned, StartOk, At, HeapInit, Run, Peek;
    hide Backing;
    var s := HeapInit(Booted(p, ram), stored);
    PageWord(s.mem.mmu, Backing(p, ram), o);
    HeapIsolated(s, ops, image);
    SameWord(s.mem.mmu, Run(s, ops).mem.mmu, o);
  }

  lemma SameWord(u: Mmu, r: Mmu, o: nat)
    requires PagesKept(u, r) && Mapped(u, KERNEL_FIRST) && o < 4096 && o % 4 == 0
    ensures Mapped(r, KERNEL_FIRST) && PeekWord(r, HEAP_START + o) == PeekWord(u, HEAP_START + o)
  {
    hide Pte, Peek, Present;
    var a := HEAP_START + o;
    SamePageBytes(a);
    assert a / 4096 == KERNEL_FIRST && HeapPage(KERNEL_FIRST);
  }

  /** So unless that frame already began with the heap's page number, the page never validates, ... */
  lemma HeapDead(p: Pmm, ram: map<nat, Frame>, image: nat, stored: Frame, ops: seq<Op>)
    requires Clear(p.used) >= 70 && StartOk(p, image) && p.base + |p.used| <= THREE_GB
    requires PagingInit(p, ram).Booted? ==> ReadWord(Bytes(ram, Backing(p, ram)), 0) != 0xC0FF_EE42
    ensures PagingInit(p, ram).Booted?
    ensures !ValidPage(KernelRuns.Contents(Run(HeapInit(Booted(p, ram), stored), ops).mem.mmu), HEAP_START)
  {
    hide PagingInit, Clear, StartOk, HeapInit, Run, Peek, Backing, ReadWord, Chain;
    HeapInitMisses(p, ram, image, stored, ops, 0);
    ContentsAt(Run(HeapInit(Booted(p, ram), stored), ops).mem.mmu);
  }

  lemma ContentsAt(u: Mmu)
    requires Mapped(u, KERNEL_FIRST)
    ensures Rd(KernelRuns.Contents(u), HEAP_START) == PeekWord(u, HEAP_START)
  {
    hide Mapped, PeekWord;
    assert HEAP_START / 4096 == KERNEL_FIRST && HeapPage(KERNEL_FIRST);
    assert InHeap(u, HEAP_START);
  }

  /** ... and every kmalloc, which looks at the first page first, returns NULL: the beginning of kmalloc,
      up to the first page of the list. */
  method FirstPage(w: Ram, head: u32, size: u32) returns (ended: bool, ptr: u32)
    ensures ended <==> size == 0 || size > 0xFFFF_FFF8 || (head != 0 && !ValidPage(w, head))
    ensures ended ==> ptr == 0
  {
    if size == 0 { return true, 0; }
    if size > 0xFFFF_FFF8 { return true, 0; }
    if head != 0 {
      var ok := ValidatePage(w, head);
      if !ok { return true, 0; }
    }
    return false, 0;
  }
}
