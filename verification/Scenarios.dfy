/** Machines with little memory, from start-up on: files that load, and calls after which a promise is
    broken. The exact conditions are `Break.SbrkExact`, `Process.ExecExact`, `Elf.LoaderRollsBack` and
    `Frames.ReserveExact`. */
module Scenarios {
  import opened Words
  import opened Frames
  import opened Paging
  import opened Memory
  import opened Ownership
  import opened UserHeap
  import opened Break
  import opened Access
  import opened Loader
  import opened Image
  import opened Rollback
  import opened Budget
  import opened Elf
  import opened System
  import opened Reserved
  import opened Ledger
  import opened Process

  // ---- Start-up ----

  /** One region from 1 MB on with `n` pages beyond the first 8 MB. The bitmap's own page at 2 MB is the
      only one marked before the first 2048 pages are reserved. */
  function Marked(n: nat): seq<bool> { seq(2048 + n, i => i == 256) }

  function Physical(n: nat): Pmm
    requires n <= 100
  {
    Reserve(256, Marked(n))
  }

  lemma {:induction false} ClearTail(n: nat, k: nat)
    requires k <= n
    ensures Clear(seq(n, i => i < k)) == n - k
    decreases n
  {
    var s := seq(n, i => i < k);
    if n > 0 {
      var t := seq(n - 1, i => i < k);
      assert s[..n - 1] == t;
      if k < n { ClearTail(n - 1, k); } else { AllSet(t); }
    }
  }

  lemma AllSet(used: seq<bool>)
    requires forall i | 0 <= i < |used| :: used[i]
    ensures Clear(used) == 0
  {
    ClearZero(used);
  }

  /** `n` pages are free, though the counter says one less; and the vital frames are reserved. */
  lemma PhysicalFree(n: nat)
    requires n <= 100
    ensures Clear(Physical(n).used) == n && Drift(Physical(n)) != 0 && StartOk(Physical(n), 2304)
  {
    assert Physical(n).used == seq(2048 + n, i => i < 2048);
    ClearTail(2048 + n, 2048);
    ReserveExact(256, Marked(n));
    assert Marked(n)[256];
    ReserveMeets(256, Marked(n), 2304);
  }

  lemma {:induction false} LowTablesCount(m: Mem, i: nat)
    requires i <= 4 && Clear(m.pmm.used) >= 4 - i
    ensures LowTables(m, i).ok && Clear(LowTables(m, i).mem.pmm.used) == Clear(m.pmm.used) - (4 - i)
    decreases 4 - i
  {
    hide AllocFrame, Clear, Install, Identity;
    if i < 4 {
      AllocFails(m.pmm);
      var g := AllocFrame(m.pmm);
      LowTablesCount(Mem(g.pmm, Identity(Install(m.mmu, i, g.frame, 3), i * ENTRIES, (i + 1) * ENTRIES)), i + 1);
    }
  }

  lemma {:induction false} HeapTablesCount(m: Mem, i: nat)
    requires i <= 832 && Clear(m.pmm.used) >= 832 - i
    ensures Clear(HeapTables(m, i).pmm.used) == Clear(m.pmm.used) - (832 - i)
    decreases 832 - i
  {
    hide AllocFrame, Clear, Install;
    if i < 832 {
      AllocFails(m.pmm);
      var g := AllocFrame(m.pmm);
      HeapTablesCount(Mem(g.pmm, Install(m.mmu, i, g.frame, 3)), i + 1);
    }
  }

  lemma {:induction false} HeapTablesBelow(m: Mem, i: nat)
    requires 768 <= i <= 832 && Bare(m) && EmptyFrom(m.mmu, i)
    ensures forall j: nat | j < 768 :: Pde(HeapTables(m, i).mmu, j) == Pde(m.mmu, j)
    decreases 832 - i
  {
    hide Bare, Install, Pde, Present;
    if i < 832 {
      var g := AllocFrame(m.pmm);
      if g.frame == 0 {
        HeapTablesBelow(m, i + 1);
      } else {
        InstallInv(m, i);
        InstallBelow(m, i, g.frame);
        HeapTablesBelow(Mem(g.pmm, Install(m.mmu, i, g.frame, 3)), i + 1);
      }
    }
  }

  lemma {:induction false} HeapTablesPresent(m: Mem, i: nat)
    requires 768 <= i <= 832 && Bare(m) && EmptyFrom(m.mmu, i) && Clear(m.pmm.used) >= 832 - i
    requires forall j: nat | 768 <= j < i :: Present(Pde(m.mmu, j))
    ensures forall j: nat | 768 <= j < 832 :: Present(Pde(HeapTables(m, i).mmu, j))
    decreases 832 - i
  {
    hide Bare, Install, Pde, Present, Clear, AllocFrame;
    if i < 832 {
      AllocFails(m.pmm);
      var g := AllocFrame(m.pmm);
      InstallInv(m, i);
      InstallBelow(m, i, g.frame);
      HeapTablesPresent(Mem(g.pmm, Install(m.mmu, i, g.frame, 3)), i + 1);
    }
  }

  lemma InstallBelow(m: Mem, i: nat, t: nat)
    requires Bare(m) && i < ENTRIES && !Present(Pde(m.mmu, i)) && t == AllocFrame(m.pmm).frame != 0
    ensures forall j: nat | j < ENTRIES && j != i :: Pde(Install(m.mmu, i, t, 3), j) == Pde(m.mmu, j)
  {
    hide Pde, Pte, Present, AllocFrame, Install;
    AllocInv(m);
    InstallSpec(m.mmu, i, t, 3);
  }

  /** Start-up takes 69 frames, leaves the directory slots of user space empty and fills the heap's. */
  lemma BootShape(p: Pmm, ram: map<nat, Frame>)
    requires Clear(p.used) >= 69
    ensures PagingInit(p, ram).Booted?
    ensures var m := PagingInit(p, ram).mem;
      && Bare(m) && Clear(m.pmm.used) == Clear(p.used) - 69
      && (forall j: nat | 4 <= j < 768 :: !Present(Pde(m.mmu, j)))
      && (forall j: nat | 768 <= j < 832 :: Present(Pde(m.mmu, j)))
  {
    AllocFails(p);
    var g := AllocFrame(p);
    BootInv(p, ram);
    var u := Mmu(ram[g.frame := ZeroFrame()], g.frame);
    var m0 := Mem(g.pmm, u);
    ZeroDirectory(u);
    UsedMember(g.pmm);
    ZeroBare(g.pmm, u);
    hide Bare, Clear, LowTables, HeapTables, Pde, Present, AllocFrame;
    LowTablesCount(m0, 0);
    LowTablesInv(m0, 0);
    var low := LowTables(m0, 0).mem;
    HeapTablesCount(low, 768);
    HeapTablesBelow(low, 768);
    HeapTablesPresent(low, 768);
  }

  /** Nothing in user space yet, `c` frames left, the heap's tables in place. */
  ghost predicate Blank(s: Sys, c: nat) {
    && ExactInv(s) && s.heap == Heap(0, 0, false) && Clear(s.mem.pmm.used) == c
    && (forall v: nat | USER_FIRST <= v < KERNEL_FIRST :: !Mapped(s.mem.mmu, v))
    && (forall j: nat | 4 <= j < 768 :: !Present(Pde(s.mem.mmu, j)))
  }

  function Booted(n: nat, ram: map<nat, Frame>): Sys
    requires n <= 100 && PagingInit(Physical(n), ram).Booted?
  {
    Sys(PagingInit(Physical(n), ram).mem, Heap(0, 0, false), KERNEL_FIRST)
  }

  /** paging_init and then heap_init, which takes the first heap page. */
  lemma HeapInit(n: nat, ram: map<nat, Frame>)
    requires 70 <= n <= 100
    ensures PagingInit(Physical(n), ram).Booted?
    ensures Guarded(Booted(n, ram), KernelPage) && Blank(Step(Booted(n, ram), KernelPage), n - 70)
  {
    PhysicalFree(n);
    BootShape(Physical(n), ram);
    hide PagingInit, Physical, Clear, Pde, Present, Inv;
    FirstHeapPage(Booted(n, ram), n - 69);
  }

  lemma NotReady(m: Mem)
    ensures HeapOk(Heap(0, 0, false)) && HeapExact(m, Heap(0, 0, false))
  {
  }

  lemma FirstHeapPage(s: Sys, c: nat)
    requires Bare(s.mem) && s.heap == Heap(0, 0, false) && s.next == KERNEL_FIRST && Clear(s.mem.pmm.used) == c > 0
    requires forall j: nat | 4 <= j < 768 :: !Present(Pde(s.mem.mmu, j))
    requires forall j: nat | 768 <= j < 832 :: Present(Pde(s.mem.mmu, j))
    ensures Guarded(s, KernelPage) && Blank(Step(s, KernelPage), c - 1)
  {
    hide Inv, Pte, Pde, Present, Clear, AllocFrame, MapPage, HeapExact;
    NotReady(s.mem);
    StepExact(s, KernelPage);
    AllocFails(s.mem.pmm);
    AllocInv(s.mem);
    var g := AllocFrame(s.mem.pmm);
    var m1 := Mem(g.pmm, s.mem.mmu);
    MapPageSpec(m1, KERNEL_FIRST, g.frame, 3);
    MapSpends(m1, KERNEL_FIRST, g.frame, 3);
    assert KERNEL_FIRST / ENTRIES == 768;
    var r := Step(s, KernelPage).mem;
    assert r == MapPage(m1, KERNEL_FIRST, g.frame, 3);
    forall v: nat | USER_FIRST <= v < KERNEL_FIRST ensures !Mapped(r.mmu, v) { assert !Mapped(s.mem.mmu, v); }
    NotReady(r);
  }

  // ---- Files ----

  const AT := 0x083F_F000      // the last page of its directory slot

  /** Bytes of an executable with one writable segment at AT: one file byte, and two bytes of memory in
      one page, or 4098 in two. */
  function TinyByte(big: bool, i: nat): byte {
    if big && i == 73 then 0x10
    else if i == 20 || i == 44 || i == 52 || i == 68 then 0x01
    else if i == 16 || i == 72 then 0x02
    else if i == 18 then 0x03
    else if i == 76 then 0x06
    else if i == 27 || i == 63 then 0x08
    else if i == 42 then 0x20
    else if i == 28 then 0x34
    else if i == 26 || i == 62 then 0x3f
    else if i == 1 then 0x45
    else if i == 3 then 0x46
    else if i == 2 then 0x4c
    else if i == 0 then 0x7f
    else if i == 25 || i == 61 then 0xf0
    else 0
  }

  function Tiny(big: bool): (d: seq<byte>)
    ensures |d| == 84 && forall i | 0 <= i < 84 :: d[i] == TinyByte(big, i)
  {
    seq(84, i requires 0 <= i < 84 => TinyByte(big, i))
  }

  function Length(big: bool): nat { if big then 4098 else 2 }

  lemma TinyWord(big: bool, o: nat)
    requires o + 4 <= 84
    ensures var d := Tiny(big);
      && U16(d, o) == TinyByte(big, o) as int + 0x100 * TinyByte(big, o + 1) as int
      && U32(d, o) == TinyByte(big, o) as int + 0x100 * TinyByte(big, o + 1) as int
           + 0x1_0000 * (TinyByte(big, o + 2) as int + 0x100 * TinyByte(big, o + 3) as int)
  {
  }

  predicate TinyShape(big: bool) {
    var d := Tiny(big);
    && Accepted(d) && PhNum(d) == 1 && EEntry(d) == AT && Bias(d) == 0
    && PhdrOf(d, 0) == Phdr(PT_LOAD, 0, AT, 1, Length(big), 6, 0)
  }

  lemma TinyAccepted(big: bool)
    ensures TinyShape(big)
  {
    hide Tiny, U16, U32;
    TinyWord(big, 0); TinyWord(big, 16); TinyWord(big, 18); TinyWord(big, 20);
    TinyWord(big, 24); TinyWord(big, 28); TinyWord(big, 42); TinyWord(big, 44);
    var d := Tiny(big);
    assert HeaderOk(d);
    assert PhAt(d, 0) == 52;
    TinyWord(big, 52); TinyWord(big, 56); TinyWord(big, 60); TinyWord(big, 68);
    TinyWord(big, 72); TinyWord(big, 76); TinyWord(big, 80);
  }

  lemma TinySegments(big: bool, s: Seg)
    requires TinyShape(big) && s == SegOf(Tiny(big), 0)
    ensures Segments(Tiny(big), 1) == [s] && SegOk(s) && SegsOk([s]) && s.writable
    ensures FirstPage(s) == 0x83FF && EndPage(s) == (if big then 0x8401 else 0x8400)
    ensures !big ==> MaxEnd([s]) == AT + 4096
  {
    hide Accepted, TinyByte, Tiny, PhdrOf, PhNum, Bias, HeaderOk, FirstPage, EndPage, MaxEnd, SegOf;
    assert Segments(Tiny(big), 0) == [];
    SegFields(Tiny(big), 0);
    TinyPages(s, Length(big));
    if !big { OneEnd(s); }
  }

  lemma TinyPages(s: Seg, n: nat)
    requires s.va == AT && s.memsz == n && (n == 2 || n == 4098)
    ensures FirstPage(s) == 0x83FF && EndPage(s) == (if n == 2 then 0x8400 else 0x8401)
  {
  }

  lemma OneEnd(s: Seg)
    requires SegsOk([s]) && FirstPage(s) == 0x83FF && EndPage(s) == 0x8400
    ensures MaxEnd([s]) == AT + 4096
  {
    hide FirstPage, EndPage;
    assert [s][..0] == [];
  }

  /** The small file takes at most two frames. */
  lemma TinyLoadable(m: Mem)
    requires Clear(m.pmm.used) >= 2
    ensures Loadable(m, Tiny(false))
  {
    TinyAccepted(false);
    hide Clear, Bill, Accepted, TinyByte, Tiny, PhdrOf, PhNum, Bias, HeaderOk, FirstPage, EndPage;
    var s := SegOf(Tiny(false), 0);
    TinySegments(false, s);
    assert [s][1..] == [];
    assert TotalPages([s]) == 1 && CoveredPages([s]) == {0x83FF} by {
      assert Range(0x83FF, 0x8400) == {0x83FF};
    }
    OneBill(m.mmu, 0x83FF);
  }

  lemma OneBill(u: Mmu, v: nat)
    requires v < PAGES
    ensures Bill(u, {v}) == Need(u, v)
  {
    hide Mapped, HasTable;
    if Mapped(u, v) { TableOfMapped(u, v); }
    assert Bill(u, {}) == 0;
    assert {} + {v} == {v};
    BillStep(u, {}, v);
  }

  // ---- A process ----

  function Started(n: nat, ram: map<nat, Frame>): Sys
    requires n <= 100 && PagingInit(Physical(n), ram).Booted?
  {
    Step(Step(Step(Booted(n, ram), KernelPage), Exec(Tiny(false))), Stack)
  }

  /** Break at its base, the program's page mapped, no table for the next page, `c` frames left. */
  ghost predicate Ready(s: Sys, c: nat) {
    && ExactInv(s) && s.heap == Heap(AT + 4096, AT + 4096, true) && Clear(s.mem.pmm.used) == c
    && Mapped(s.mem.mmu, 0x83FF) && !HasTable(s.mem.mmu, 0x8400)
  }

  ghost predicate Loading(s: Sys, c: nat) { Ready(s, c) && !HasTable(s.mem.mmu, STACK_PAGE) }

  /** The load succeeds and takes two frames. */
  lemma TinyLoads(s: Sys, c: nat)
    requires Blank(s, c) && c >= 2
    ensures Guarded(s, Exec(Tiny(false))) && Loading(Step(s, Exec(Tiny(false))), c - 2)
    ensures ElfLoad(s.mem, s.heap, Tiny(false)).entry == AT
  {
    TinyAccepted(false);
    var d := Tiny(false);
    hide Inv, Accepted, TinyByte, Tiny, ElfLoad, PhdrOf, PhNum, Bias, HeaderOk, HeapExact, Clear, Pde, Present, Mapped;
    TinyLoadable(s.mem);
    LoaderSucceeds(s.mem, s.heap, d);
    TinySegments(false, SegOf(d, 0));
    StepExact(s, Exec(d));
    TinyFrom(s.mem, c);
  }

  lemma TinyFrom(m: Mem, c: nat)
    requires Inv(m) && Clear(m.pmm.used) == c >= 2 && TinyShape(false) && !Mapped(m.mmu, 0x83FF)
    requires forall j: nat | 4 <= j < 768 :: !Present(Pde(m.mmu, j))
    ensures var l := ElfLoad(m, Heap(0, 0, false), Tiny(false));
      && l.entry == AT && l.heap == Heap(AT + 4096, AT + 4096, true) && Clear(l.mem.pmm.used) == c - 2
      && Mapped(l.mem.mmu, 0x83FF) && !HasTable(l.mem.mmu, 0x8400) && !HasTable(l.mem.mmu, STACK_PAGE)
  {
    hide Inv, Accepted, TinyByte, Tiny, PhdrOf, Fill, EEntry, PhNum, Bias, HeaderOk, MaxEnd, LoadSegs, Pde, Clear;
    hide Present, Mapped, FirstPage, EndPage;
    var s := SegOf(Tiny(false), 0);
    TinySegments(false, s);
    OneSegment(m, s);
    assert Init(AT + 4096) == Heap(AT + 4096, AT + 4096, true);
  }

  lemma OneSegment(m: Mem, s: Seg)
    requires Inv(m) && SegOk(s) && s.writable && FirstPage(s) == 0x83FF && EndPage(s) == 0x8400
    requires Clear(m.pmm.used) >= 2 && !Mapped(m.mmu, 0x83FF)
    requires forall j: nat | 4 <= j < 768 :: !Present(Pde(m.mmu, j))
    ensures SegsOk([s]) && LoadSegs(m, [s], []).ok
    ensures var r := LoadSegs(m, [s], []).mem;
      && Clear(r.pmm.used) == Clear(m.pmm.used) - 2
      && Mapped(r.mmu, 0x83FF) && !HasTable(r.mmu, 0x8400) && !HasTable(r.mmu, STACK_PAGE)
  {
    hide Inv, Pde, Present, Clear, LoadPage, Fill, FirstPage, EndPage, Mapped;
    AfterStep(m, m, {}, 0x83FF, 7) by { AfterNone(m); }
    assert !HasTable(m.mmu, 0x83FF) && !HasTable(m.mmu, 0x8400) && !HasTable(m.mmu, STACK_PAGE);
    OneBill(m.mmu, 0x83FF);
    assert {} + {0x83FF} == {0x83FF};
    var p := LoadPage(m, 0x83FF, 7);
    LoadPageTables(m, 0x83FF, 7);
    var recs := [] + [Rec(0x83FF, p.frame)];
    assert LoadPages(p.mem, 0x8400, 0x8400, 7, recs).ok;
    assert LoadPages(m, 0x83FF, 0x8400, 7, []) == Load(p.mem, recs, true);
    FillStep(m, s, []);
    SameViewMapped(p.mem.mmu, Fill(p.mem.mmu, s));
    assert [s][1..] == [];
  }

  lemma SameViewMapped(u: Mmu, r: Mmu)
    requires SameView(u, r)
    ensures forall v: nat | v < PAGES :: Mapped(r, v) == Mapped(u, v) && HasTable(r, v) == HasTable(u, v)
  {
    hide Pte, Pde, Present;
  }

  lemma StackTakesTwo(t: Sys, c: nat)
    requires Loading(t, c) && c >= 2
    ensures Guarded(t, Stack) && Ready(Step(t, Stack), c - 2) && Mapped(Step(t, Stack).mem.mmu, STACK_PAGE)
  {
    hide Inv, ZeroPhys, AllocFrame, Clear, Pte, Pde, At, Present, MapPage, HeapExact, Entry;
    StepExact(t, Stack);
    var m := t.mem;
    AllocFails(m.pmm);
    var g := AllocFrame(m.pmm);
    AllocFails(g.pmm);
    AllocInv(m);
    ZeroPhysInv(m, g.pmm, g.frame, 1);
    var m1 := Mem(g.pmm, ZeroPhys(m.mmu, g.frame, 1));
    SameViewMapped(m.mmu, m1.mmu);
    MapPageSpec(m1, STACK_PAGE, g.frame, 7);
    MapSpends(m1, STACK_PAGE, g.frame, 7);
    assert Step(t, Stack).mem == MapPage(m1, STACK_PAGE, g.frame, 7);
  }

  /** Heap page, load and stack are guarded: the hypotheses of `Process.ProcessHeap` are met. */
  lemma StartedReady(n: nat, ram: map<nat, Frame>)
    requires 74 <= n <= 100
    ensures PagingInit(Physical(n), ram).Booted? && Ready(Started(n, ram), n - 74)
    ensures Mapped(Started(n, ram).mem.mmu, STACK_PAGE)
    ensures GuardedRun(Booted(n, ram), [KernelPage, Exec(Tiny(false)), Stack])
  {
    HeapInit(n, ram);
    hide PagingInit, Physical, Blank, Loading, Ready, Step, Guarded, ElfLoad, Tiny;
    var s := Booted(n, ram);
    var a := Step(s, KernelPage);
    TinyLoads(a, n - 70);
    var b := Step(a, Exec(Tiny(false)));
    StackTakesTwo(b, n - 72);
    ThreeGuarded(s, KernelPage, Exec(Tiny(false)), Stack);
  }

  lemma ThreeGuarded(s: Sys, a: Op, b: Op, c: Op)
    requires Guarded(s, a) && Guarded(Step(s, a), b) && Guarded(Step(Step(s, a), b), c)
    ensures GuardedRun(s, [a, b, c])
  {
    hide Guarded, Step;
    assert [a, b, c][1..] == [b, c] && [b, c][1..] == [c] && [c][1..] == [];
    assert GuardedRun(Step(Step(s, a), b), [c]);
    assert GuardedRun(Step(s, a), [b, c]);
  }

  /** What the program then sees: its file byte and a zero after it. */
  lemma TinyImage(s: Sys, c: nat, a: u32)
    requires Blank(s, c) && c >= 2 && AT <= a < AT + 2
    ensures Peek(Step(s, Exec(Tiny(false))).mem.mmu, a) == if a == AT then 0x7F else 0
  {
    TinyAccepted(false);
    hide Inv, Accepted, HeaderOk, ElfLoad, PhdrOf, PhNum, Bias, Segments, Peek, UserAccessible, Writable, Pte, Clear;
    hide Mapped;
    TinyLoads(s, c);
    LoaderCorrect(s.mem, s.heap, Tiny(false), 0, a);
    assert Tiny(false)[0] == 0x7F;
  }

  // ---- Broken promises ----

  /** With one frame left, user_sbrk(1) gives it to the page, map_page finds none for the table and
      gives up silently, yet the call succeeds with its page unmapped. */
  lemma SbrkStrands(ram: map<nat, Frame>)
    ensures PagingInit(Physical(75), ram).Booted? && ExactInv(Started(75, ram))
    ensures var s := Started(75, ram); var o := Sbrk(s.mem, s.heap, 1); o.ret == AT + 4096 && !HeapExact(o.mem, o.heap)
  {
    StartedReady(75, ram);
    hide Started, Sbrk, HeapExact, PagingInit, Physical;
    StrandsFrom(Started(75, ram));
  }

  lemma StrandsFrom(s: Sys)
    requires Ready(s, 1)
    ensures var o := Sbrk(s.mem, s.heap, 1); o.ret == AT + 4096 && !HeapExact(o.mem, o.heap)
  {
    hide Inv, HeapExact, Sbrk, Pde, Clear, Present;
    assert PageUp(AT + 4096) == 0x8400 && PageUp(AT + 4097) == 0x8401;
    assert StrandsAt(s.mem, 0x8400, 0x8400);
    SbrkExact(s.mem, s.heap, 1);
    FailedGrowRestores(s.mem, s.heap, 1);
    SbrkBreak(s.mem, s.heap, 1);
  }

  /** In the same state user_sbrk(INT_MIN) wraps past the base: the break jumps up by 2 GB and no
      page is mapped. */
  lemma SbrkWraps(ram: map<nat, Frame>)
    ensures PagingInit(Physical(75), ram).Booted? && ExactInv(Started(75, ram))
    ensures var s := Started(75, ram); var o := Sbrk(s.mem, s.heap, -0x8000_0000);
      o.mem == s.mem && o.ret == AT + 4096 && o.heap.brk == AT + 4096 + 0x8000_0000 && !HeapExact(o.mem, o.heap)
  {
    StartedReady(75, ram);
    hide Started, Sbrk, HeapExact, PagingInit, Physical;
    WrapsFrom(Started(75, ram));
  }

  lemma WrapsFrom(s: Sys)
    requires Ready(s, 1)
    ensures var o := Sbrk(s.mem, s.heap, -0x8000_0000);
      o.mem == s.mem && o.ret == AT + 4096 && o.heap.brk == AT + 4096 + 0x8000_0000 && !HeapExact(o.mem, o.heap)
  {
    hide Inv, HeapExact, Release, Grow, Pde, Mapped, HasTable, Clear, Loadable, GuardedRun;
    WrapBreaks(s.mem, s.heap, -0x8000_0000);
  }

  /** A second program: exec, sbrk, exec again. The page of the old heap stays mapped above the break
      of the new program, which says that its heap is empty. */
  lemma SecondExec(ram: map<nat, Frame>)
    ensures PagingInit(Physical(78), ram).Booted?
    ensures var s := Step(Started(78, ram), SbrkCall(1)); var r := Step(s, Exec(Tiny(false)));
      && ExactInv(s) && ElfLoad(s.mem, s.heap, Tiny(false)).entry != 0
      && r.heap.brk == r.heap.base && !HeapExact(r.mem, r.heap)
  {
    StartedReady(78, ram);
    hide Started, PagingInit, Physical, Ready, ElfLoad, HeapExact, Step, ExactInv, Tiny;
    GrowByOne(Started(78, ram));
    ExecOver(Step(Started(78, ram), SbrkCall(1)));
  }

  lemma GrowByOne(s: Sys)
    requires Ready(s, 4)
    ensures var r := Step(s, SbrkCall(1));
      && ExactInv(r) && r.heap == Heap(AT + 4096, AT + 4097, true)
      && Clear(r.mem.pmm.used) == 2 && Mapped(r.mem.mmu, 0x8400)
  {
    hide Inv, HeapExact, Pde, Clear, Present, Grow, Release, Mapped, Midway, Strands, Lost;
    assert PageUp(AT + 4096) == 0x8400 && PageUp(AT + 4097) == 0x8401;
    assert Cost(s.mem.mmu, 0x8400, 0x8401) == 2;
    StepExact(s, SbrkCall(1));
    ExactUnmapped(s.mem, s.heap, 0x8400, 0x8401);
    MidwayStart(s.mem, 0x8400);
    GrowExact(s.mem, s.mem, 0x8400, 0x8400, 0x8401);
    MidwayClear(s.mem, Grow(s.mem, 0x8400, 0x8400, 0x8401).mem, 0x8400, 0x8401);
    BelowBreak(Step(s, SbrkCall(1)));
  }

  lemma MidwayClear(m0: Mem, m: Mem, lo: nat, v: nat)
    requires lo <= v <= PAGES && Midway(m0, m, lo, v)
    ensures Clear(m.pmm.used) == Clear(m0.pmm.used) - Cost(m0.mmu, lo, v)
  {
  }

  lemma BelowBreak(s: Sys)
    requires ExactInv(s) && s.heap == Heap(AT + 4096, AT + 4097, true)
    ensures Mapped(s.mem.mmu, 0x8400)
  {
    hide Inv, Mapped, UserWritable;
    assert PageUp(AT + 4097) == 0x8401;
  }

  lemma ExecOver(s: Sys)
    requires ExactInv(s) && Clear(s.mem.pmm.used) == 2 && Mapped(s.mem.mmu, 0x8400)
    ensures var r := Step(s, Exec(Tiny(false)));
      && ElfLoad(s.mem, s.heap, Tiny(false)).entry != 0 && r.heap.brk == r.heap.base && !HeapExact(r.mem, r.heap)
  {
    TinyAccepted(false);
    var d := Tiny(false);
    hide Inv, Accepted, TinyByte, Tiny, ElfLoad, PhdrOf, PhNum, Bias, HeaderOk, HeapExact, Clear, Mapped, Loadable;
    TinyLoadable(s.mem);
    LoaderSucceeds(s.mem, s.heap, d);
    TinySegments(false, SegOf(d, 0));
    ExecExact(s.mem, s.heap, d);
    LoadedHeap(s.mem, s.heap, d);
  }

  lemma LoadedHeap(m: Mem, h: Heap, d: seq<byte>)
    requires ElfLoad(m, h, d).entry != 0
    ensures ElfLoad(m, h, d).heap.brk == ElfLoad(m, h, d).heap.base
  {
    hide LoadSegs, Segments, MaxEnd, U16, U32;
  }

  /** Starting a second program loses the frame of the first one's stack page for good. */
  lemma SecondStack(ram: map<nat, Frame>, ops: seq<Op>)
    ensures PagingInit(Physical(75), ram).Booted?
    ensures var s := Started(75, ram); Idle(Run(Step(s, Stack), ops).mem, Frm(s.mem.mmu, STACK_PAGE))
  {
    StartedReady(75, ram);
    hide Started, PagingInit, Physical, Step, Run, Idle, Mapped, Frm, HeapExact, Inv;
    StackStrays(Started(75, ram), ops);
  }

  /** A load that fails for want of frames has already dropped the page of the running program. */
  lemma FailedLoadDestroys(ram: map<nat, Frame>)
    ensures PagingInit(Physical(75), ram).Booted?
    ensures var s := Started(75, ram); var l := ElfLoad(s.mem, s.heap, Tiny(true));
      l.entry == 0 && Mapped(s.mem.mmu, 0x83FF) && !Mapped(l.mem.mmu, 0x83FF)
  {
    StartedReady(75, ram);
    hide Started, PagingInit, Physical, ElfLoad, Mapped, Tiny, HeapExact;
    DestroysFrom(Started(75, ram));
  }

  lemma DestroysFrom(s: Sys)
    requires Ready(s, 1)
    ensures var l := ElfLoad(s.mem, s.heap, Tiny(true)); l.entry == 0 && !Mapped(l.mem.mmu, 0x83FF)
  {
    TinyAccepted(true);
    var d := Tiny(true);
    hide Inv, Accepted, TinyByte, Tiny, ElfLoad, PhdrOf, PhNum, Bias, HeaderOk, HeapExact, Clear, Mapped, HasTable;
    hide Bill, PageMap;
    hide UsedSet, TableSet, FramesOf;
    var s1 := SegOf(d, 0);
    TinySegments(true, s1);
    BigShape(s1);
    BigBill(s.mem.mmu);
    assert !Loadable(s.mem, d);
    LoaderRollsBack(s.mem, s.heap, d);
    UntilFirst(s.mem, {}, 0x83FF, [0x8400]);
    assert {} + {0x83FF} == {0x83FF};
    assert 0x83FF in Touched(s.mem, d);
    PageMapAt(ElfLoad(s.mem, s.heap, d).mem.mmu, 0x83FF);
  }

  lemma BigShape(s: Seg)
    requires SegsOk([s]) && FirstPage(s) == 0x83FF && EndPage(s) == 0x8401
    ensures CoveredPages([s]) == {0x83FF, 0x8400} && PageList([s], 0) == [0x83FF] + [0x8400]
  {
    hide FirstPage, EndPage;
    assert [s][1..] == [];
    assert Range(0x83FF, 0x8401) == {0x83FF, 0x8400};
    assert Span(0x8401, 0x8401) == [] && Span(0x8400, 0x8401) == [0x8400];
    assert Span(0x83FF, 0x8401) == [0x83FF] + [0x8400];
  }

  lemma BigBill(u: Mmu)
    requires Mapped(u, 0x83FF) && !HasTable(u, 0x8400)
    ensures Bill(u, {0x83FF, 0x8400}) == 2 && Bill(u, {0x83FF}) == 0
  {
    hide Mapped, HasTable;
    TableOfMapped(u, 0x83FF);
    OneBill(u, 0x83FF);
    if Mapped(u, 0x8400) { TableOfMapped(u, 0x8400); }
    BillStep(u, {0x83FF}, 0x8400);
    assert {0x83FF} + {0x8400} == {0x83FF, 0x8400};
    assert NewSlots(u, {0x83FF}) == {};
  }
}
