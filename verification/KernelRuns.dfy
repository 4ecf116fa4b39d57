/** One run of everything: loads, break calls, stack pages, file buffers, kmalloc, kfree and the stores
    of payload owners, all in the same physical memory through the same page tables
    (kernel/kernel.c:446-630, kernel/elf.c:32-94, 213-292, kernel/fs.c:172-187). */
module KernelRuns {
  import opened Words
  import opened Frames
  import opened Paging
  import opened Memory
  import opened Ownership
  import opened Access
  import opened Loader
  import opened Rollback
  import opened System
  import opened Reserved
  import opened Isolation
  import opened Ledger
  import opened HeapBlocks
  import opened HeapTiling
  import opened HeapFree
  import opened HeapLists
  import opened HeapWords
  import opened HeapObject
  import opened HeapMemory
  import KernelHeap
  import HeapPayloads
  import Break
  import Elf
  import Scenarios

  /** The words of the mapped heap pages. */
  ghost function Contents(u: Mmu): Ram { map a: nat | a < HEAP_END && InHeap(u, a) :: PeekWord(u, a) }

  /** The machine, and what the kernel heap's pages hold, newest first. */
  datatype Kernel = Kernel(sys: Sys, pages: seq<KernelHeap.Page>)

  function ListOf(pages: seq<KernelHeap.Page>): KernelHeap.Heap { KernelHeap.Heap(pages, []) }

  ghost predicate PagesOk(pages: seq<KernelHeap.Page>) { KernelHeap.HeapOk(ListOf(pages)) }

  // ---- Stores through the page tables ----

  ghost predicate StoresTo(u: Mmu, r: Ram, ss: seq<Store>) { HeapStores(u, ss) && Puts(Contents(u), ss) == r }

  ghost predicate CanStore(u: Mmu, r: Ram) { exists ss :: StoresTo(u, r, ss) }

  /** The memory after word stores that turn the heap's words into `r`. */
  ghost function Stored(u: Mmu, r: Ram): Mmu {
    if !CanStore(u, r) then u
    else
      var ss :| StoresTo(u, r, ss);
      StoresBelow(u, ss);
      Pokes(u, ss)
  }

  lemma ContentsMirror(u: Mmu)
    ensures Mirrors(Contents(u), u)
  {
    hide Mapped, Peek;
  }

  lemma MirrorsContents(u: Mmu, w: Ram, r: Mmu)
    requires SameView(u, r) && Mirrors(w, r) && Contents(u).Keys <= w.Keys
    ensures Contents(r) == w
  {
    hide Pte, Pde, Peek, Present, PeekWord;
    forall a: nat ensures a in Contents(r) <==> a in w {
      if a in Contents(r) {
        assert InHeap(u, a);
        assert a in Contents(u).Keys;
      }
      if a in w { assert WordThere(w, r, a); }
    }
    forall a: nat | a in w ensures Contents(r)[a] == w[a] { assert WordThere(w, r, a); }
  }

  lemma {:induction false} PutsKeys(w: Ram, ss: seq<Store>)
    ensures w.Keys <= Puts(w, ss).Keys
    decreases |ss|
  {
    if ss != [] { PutsKeys(Put(w, ss[0].at, ss[0].word), ss[1..]); }
  }

  lemma StoresInside(u: Mmu, ss: seq<Store>)
    requires HeapStores(u, ss)
    ensures Inside(ss, HEAP_START, HEAP_END)
  {
    hide Mapped;
    forall s | s in ss ensures s.at % 4 == 0 && HEAP_START <= s.at < HEAP_END { assert InHeap(u, s.at); }
  }

  /** The stores change no translation and no byte outside the heap, and leave exactly those words. */
  lemma StoredSpec(m: Mem, r: Ram)
    requires Inv(m) && CanStore(m.mmu, r)
    ensures var u := Stored(m.mmu, r);
      Inv(Mem(m.pmm, u)) && SameView(m.mmu, u) && Contents(u) == r && SameBeyond(m.mmu, u, HEAP_START, HEAP_END)
  {
    hide Inv, Mirrors, SameView, SameBeyond, HeapStores, Contents, Puts;
    var ss :| StoresTo(m.mmu, r, ss) && Stored(m.mmu, r) == (StoresBelow(m.mmu, ss); Pokes(m.mmu, ss));
    ContentsMirror(m.mmu);
    StoresInside(m.mmu, ss);
    StoresMirror(m, Contents(m.mmu), ss, HEAP_START, HEAP_END);
    PutsKeys(Contents(m.mmu), ss);
    MirrorsContents(m.mmu, r, Stored(m.mmu, r));
  }

  lemma CanStoreIn(u: Mmu, r: Ram, lo: nat, hi: nat)
    requires ByStores(Contents(u), r, lo, hi) && HeapMapped(u, lo, hi)
    ensures CanStore(u, r)
  {
    hide Contents, Puts, Mapped;
    var ss :| Puts(Contents(u), ss) == r && Inside(ss, lo, hi);
    assert HeapStores(u, ss);
    assert StoresTo(u, r, ss);
  }

  // ---- The machine under the heap ----

  /** The heap's pages below heap_next_virtual are mapped, those above are not, and all its tables exist. */
  ghost predicate Machine(s: Sys, image: nat) {
    && SysInv(s) && NextFree(s) && VitalPinned(s.mem, image) && s.next <= KERNEL_LAST
    && (forall v: nat | KERNEL_FIRST <= v < s.next :: Mapped(s.mem.mmu, v))
    && (forall i: nat | 768 <= i < 832 :: Present(Pde(s.mem.mmu, i)))
  }

  /** The same machine after stores into the heap. */
  ghost function StoredSys(s: Sys, r: Ram): Sys { s.(mem := Mem(s.mem.pmm, Stored(s.mem.mmu, r))) }

  lemma SameViewMachine(s: Sys, u: Mmu, image: nat)
    requires Machine(s, image) && SameView(s.mem.mmu, u)
    ensures Machine(s.(mem := Mem(s.mem.pmm, u)), image)
  {
    hide Pde, Pte, Present, Inv, Unowned, IsFree, Vital;
    SameViewInv(s.mem, u);
    var r := s.(mem := Mem(s.mem.pmm, u));
    assert NextFree(r) by {
      forall v: nat | s.next <= v < KERNEL_LAST ensures !Mapped(u, v) { assert !Mapped(s.mem.mmu, v); }
    }
    forall f: nat | Vital(|s.mem.pmm.used|, image, f) ensures Pins(Mem(s.mem.pmm, u), f) {
      assert Pins(s.mem, f);
      SameViewUnowned(s.mem.mmu, u, f);
    }
    forall v: nat | KERNEL_FIRST <= v < s.next ensures Mapped(u, v) { assert Mapped(s.mem.mmu, v); }
  }

  lemma StoredMachine(s: Sys, r: Ram, image: nat)
    requires Machine(s, image) && CanStore(s.mem.mmu, r)
    ensures Machine(StoredSys(s, r), image) && Contents(StoredSys(s, r).mem.mmu) == r
  {
    hide Inv, NextFree, VitalPinned, Mapped, Contents, CanStore, Stored, Pde;
    StoredSpec(s.mem, r);
    SameViewMachine(s, Stored(s.mem.mmu, r), image);
  }

  lemma PageMapped(m: Mem, v: nat)
    requires Inv(m) && HeapPage(v) && HasTable(m.mmu, v) && AllocFrame(m.pmm).frame != 0
    ensures var r := TakeAndMap(m, v, 3, false); Mapped(r.mmu, v) && r.pmm == AllocFrame(m.pmm).pmm
  {
    hide Pde, Pte, Present, Inv, AllocFrame, Entry, SetPte, Install;
    AllocInv(m);
    var g := AllocFrame(m.pmm);
    MapPageSpec(Mem(g.pmm, m.mmu), v, g.frame, 3);
  }

  lemma SlotOf(v: nat)
    requires HeapPage(v)
    ensures 768 <= v / ENTRIES < 832
  {
  }

  /** Every call keeps the machine fit for the heap, and every word below heap_next_virtual. */
  lemma StepMachine(s: Sys, op: Op, image: nat)
    requires Machine(s, image)
    ensures Machine(Step(s, op), image)
    ensures forall a: nat | a < 4096 * s.next :: Rd(Contents(Step(s, op).mem.mmu), a) == Rd(Contents(s.mem.mmu), a)
  {
    hide SysInv, NextFree, VitalPinned, Pde, Pte, Present, Step, Peek, Contents;
    var r := Step(s, op);
    StepInv(s, op);
    StepKept(s, op);
    StepVital(s, op, image);
    StepSlots(s, op);
    NextAtLeast(s);
    StepNext(s, op);
    forall v: nat | KERNEL_FIRST <= v < s.next ensures Mapped(r.mem.mmu, v) {
      assert HeapPage(v) && Mapped(s.mem.mmu, v);
    }
    if op.KernelPage? && s.next < KERNEL_LAST && AllocFrame(s.mem.pmm).frame != 0 { NextMapped(s); }
    assert forall i: nat | 768 <= i < 832 :: Present(Pde(r.mem.mmu, i));
    WordsKept(s.mem.mmu, r.mem.mmu, s.next);
  }

  lemma NextMapped(s: Sys)
    requires SysInv(s) && HeapPage(s.next) && AllocFrame(s.mem.pmm).frame != 0
    requires forall i: nat | 768 <= i < 832 :: Present(Pde(s.mem.mmu, i))
    ensures var r := Step(s, KernelPage);
      r.next == s.next + 1 && Mapped(r.mem.mmu, s.next) && r.mem.pmm == AllocFrame(s.mem.pmm).pmm
  {
    hide Inv, AllocFrame, TakeAndMap, Pde, Present, Mapped;
    SlotOf(s.next);
    PageMapped(s.mem, s.next);
  }

  lemma StepNext(s: Sys, op: Op)
    requires KERNEL_FIRST <= s.next
    ensures Step(s, op).next ==
      if op.KernelPage? && s.next < KERNEL_LAST && AllocFrame(s.mem.pmm).frame != 0 then s.next + 1 else s.next
  {
    hide TakeAndMap, AllocFrame, Elf.ElfLoad, Break.Sbrk, Break.Brk, AllocBlocks, ZeroPhys;
  }

  lemma WordsKept(u: Mmu, r: Mmu, next: nat)
    requires KERNEL_FIRST <= next <= KERNEL_LAST && PagesKept(u, r)
    requires forall v: nat | KERNEL_FIRST <= v < next :: Mapped(u, v)
    ensures forall a: nat | a < 4096 * next :: Rd(Contents(r), a) == Rd(Contents(u), a)
  {
    hide Pte, Peek, Present;
    forall a: nat | a < 4096 * next ensures Rd(Contents(r), a) == Rd(Contents(u), a) {
      if a % 4 == 0 && a >= 4096 * KERNEL_FIRST {
        assert KERNEL_FIRST <= a / 4096 < next && Mapped(u, a / 4096);
        SamePageBytes(a);
        assert Pte(r, a / 4096) == Pte(u, a / 4096);
        assert PeekWord(r, a) == PeekWord(u, a);
      }
    }
  }

  // ---- kmalloc, kfree and stores of owners ----

  ghost predicate KernelInv(k: Kernel, image: nat) {
    && Machine(k.sys, image) && PagesOk(k.pages) && k.sys.next == KERNEL_FIRST + |k.pages|
    && HeapStored(Contents(k.sys.mem.mmu), k.pages)
  }

  /** The address of the next page. */
  function NextAddr(k: Kernel): nat { HEAP_START + 4096 * |k.pages| }

  ghost predicate CanAdd(k: Kernel) { |k.pages| < MAX_HEAP_PAGES && AllocFrame(k.sys.mem.pmm).frame != 0 }

  function Address(f: nat): KernelHeap.Phys
    requires 0 < f < PAGES
  {
    f * 4096
  }

  /** The words heap_alloc_page writes once its page is mapped. */
  ghost function AddedWords(k: Kernel): Ram
    requires PagesOk(k.pages) && CanAdd(k)
  {
    NewPage(Contents(Step(k.sys, KernelPage).mem.mmu), NextAddr(k), Address(AllocFrame(k.sys.mem.pmm).frame),
      Link(|k.pages|, 0))
  }

  /** heap_alloc_page. */
  ghost function AddPage(k: Kernel): (r: Kernel)
    requires PagesOk(k.pages)
    ensures PagesOk(r.pages) && |r.pages| == |k.pages| + (if CanAdd(k) then 1 else 0)
  {
    if !CanAdd(k) then k
    else
      var s := Step(k.sys, KernelPage);
      var pages := KernelHeap.Grow(KernelHeap.Heap(k.pages, [Address(AllocFrame(k.sys.mem.pmm).frame)])).pages;
      Kernel(StoredSys(s, AddedWords(k)), pages)
  }

  lemma StoredBelow(w: Ram, r: Ram, pages: seq<KernelHeap.Page>)
    requires HeapStored(w, pages) && forall a: nat | a < HEAP_START + 4096 * |pages| :: Rd(r, a) == Rd(w, a)
    ensures HeapStored(r, pages)
  {
    hide PageHolds, Rd;
    var n := |pages|;
    forall i | 0 <= i < n ensures PageStored(r, pages, i) {
      assert PageStored(w, pages, i);
      if i > 0 { AddrApart(n, 0, i); }
      HoldsLower(w, r, AddrOf(n, i), AddrOf(n, 0), pages[i]);
    }
  }

  lemma HeapMappedBelow(s: Sys, image: nat, lo: nat, hi: nat)
    requires Machine(s, image) && HEAP_START <= lo && hi <= 4096 * s.next
    ensures HeapMapped(s.mem.mmu, lo, hi)
  {
    hide SysInv, NextFree, VitalPinned, Mapped, Pde, Present;
    forall a: nat | lo <= a < hi ensures HeapPage(a / 4096) && Mapped(s.mem.mmu, a / 4096) {
      assert KERNEL_FIRST <= a / 4096 < s.next;
    }
  }

  lemma AddCanStore(k: Kernel, image: nat)
    requires KernelInv(k, image) && CanAdd(k)
    ensures var s := Step(k.sys, KernelPage);
      && Machine(s, image) && s.next == KERNEL_FIRST + |k.pages| + 1 && s.mem.pmm == AllocFrame(k.sys.mem.pmm).pmm
      && CanStore(s.mem.mmu, AddedWords(k)) && HeapStored(Contents(s.mem.mmu), k.pages)
      && (forall a: nat | a < NextAddr(k) :: Rd(Contents(s.mem.mmu), a) == Rd(Contents(k.sys.mem.mmu), a))
  {
    hide Step, AllocFrame, Contents, HeapStored, NewPage, Tiles, CanStore, ByStores, Mul8, SysInv, Pde, Present;
    hide Mapped, NextFree;
    hide VitalPinned, HeapMapped, Rd;
    var s := Step(k.sys, KernelPage);
    StepMachine(k.sys, KernelPage, image);
    NextMapped(k.sys);
    StoredBelow(Contents(k.sys.mem.mmu), Contents(s.mem.mmu), k.pages);
    var n := |k.pages|;
    AddrOk(n + 1, 0);
    if n > 0 {
      AddrOk(n, 0);
      AddrApart(n + 1, 0, 1);
      PageMul8(AddrOf(n, 0));
    }
    NewPageStores(Contents(s.mem.mmu), NextAddr(k), Address(AllocFrame(k.sys.mem.pmm).frame), Link(n, 0));
    HeapMappedBelow(s, image, HEAP_START, NextAddr(k) + PAGE_SIZE);
    CanStoreIn(s.mem.mmu, AddedWords(k), HEAP_START, NextAddr(k) + PAGE_SIZE);
  }

  /** heap_alloc_page keeps the whole machine. */
  lemma AddInv(k: Kernel, image: nat)
    requires KernelInv(k, image)
    ensures KernelInv(AddPage(k), image)
  {
    hide Step, AllocFrame, Contents, HeapStored, NewPage, Tiles, CanStore, Machine, Stored;
    if CanAdd(k) {
      AddCanStore(k, image);
      var s := Step(k.sys, KernelPage);
      StoredMachine(s, AddedWords(k), image);
      GrowStored(Contents(s.mem.mmu), KernelHeap.Heap(k.pages, [Address(AllocFrame(k.sys.mem.pmm).frame)]),
        Address(AllocFrame(k.sys.mem.pmm).frame));
    }
  }

  /** kmalloc for a request rounded up to `n`: scan, and while nothing stops the scan add a page. */
  ghost function Malloc(k: Kernel, n: u32): (r: (Kernel, u32))
    requires PagesOk(k.pages) && n > 0 && Mul8(n)
    ensures PagesOk(r.0.pages)
    decreases MAX_HEAP_PAGES - |k.pages|
  {
    var i := KernelHeap.Stop(k.pages, n, 0);
    if i < |k.pages| then
      if k.pages[i].Broken? then (k, 0)
      else
        var g := KernelHeap.Alloc(ListOf(k.pages), n);
        (Kernel(StoredSys(k.sys, GetWords(Contents(k.sys.mem.mmu), ListOf(k.pages), n)), g.heap.pages), g.ptr)
    else if !CanAdd(k) then (k, 0)
    else Malloc(AddPage(k), n)
  }

  lemma CarveCanStore(k: Kernel, n: u32, image: nat)
    requires KernelInv(k, image) && n > 0 && Mul8(n)
    requires KernelHeap.Stop(k.pages, n, 0) < |k.pages| && k.pages[KernelHeap.Stop(k.pages, n, 0)].Whole?
    ensures CanStore(k.sys.mem.mmu, GetWords(Contents(k.sys.mem.mmu), ListOf(k.pages), n))
  {
    hide Contents, Carve, Mul8, CanStore, ByStores, Machine, HeapMapped, PageAligned, Tiles;
    var w, h := Contents(k.sys.mem.mmu), ListOf(k.pages);
    var i := KernelHeap.Stop(k.pages, n, 0);
    var p, bs := AddrOf(|k.pages|, i), k.pages[i].blocks;
    AddrOk(|k.pages|, i);
    assert PageStored(w, k.pages, i);
    CarveStores(w, p, bs, FirstFit(bs, n, 0), n);
    WordsAre(w, h, n);
    HeapMappedBelow(k.sys, image, p, p + PAGE_SIZE);
    CanStoreIn(k.sys.mem.mmu, GetWords(w, h, n), p, p + PAGE_SIZE);
  }

  /** New words, that hold the new pages, through the tables. */
  lemma StoredInv(k: Kernel, r: Ram, pages: seq<KernelHeap.Page>, image: nat)
    requires KernelInv(k, image) && CanStore(k.sys.mem.mmu, r)
    requires PagesOk(pages) && |pages| == |k.pages| && HeapStored(r, pages)
    ensures KernelInv(Kernel(StoredSys(k.sys, r), pages), image)
    ensures Contents(StoredSys(k.sys, r).mem.mmu) == r
  {
    hide Contents, CanStore, Machine, HeapStored, Stored;
    StoredMachine(k.sys, r, image);
  }

  /** kmalloc keeps machine and heap, in every state. */
  lemma {:induction false} MallocInv(k: Kernel, n: u32, image: nat)
    requires KernelInv(k, image) && n > 0 && Mul8(n)
    ensures KernelInv(Malloc(k, n).0, image)
    decreases MAX_HEAP_PAGES - |k.pages|
  {
    hide Contents, Mul8, CanStore, Machine, HeapStored, AddPage, KernelHeap.Alloc, GetWords, StoredSys, CanAdd, Tiles;
    var i := KernelHeap.Stop(k.pages, n, 0);
    if i < |k.pages| {
      if k.pages[i].Whole? {
        CarveCanStore(k, n, image);
        GetStored(Contents(k.sys.mem.mmu), ListOf(k.pages), n);
        HereLength(k, n);
        var r := GetWords(Contents(k.sys.mem.mmu), ListOf(k.pages), n);
        StoredInv(k, r, KernelHeap.Alloc(ListOf(k.pages), n).heap.pages, image);
      }
    } else if CanAdd(k) {
      AddInv(k, image);
      MallocInv(AddPage(k), n, image);
    }
  }

  lemma HereLength(k: Kernel, n: u32)
    requires PagesOk(k.pages) && n > 0 && Mul8(n)
    ensures |KernelHeap.Alloc(ListOf(k.pages), n).heap.pages| == |k.pages|
  {
    hide Mul8, Tiles, KernelHeap.Carved;
  }

  /** What kfree leaves of the words. */
  ghost function FreedWords(k: Kernel, i: nat, j: nat): Ram
    requires PagesOk(k.pages) && i < |k.pages| && j < |k.pages[i].blocks|
  {
    HeapPayloads.PayloadFits(ListOf(k.pages), i, j);
    Kfree(Contents(k.sys.mem.mmu), k.pages[i].blocks[j].addr + HEADER)
  }

  /** kfree of the payload of block `j` of page `i`. */
  ghost function FreeBlock(k: Kernel, i: nat, j: nat): (r: Kernel)
    requires PagesOk(k.pages) && i < |k.pages| && j < |k.pages[i].blocks|
    ensures PagesOk(r.pages)
  {
    Kernel(StoredSys(k.sys, FreedWords(k, i, j)), KernelHeap.Release(ListOf(k.pages), i, j).pages)
  }

  lemma NoStores(u: Mmu)
    ensures CanStore(u, Contents(u))
  {
    hide Contents;
    assert StoresTo(u, Contents(u), []);
  }

  lemma FreeCanStore(k: Kernel, i: nat, j: nat, image: nat)
    requires KernelInv(k, image) && i < |k.pages| && j < |k.pages[i].blocks|
    ensures CanStore(k.sys.mem.mmu, FreedWords(k, i, j))
  {
    hide Contents, Unite, Mul8, CanStore, ByStores, Machine, HeapMapped, PageAligned, Tiles, Frees;
    var w := Contents(k.sys.mem.mmu);
    var p, bs := AddrOf(|k.pages|, i), k.pages[i].blocks;
    AddrOk(|k.pages|, i);
    assert PageStored(w, k.pages, i);
    NoStores(k.sys.mem.mmu);
    HeapPayloads.PayloadFits(ListOf(k.pages), i, j);
    if k.pages[i].Broken? {
      KfreeBroken(w, p, bs, k.pages[i].cut, k.pages[i].asked, j);
    } else if Frees(w, bs[j].addr + HEADER) {
      UniteStores(w, p, bs, j);
      HeapMappedBelow(k.sys, image, p, p + PAGE_SIZE);
      CanStoreIn(k.sys.mem.mmu, FreedWords(k, i, j), p, p + PAGE_SIZE);
    }
  }

  lemma FreeKeepsInv(k: Kernel, i: nat, j: nat, image: nat)
    requires KernelInv(k, image) && i < |k.pages| && j < |k.pages[i].blocks|
    ensures KernelInv(FreeBlock(k, i, j), image) && Contents(FreeBlock(k, i, j).sys.mem.mmu) == FreedWords(k, i, j)
  {
    hide Contents, CanStore, Machine, HeapStored, Kfree, StoredSys, Tiles;
    FreeCanStore(k, i, j, image);
    HeapPayloads.PayloadFits(ListOf(k.pages), i, j);
    FreeStored(Contents(k.sys.mem.mmu), ListOf(k.pages), i, j);
    StoredInv(k, FreedWords(k, i, j), KernelHeap.Release(ListOf(k.pages), i, j).pages, image);
  }

  /** A word store of the owner of a live payload. */
  ghost function OwnerStore(k: Kernel, a: nat, x: u32): Kernel {
    Kernel(StoredSys(k.sys, Put(Contents(k.sys.mem.mmu), a, x)), k.pages)
  }

  lemma OwnerCanStore(k: Kernel, i: nat, j: nat, a: nat, x: u32, image: nat)
    requires KernelInv(k, image) && HeapPayloads.LiveAt(ListOf(k.pages), i, j, a) && a % 4 == 0
    ensures CanStore(k.sys.mem.mmu, Put(Contents(k.sys.mem.mmu), a, x))
  {
    hide Contents, CanStore, Machine, HeapStored, Put, Tiles, ByStores, HeapMapped, PageAligned;
    var w := Contents(k.sys.mem.mmu);
    HeapPayloads.LivePlace(w, ListOf(k.pages), i, j, a);
    var p := AddrOf(|k.pages|, i);
    OneStore(w, a, x, p, p + PAGE_SIZE);
    HeapMappedBelow(k.sys, image, p, p + PAGE_SIZE);
    CanStoreIn(k.sys.mem.mmu, Put(w, a, x), p, p + PAGE_SIZE);
  }

  lemma OwnerInv(k: Kernel, i: nat, j: nat, a: nat, x: u32, image: nat)
    requires KernelInv(k, image) && HeapPayloads.LiveAt(ListOf(k.pages), i, j, a) && a % 4 == 0
    ensures KernelInv(OwnerStore(k, a, x), image)
    ensures Contents(OwnerStore(k, a, x).sys.mem.mmu) == Put(Contents(k.sys.mem.mmu), a, x)
  {
    hide Contents, CanStore, Machine, HeapStored, Put, StoredSys, Tiles;
    var w := Contents(k.sys.mem.mmu);
    OwnerCanStore(k, i, j, a, x, image);
    HeapPayloads.StoreKeeps(w, ListOf(k.pages), i, j, a, x);
    StoredInv(k, Put(w, a, x), k.pages, image);
  }

  // ---- What the calls leave alone ----

  /** heap_alloc_page changes no word of a live payload. */
  lemma AddSpares(k: Kernel, i: nat, j: nat, a: nat, image: nat)
    requires KernelInv(k, image) && CanAdd(k) && HeapPayloads.LiveAt(ListOf(k.pages), i, j, a)
    ensures Rd(Contents(AddPage(k).sys.mem.mmu), a) == Rd(Contents(k.sys.mem.mmu), a)
    ensures HeapPayloads.LiveAt(ListOf(AddPage(k).pages), i + 1, j, a)
  {
    hide Step, AllocFrame, Contents, HeapStored, NewPage, Tiles, CanStore, Machine, Stored, Rd, PageAligned;
    AddCanStore(k, image);
    var s := Step(k.sys, KernelPage);
    StoredMachine(s, AddedWords(k), image);
    HeapPayloads.LivePlace(Contents(k.sys.mem.mmu), ListOf(k.pages), i, j, a);
    if i > 0 { AddrApart(|k.pages|, 0, i); }
    var f := Address(AllocFrame(k.sys.mem.pmm).frame);
    HeapPayloads.NewPageSpares(Contents(s.mem.mmu), KernelHeap.Heap(k.pages, [f]), i, a);
    assert AddPage(k).pages[i + 1] == k.pages[i];
  }

  /** kmalloc changes no word of a payload that is live before the call. */
  lemma {:induction false} MallocSpares(k: Kernel, n: u32, i: nat, j: nat, a: nat, image: nat)
    requires KernelInv(k, image) && n > 0 && Mul8(n) && HeapPayloads.LiveAt(ListOf(k.pages), i, j, a)
    ensures Rd(Contents(Malloc(k, n).0.sys.mem.mmu), a) == Rd(Contents(k.sys.mem.mmu), a)
    decreases MAX_HEAP_PAGES - |k.pages|
  {
    hide Contents, Mul8, CanStore, Machine, HeapStored, AddPage, KernelHeap.Alloc, GetWords, StoredSys, CanAdd, Tiles;
    hide Rd;
    hide HeapPayloads.LiveAt;
    var s := KernelHeap.Stop(k.pages, n, 0);
    if s < |k.pages| {
      if k.pages[s].Whole? {
        CarveCanStore(k, n, image);
        StoredMachine(k.sys, GetWords(Contents(k.sys.mem.mmu), ListOf(k.pages), n), image);
        HeapPayloads.GetSpares(Contents(k.sys.mem.mmu), ListOf(k.pages), n, i, j, a);
      }
    } else if CanAdd(k) {
      AddInv(k, image);
      AddSpares(k, i, j, a, image);
      MallocSpares(AddPage(k), n, i + 1, j, a, image);
    }
  }

  /** The byte is behind a mapped page of user space. */
  predicate UserByte(u: Mmu, y: u32) { Tracked(y / 4096) && y / 4096 < KERNEL_FIRST && Mapped(u, y / 4096) }

  /** The byte and its translation are as before. */
  predicate ByteKept(u: Mmu, r: Mmu, y: u32) { Pte(r, y / 4096) == Pte(u, y / 4096) && Peek(r, y) == Peek(u, y) }

  lemma StoredByte(m: Mem, r: Ram, y: u32)
    requires Inv(m) && CanStore(m.mmu, r) && UserByte(m.mmu, y)
    ensures ByteKept(m.mmu, Stored(m.mmu, r), y) && UserByte(Stored(m.mmu, r), y)
  {
    hide Inv, CanStore, Stored, Pte, Pde, Peek, Present, Contents;
    StoredSpec(m, r);
    assert Occupied(m.mmu, y / 4096);
  }

  lemma AddByte(k: Kernel, y: u32, image: nat)
    requires KernelInv(k, image) && CanAdd(k) && UserByte(k.sys.mem.mmu, y)
    ensures ByteKept(k.sys.mem.mmu, AddPage(k).sys.mem.mmu, y) && UserByte(AddPage(k).sys.mem.mmu, y)
  {
    hide AllocFrame, Contents, HeapStored, NewPage, Tiles, CanStore, Stored, Pte, Pde, Peek, Present, MapPage, Inv;
    hide NextFree;
    hide VitalPinned;
    AddCanStore(k, image);
    var s := Step(k.sys, KernelPage);
    var g := AllocFrame(k.sys.mem.pmm);
    AllocInv(k.sys.mem);
    MapOthers(Mem(g.pmm, k.sys.mem.mmu), k.sys.next, g.frame, 3);
    assert Occupied(k.sys.mem.mmu, y / 4096);
    StoredByte(s.mem, AddedWords(k), y);
  }

  /** kmalloc changes no byte of user space and no translation of it. */
  lemma {:induction false} MallocByte(k: Kernel, n: u32, y: u32, image: nat)
    requires KernelInv(k, image) && n > 0 && Mul8(n) && UserByte(k.sys.mem.mmu, y)
    ensures ByteKept(k.sys.mem.mmu, Malloc(k, n).0.sys.mem.mmu, y)
    decreases MAX_HEAP_PAGES - |k.pages|
  {
    hide Contents, Mul8, CanStore, HeapStored, AddPage, KernelHeap.Alloc, GetWords, Stored, CanAdd, Tiles, UserByte;
    hide Inv;
    hide NextFree, VitalPinned, Pte, Peek, Present, Pde;
    var s := KernelHeap.Stop(k.pages, n, 0);
    if s < |k.pages| {
      if k.pages[s].Whole? {
        CarveCanStore(k, n, image);
        StoredByte(k.sys.mem, GetWords(Contents(k.sys.mem.mmu), ListOf(k.pages), n), y);
      }
    } else if CanAdd(k) {
      AddInv(k, image);
      AddByte(k, y, image);
      MallocByte(AddPage(k), n, y, image);
    }
  }

  // ---- The heap's page list is the one of `KernelHeap` ----

  /** The physical pages that pmm_alloc_page has still to give, in order. */
  ghost function Supply(p: Pmm): seq<KernelHeap.Phys>
    decreases Clear(p.used)
  {
    AllocFails(p);
    var g := AllocFrame(p);
    if g.frame == 0 then [] else [Address(g.frame)] + Supply(g.pmm)
  }

  ghost function HeapOf(k: Kernel): KernelHeap.Heap { KernelHeap.Heap(k.pages, Supply(k.sys.mem.pmm)) }

  lemma SupplyIs(p: Pmm)
    ensures Supply(p) == [] <==> AllocFrame(p).frame == 0
    ensures AllocFrame(p).frame != 0 ==>
      Supply(p)[0] == Address(AllocFrame(p).frame) && Supply(p)[1..] == Supply(AllocFrame(p).pmm)
  {
    hide AllocFrame;
  }

  /** A page stops the scan, so the physical pages to come do not matter. */
  lemma SuppliedHere(h: KernelHeap.Heap, n: u32)
    requires KernelHeap.HeapOk(h) && n > 0 && Mul8(n) && KernelHeap.Stop(h.pages, n, 0) < |h.pages|
    ensures var r := KernelHeap.Alloc(h, n); var g := KernelHeap.Alloc(ListOf(h.pages), n);
      r.heap.pages == g.heap.pages && r.ptr == g.ptr && r.heap.frames == h.frames
  {
    hide Mul8, Tiles, KernelHeap.Carved;
  }

  lemma AddHeap(k: Kernel, image: nat)
    requires KernelInv(k, image) && CanAdd(k)
    ensures KernelHeap.CanGrow(HeapOf(k)) && HeapOf(AddPage(k)) == KernelHeap.Grow(HeapOf(k))
  {
    hide Step, AllocFrame, Contents, HeapStored, NewPage, Tiles, CanStore, Machine, Stored, Supply;
    AddCanStore(k, image);
    SupplyIs(k.sys.mem.pmm);
  }

  /** Main result: kmalloc on memory, page tables and frame allocator does to the heap's pages what
      `KernelHeap.Alloc` does, with the frames that the allocator has to give. */
  lemma {:induction false} MallocRefines(k: Kernel, n: u32, image: nat)
    requires KernelInv(k, image) && n > 0 && Mul8(n)
    ensures var r := Malloc(k, n); KernelHeap.Alloc(HeapOf(k), n) == KernelHeap.Got(HeapOf(r.0), r.1)
    decreases MAX_HEAP_PAGES - |k.pages|
  {
    hide Contents, Mul8, CanStore, Machine, HeapStored, AddPage, GetWords, CanAdd, Tiles, Supply, KernelHeap.Alloc;
    hide Stored;
    var i := KernelHeap.Stop(k.pages, n, 0);
    var h := HeapOf(k);
    AllocIs(h, n);
    if i < |k.pages| {
      if k.pages[i].Whole? { SuppliedHere(h, n); }
    } else if CanAdd(k) {
      AddInv(k, image);
      AddHeap(k, image);
      MallocRefines(AddPage(k), n, image);
    } else {
      CannotAdd(k);
    }
  }

  lemma CannotAdd(k: Kernel)
    requires PagesOk(k.pages) && !CanAdd(k)
    ensures !KernelHeap.CanGrow(HeapOf(k))
  {
    hide AllocFrame, Supply;
    SupplyIs(k.sys.mem.pmm);
  }

  // ---- Whole runs ----

  datatype Act =
    | Call(op: Op)
    | Get(size: u32)
    | Give(page: nat, block: nat)
    | Store(page: nat, block: nat, at: nat, word: u32)

  /** kfree gets the payload of a block; an owner stores words inside a live payload. */
  predicate Fair(k: Kernel, act: Act) {
    match act
    case Call(_) => true
    case Get(_) => true
    case Give(i, j) => i < |k.pages| && j < |k.pages[i].blocks|
    case Store(i, j, a, _) => HeapPayloads.LiveAt(ListOf(k.pages), i, j, a) && a % 4 == 0
  }

  ghost function Do(k: Kernel, act: Act): (r: Kernel)
    requires PagesOk(k.pages) && Fair(k, act)
    ensures PagesOk(r.pages)
  {
    match act
    case Call(op) => if op.KernelPage? then AddPage(k) else Kernel(Step(k.sys, op), k.pages)
    case Get(size) => if 0 < size <= 0xFFFF_FFF8 then Malloc(k, RoundUp(size)).0 else k
    case Give(i, j) => FreeBlock(k, i, j)
    case Store(_, _, a, x) => OwnerStore(k, a, x)
  }

  /** One act keeps the machine and the heap. */
  lemma DoInv(k: Kernel, act: Act, image: nat)
    requires KernelInv(k, image) && Fair(k, act)
    ensures KernelInv(Do(k, act), image)
  {
    hide Contents, Machine, HeapStored, AddPage, Malloc, StoredSys, Tiles, HeapPayloads.LiveAt, Step, Rd, Kfree, Put;
    match act
    case Call(op) => if op.KernelPage? { AddInv(k, image); } else { CallInv(k, op, image); }
    case Get(size) => if 0 < size <= 0xFFFF_FFF8 { MallocInv(k, RoundUp(size), image); }
    case Give(i, j) => FreeKeepsInv(k, i, j, image);
    case Store(i, j, a, x) => OwnerInv(k, i, j, a, x, image);
  }

  lemma CallInv(k: Kernel, op: Op, image: nat)
    requires KernelInv(k, image) && !op.KernelPage?
    ensures KernelInv(Kernel(Step(k.sys, op), k.pages), image)
    ensures forall a: nat | a < NextAddr(k) ::
      Rd(Contents(Step(k.sys, op).mem.mmu), a) == Rd(Contents(k.sys.mem.mmu), a)
  {
    hide Contents, HeapStored, Step, Rd, SysInv, NextFree, VitalPinned, Pde, Present, Mapped;
    StepMachine(k.sys, op, image);
    StepNext(k.sys, op);
    StoredBelow(Contents(k.sys.mem.mmu), Contents(Step(k.sys, op).mem.mmu), k.pages);
  }

  /** One act leaves a word of a live payload alone unless its owner stores to it. */
  lemma DoSpares(k: Kernel, act: Act, i: nat, j: nat, a: nat, image: nat)
    requires KernelInv(k, image) && Fair(k, act) && HeapPayloads.LiveAt(ListOf(k.pages), i, j, a)
    requires !(act.Store? && act.at == a)
    ensures Rd(Contents(Do(k, act).sys.mem.mmu), a) == Rd(Contents(k.sys.mem.mmu), a)
  {
    hide Contents, Machine, HeapStored, AddPage, Malloc, StoredSys, Tiles, HeapPayloads.LiveAt, Step, Rd, Kfree, Put;
    hide CanAdd;
    var w := Contents(k.sys.mem.mmu);
    match act
    case Call(op) =>
      if op.KernelPage? {
        if CanAdd(k) { AddSpares(k, i, j, a, image); } else { CannotAddSame(k); }
      } else {
        CallInv(k, op, image);
        LiveBelow(k, i, j, a, image);
      }
    case Get(size) => if 0 < size <= 0xFFFF_FFF8 { MallocSpares(k, RoundUp(size), i, j, a, image); }
    case Give(p, b) =>
      FreeKeepsInv(k, p, b, image);
      HeapPayloads.GiveSpares(w, ListOf(k.pages), p, b, i, j, a);
    case Store(p, b, at, x) =>
      OwnerInv(k, p, b, at, x, image);
      HeapPayloads.PutKeeps(w, at, x);
  }

  lemma CannotAddSame(k: Kernel)
    requires PagesOk(k.pages) && !CanAdd(k)
    ensures AddPage(k) == k
  {
  }

  lemma LiveBelow(k: Kernel, i: nat, j: nat, a: nat, image: nat)
    requires KernelInv(k, image) && HeapPayloads.LiveAt(ListOf(k.pages), i, j, a)
    ensures a < NextAddr(k)
  {
    hide Contents, Machine, HeapStored, Tiles, PageAligned;
    HeapPayloads.LivePlace(Contents(k.sys.mem.mmu), ListOf(k.pages), i, j, a);
    if i > 0 { AddrApart(|k.pages|, 0, i); }
  }

  ghost predicate FairRun(k: Kernel, acts: seq<Act>)
    requires PagesOk(k.pages)
    decreases |acts|
  {
    acts == [] || (Fair(k, acts[0]) && FairRun(Do(k, acts[0]), acts[1..]))
  }

  ghost function RunAll(k: Kernel, acts: seq<Act>): Kernel
    requires PagesOk(k.pages) && FairRun(k, acts)
    decreases |acts|
  {
    if acts == [] then k else RunAll(Do(k, acts[0]), acts[1..])
  }

  /** The word stays in a live payload, and its owner does not store to it. */
  ghost predicate LeftAlone(k: Kernel, acts: seq<Act>, a: nat)
    requires PagesOk(k.pages) && FairRun(k, acts)
    decreases |acts|
  {
    acts == [] ||
      (HeapPayloads.LiveWord(ListOf(k.pages), a) && !(acts[0].Store? && acts[0].at == a)
        && LeftAlone(Do(k, acts[0]), acts[1..], a))
  }

  /** Main result: whatever order loads, break calls, stack pages, buffers, kmalloc, kfree and stores
      come in, frame ownership, the vital frames and the stored heap survive, and a word of a live
      payload that its owner leaves alone keeps its value in memory. */
  lemma {:induction false} KernelRun(k: Kernel, acts: seq<Act>, a: nat, image: nat)
    requires KernelInv(k, image) && FairRun(k, acts)
    ensures KernelInv(RunAll(k, acts), image)
    ensures LeftAlone(k, acts, a) ==> Rd(Contents(RunAll(k, acts).sys.mem.mmu), a) == Rd(Contents(k.sys.mem.mmu), a)
    decreases |acts|
  {
    hide Contents, Machine, HeapStored, Do, Fair, HeapPayloads.LiveAt, Rd, Tiles;
    if acts != [] {
      DoInv(k, acts[0], image);
      KernelRun(Do(k, acts[0]), acts[1..], a, image);
      if LeftAlone(k, acts, a) {
        var i, j :| HeapPayloads.LiveAt(ListOf(k.pages), i, j, a);
        DoSpares(k, acts[0], i, j, a, image);
      }
    }
  }

  /** kmalloc, kfree and the stores of owners never change a byte of user space. */
  lemma HeapActsSpareUser(k: Kernel, act: Act, y: u32, image: nat)
    requires KernelInv(k, image) && Fair(k, act) && !act.Call? && UserByte(k.sys.mem.mmu, y)
    ensures ByteKept(k.sys.mem.mmu, Do(k, act).sys.mem.mmu, y)
  {
    hide Contents, HeapStored, Malloc, Stored, Tiles, HeapPayloads.LiveAt, Rd, Kfree, Put, CanStore, Inv, NextFree;
    hide VitalPinned;
    hide Pte, Peek, Pde, Present, UserByte;
    match act
    case Get(size) => if 0 < size <= 0xFFFF_FFF8 { MallocByte(k, RoundUp(size), y, image); }
    case Give(i, j) =>
      FreeCanStore(k, i, j, image);
      StoredByte(k.sys.mem, FreedWords(k, i, j), y);
    case Store(i, j, a, x) =>
      OwnerCanStore(k, i, j, a, x, image);
      StoredByte(k.sys.mem, Put(Contents(k.sys.mem.mmu), a, x), y);
  }

  /** After start-up with at least 70 free pages and one heap_alloc_page with paging on, the hypotheses
      are met. kernel_main calls heap_init with paging still off: see `Unpaged`. */
  lemma HeapReady(p: Pmm, ram: map<nat, Frame>, image: nat)
    requires Clear(p.used) >= 70 && StartOk(p, image)
    ensures PagingInit(p, ram).Booted?
    ensures var k := Kernel(Sys(PagingInit(p, ram).mem, Break.Heap(0, 0, false), KERNEL_FIRST), []);
      PagesOk(k.pages) && |AddPage(k).pages| == 1 && KernelInv(AddPage(k), image)
  {
    hide PagingInit, Clear, Pde, Present, Inv, AllocFrame, NextFree, VitalPinned, StartOk, Contents, AddPage;
    Scenarios.BootShape(p, ram);
    BootNextFree(p, ram, image);
    var k := Kernel(Sys(PagingInit(p, ram).mem, Break.Heap(0, 0, false), KERNEL_FIRST), []);
    AllocFails(k.sys.mem.pmm);
    assert KernelInv(k, image);
    AddInv(k, image);
  }
}
