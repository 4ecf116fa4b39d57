/** The ELF file itself: header decoding, elf_validate and the whole of elf_load
    (kernel/elf.c:122-292, include/elf.h). */
module Elf {
  import opened Words
  import opened Frames
  import opened Paging
  import opened Memory
  import opened Ownership
  import opened UserHeap
  import opened Access
  import opened Break
  import opened Loader
  import opened Image
  import opened Rollback
  import opened Budget

  const EHDR_SIZE := 52
  const PHDR_SIZE := 32
  const ELF_MAGIC := 0x464C_457F
  const ET_EXEC := 2
  const ET_DYN := 3
  const EM_386 := 3
  const PT_LOAD := 1
  const USER_TOP := 0xBFFF_FFFF

  function U16(d: seq<byte>, o: nat): u16
    requires o + 2 <= |d|
  {
    var b0: int, b1: int := d[o], d[o + 1];
    b0 + 0x100 * b1
  }

  function U32(d: seq<byte>, o: nat): u32
    requires o + 4 <= |d|
  {
    Word32(d[o], d[o + 1], d[o + 2], d[o + 3])
  }

  function EType(d: seq<byte>): u16 requires |d| >= EHDR_SIZE { U16(d, 16) }
  function EEntry(d: seq<byte>): u32 requires |d| >= EHDR_SIZE { U32(d, 24) }
  function PhOff(d: seq<byte>): u32 requires |d| >= EHDR_SIZE { U32(d, 28) }
  function PhEntSize(d: seq<byte>): u16 requires |d| >= EHDR_SIZE { U16(d, 42) }
  function PhNum(d: seq<byte>): u16 requires |d| >= EHDR_SIZE { U16(d, 44) }
  function Bias(d: seq<byte>): u32 requires |d| >= EHDR_SIZE { if EType(d) == ET_DYN then USER_BASE else 0 }

  predicate TableFits(off: nat, n: nat, size: nat, len: nat) { off + n * size <= len }

  /** The checks before the program header loop, in the order of the source. */
  predicate HeaderOk(d: seq<byte>) {
    && |d| >= EHDR_SIZE
    && U32(d, 0) == ELF_MAGIC
    && (EType(d) == ET_EXEC || EType(d) == ET_DYN)
    && U16(d, 18) == EM_386
    && U32(d, 20) == 1
    && PhOff(d) != 0 && PhNum(d) != 0
    && PhEntSize(d) >= PHDR_SIZE
    && TableFits(PhOff(d), PhNum(d), PhEntSize(d), |d|)
    && EEntry(d) != 0
    && USER_BASE <= Wrap32(EEntry(d) + Bias(d)) <= USER_TOP
  }

  /** File offset of program header `i`. */
  function PhAt(d: seq<byte>, i: nat): (o: nat)
    requires HeaderOk(d) && i < PhNum(d)
    ensures o + PHDR_SIZE <= |d|
  {
    PhInTable(PhOff(d), i, PhNum(d), PhEntSize(d), |d|);
    PhOff(d) + i * PhEntSize(d)
  }

  lemma PhInTable(off: nat, i: nat, n: nat, size: nat, len: nat)
    requires i < n && size >= PHDR_SIZE && TableFits(off, n, size, len)
    ensures off + i * size + PHDR_SIZE <= len && i * size >= 0
  {
    assert (n - i - 1) * size >= 0 && i * size >= 0;
    assert n * size == i * size + size + (n - i - 1) * size;
  }

  datatype Phdr = Phdr(kind: u32, offset: u32, vaddr: u32, filesz: u32, memsz: u32, flags: u32, align: u32)

  function PhdrOf(d: seq<byte>, i: nat): Phdr
    requires HeaderOk(d) && i < PhNum(d)
  {
    var o := PhAt(d, i);
    Phdr(U32(d, o), U32(d, o + 4), U32(d, o + 8), U32(d, o + 16), U32(d, o + 20), U32(d, o + 24), U32(d, o + 28))
  }

  /** The address checks with the wrap-around the 32-bit code has. */
  predicate RangeAccepted(p: Phdr, bias: u32) {
    var first := Wrap32(p.vaddr + bias);
    var end := Wrap32(p.vaddr + bias + p.memsz);
    end >= first && first >= USER_BASE && end <= USER_TOP + 1
  }

  predicate PhdrAccepted(p: Phdr, size: nat, bias: u32) {
    p.kind == PT_LOAD ==>
      && p.filesz <= p.memsz && p.flags < 8
      && p.offset <= size && p.offset + p.filesz <= size
      && RangeAccepted(p, bias)
      && (p.align != 0 ==> p.vaddr % p.align == p.offset % p.align)
  }

  predicate Accepted(d: seq<byte>) {
    HeaderOk(d) && forall i | 0 <= i < PhNum(d) :: PhdrAccepted(PhdrOf(d, i), |d|, Bias(d))
  }

  /** elf_validate: 0 exactly for the accepted files, otherwise -1. */
  method Validate(d: seq<byte>) returns (r: int)
    ensures r == 0 <==> Accepted(d)
    ensures r == 0 || r == -1
  {
    hide U16, U32, PhdrOf, TableFits, Wrap32;
    if !HeaderOk(d) { return -1; }
    var i := 0;
    while i < PhNum(d)
      invariant 0 <= i <= PhNum(d)
      invariant forall j | 0 <= j < i :: PhdrAccepted(PhdrOf(d, j), |d|, Bias(d))
    {
      var p := PhdrOf(d, i);
      if p.kind == PT_LOAD {
        if p.memsz < p.filesz { return -1; }
        if p.flags >= 8 { return -1; }
        if p.offset > |d| { return -1; }
        if p.offset + p.filesz > |d| { return -1; }
        var first := Wrap32(p.vaddr + Bias(d));
        var end := Wrap32(p.vaddr + Bias(d) + p.memsz);
        if end < first { return -1; }
        if first < USER_BASE { return -1; }
        if end > USER_TOP + 1 { return -1; }
        if p.align != 0 && p.vaddr % p.align != p.offset % p.align { return -1; }
      }
      i := i + 1;
    }
    return 0;
  }

  /** The wrapping checks accept exactly the ranges that lie in user space in unbounded integers. */
  lemma RangeExact(p: Phdr, bias: u32)
    requires bias == 0 || bias == USER_BASE
    ensures RangeAccepted(p, bias) <==> USER_BASE <= p.vaddr + bias && p.vaddr + bias + p.memsz <= 0xC000_0000
  {
    var x := p.vaddr + bias;
    if x >= 0x1_0000_0000 {
      assert Wrap32(x) == x - 0x1_0000_0000;
    } else if x + p.memsz >= 0x1_0000_0000 {
      assert Wrap32(x + p.memsz) == x + p.memsz - 0x1_0000_0000;
    }
  }

  function SegOf(d: seq<byte>, i: nat): (s: Seg)
    requires Accepted(d) && i < PhNum(d) && PhdrOf(d, i).kind == PT_LOAD
    ensures SegOk(s)
    ensures s.va == PhdrOf(d, i).vaddr + Bias(d) && s.memsz == PhdrOf(d, i).memsz
  {
    var p := PhdrOf(d, i);
    assert PhdrAccepted(p, |d|, Bias(d));
    RangeExact(p, Bias(d));
    Seg(Wrap32(p.vaddr + Bias(d)), d[p.offset..p.offset + p.filesz], p.memsz, p.flags / 2 % 2 == 1)
  }

  /** The PT_LOAD segments among the first `n` program headers, in file order. */
  function Segments(d: seq<byte>, n: nat): (segs: seq<Seg>)
    requires Accepted(d) && n <= PhNum(d)
    ensures SegsOk(segs)
  {
    if n == 0 then []
    else Segments(d, n - 1) + (if PhdrOf(d, n - 1).kind == PT_LOAD then [SegOf(d, n - 1)] else [])
  }

  /** End of the highest segment that occupies pages, at least USER_BASE. */
  function MaxEnd(segs: seq<Seg>): (r: u32)
    requires SegsOk(segs)
    ensures USER_BASE <= r <= 0xC000_0000 && r % 4096 == 0
    ensures forall s | s in segs && FirstPage(s) < EndPage(s) :: s.va + s.memsz <= EndPage(s) * 4096 <= r
  {
    if segs == [] then USER_BASE
    else
      var s := segs[|segs| - 1];
      assert SegOk(s);
      var r := MaxEnd(segs[..|segs| - 1]);
      assert forall t | t in segs :: t == s || t in segs[..|segs| - 1];
      if FirstPage(s) < EndPage(s) && EndPage(s) * 4096 > r then EndPage(s) * 4096 else r
  }

  datatype Loaded = Loaded(mem: Mem, heap: Heap, entry: u32)

  /** elf_load: 0 on failure, the entry point otherwise; the heap is set up only on success. */
  function ElfLoad(m: Mem, h: Heap, d: seq<byte>): Loaded {
    if !Accepted(d) then Loaded(m, h, 0)
    else
      var segs := Segments(d, PhNum(d));
      var l := LoadSegs(m, segs, []);
      if l.ok then Loaded(l.mem, Break.Init(MaxEnd(segs)), Wrap32(EEntry(d) + Bias(d)))
      else Loaded(l.mem, h, 0)
  }

  lemma {:induction false} SegmentsHas(d: seq<byte>, n: nat, i: nat)
    requires Accepted(d) && i < n <= PhNum(d) && PhdrOf(d, i).kind == PT_LOAD
    ensures SegOf(d, i) in Segments(d, n)
    decreases n
  {
    hide TableFits, PhdrOf, U16, U32, PhAt, PhdrAccepted, SegOf;
    if i < n - 1 {
      SegmentsHas(d, n - 1, i);
    }
  }

  /** No later header's segment covers the page. */
  ghost predicate Topmost(d: seq<byte>, i: nat, v: nat)
    requires Accepted(d) && i < PhNum(d)
  {
    forall j | i < j < PhNum(d) && PhdrOf(d, j).kind == PT_LOAD :: !Covers(SegOf(d, j), v)
  }

  /** The image at a page is that of the last header that covers it. */
  lemma {:induction false} TopmostImage(d: seq<byte>, n: nat, i: nat, a: nat)
    requires Accepted(d) && i < n <= PhNum(d) && PhdrOf(d, i).kind == PT_LOAD && Covers(SegOf(d, i), a / 4096)
    requires forall j | i < j < n && PhdrOf(d, j).kind == PT_LOAD :: !Covers(SegOf(d, j), a / 4096)
    ensures ImageByte(Segments(d, n), a) == SegByte(SegOf(d, i), a)
    ensures Writes(Segments(d, n), a / 4096) == SegOf(d, i).writable
    decreases n
  {
    hide TableFits, PhdrOf, U16, U32, PhAt, PhdrAccepted, SegOf, Covers, SegByte;
    var k := n - 1;
    if PhdrOf(d, k).kind == PT_LOAD { ImageSnoc(Segments(d, k), SegOf(d, k)); }
    if i < k {
      TopmostImage(d, k, i, a);
      assert PhdrOf(d, k).kind != PT_LOAD ==> Segments(d, n) == Segments(d, k) + [] == Segments(d, k);
    }
  }

  /** Main result: after a successful load, reading through the page tables gives, for every PT_LOAD
      header and every address of it whose page no later header takes over, the file bytes followed
      by zeros up to memsz. */
  lemma LoaderCorrect(m: Mem, h: Heap, d: seq<byte>, i: nat, a: u32)
    requires Inv(m) && ElfLoad(m, h, d).entry != 0 && Accepted(d) && i < PhNum(d) && PhdrOf(d, i).kind == PT_LOAD
    requires PhdrOf(d, i).vaddr + Bias(d) <= a < PhdrOf(d, i).vaddr + Bias(d) + PhdrOf(d, i).memsz
    requires Topmost(d, i, a / 4096)
    ensures var u := ElfLoad(m, h, d).mem.mmu; var p := PhdrOf(d, i); var k := a - p.vaddr - Bias(d);
      && p.offset + p.filesz <= |d|
      && UserAccessible(u, a / 4096)
      && Writable(Pte(u, a / 4096)) == (p.flags / 2 % 2 == 1)
      && Peek(u, a) == if k < p.filesz then d[p.offset + k] else 0
  {
    hide TableFits, UserAccessible, Segments, Writable, PhdrOf, SegOf, PhdrAccepted, U16, U32, PhAt, ElfLoad, Peek;
    hide Pte, Inv, Covers;
    SegFields(d, i);
    CoversByte(SegOf(d, i), a);
    SegmentsHas(d, PhNum(d), i);
    TopmostImage(d, PhNum(d), i, a);
    LoadedByte(m, h, d, a);
  }

  lemma LoadedByte(m: Mem, h: Heap, d: seq<byte>, a: u32)
    requires Inv(m) && ElfLoad(m, h, d).entry != 0 && Accepted(d) && Covered(Segments(d, PhNum(d)), a / 4096)
    ensures var u := ElfLoad(m, h, d).mem.mmu; var segs := Segments(d, PhNum(d));
      && UserAccessible(u, a / 4096) && Writable(Pte(u, a / 4096)) == Writes(segs, a / 4096)
      && Peek(u, a) == ImageByte(segs, a)
  {
    hide TableFits, UserAccessible, Segments, Writable, PhdrOf, PhdrAccepted, U16, U32, PhAt, Peek, Pte, Inv;
    hide LoadSegs, Init, MaxEnd, Wrap32, Covered, ImageByte, Writes;
    LoadShows(m, Segments(d, PhNum(d)), a);
  }

  lemma SegFields(d: seq<byte>, i: nat)
    requires Accepted(d) && i < PhNum(d) && PhdrOf(d, i).kind == PT_LOAD
    ensures var s := SegOf(d, i); var p := PhdrOf(d, i);
      && s.va == p.vaddr + Bias(d) && s.memsz == p.memsz && p.filesz <= p.memsz && s.va + p.memsz <= 0xC000_0000
      && p.offset + p.filesz <= |d| && |s.bytes| == p.filesz
      && (forall k | 0 <= k < p.filesz :: s.bytes[k] == d[p.offset + k])
      && s.writable == (p.flags / 2 % 2 == 1)
  {
    assert PhdrAccepted(PhdrOf(d, i), |d|, Bias(d));
  }

  /** Every accepted PT_LOAD range lies in user space in unbounded integers, below the heap base
      that a successful load sets, and success is told from failure by a nonzero entry point. */
  lemma LoaderRange(m: Mem, h: Heap, d: seq<byte>, i: nat)
    requires Inv(m) && HeapOk(h) && Accepted(d) && i < PhNum(d) && PhdrOf(d, i).kind == PT_LOAD
    ensures var r := ElfLoad(m, h, d); var p := PhdrOf(d, i); var va := p.vaddr + Bias(d);
      && USER_BASE <= va && va + p.memsz <= 0xC000_0000
      && (r.entry != 0 <==> LoadSegs(m, Segments(d, PhNum(d)), []).ok)
      && (r.entry != 0 ==> USER_BASE <= r.entry <= USER_TOP && Inv(r.mem))
      && HeapOk(r.heap)
      && (r.entry != 0 && (p.memsz > 0 || va % 4096 != 0) ==> va + p.memsz <= r.heap.base)
  {
    hide LoadSegs, Inv, Segments, U32, U16, RangeAccepted, PhdrOf, PhNum, Bias, EEntry, MaxEnd, HeapOk, Init;
    hide FirstPage, EndPage, SegOf;
    var segs := Segments(d, PhNum(d));
    var s := SegOf(d, i);
    SegmentsHas(d, PhNum(d), i);
    TakesPage(s);
    InitAt(MaxEnd(segs));
    if LoadSegs(m, segs, []).ok {
      LoadHolds(m, [], segs, []) by { HoldsNothing(m.mmu); }
    }
  }

  /** A segment takes a page unless it is empty and starts on a page boundary. */
  lemma TakesPage(s: Seg)
    requires SegOk(s)
    ensures USER_BASE <= s.va && s.va + s.memsz <= 0xC000_0000
    ensures FirstPage(s) < EndPage(s) <==> s.memsz > 0 || s.va % 4096 != 0
  {
  }

  lemma InitAt(top: u32)
    requires USER_BASE <= top <= 0xC000_0000 && top % 4096 == 0
    ensures Init(top).base == top && HeapOk(Init(top))
  {
  }

  // ---- When a load succeeds, and what a failed one leaves ----

  /** The file is accepted, the record table holds its pages, and the free frames cover every page that
      is not mapped yet and every table that is missing. */
  ghost predicate Loadable(m: Mem, d: seq<byte>) {
    && Accepted(d)
    && var segs := Segments(d, PhNum(d)); TotalPages(segs) <= MAX_PAGES && Affords(m, CoveredPages(segs))
  }

  /** The pages a load gets to: all of them in order, or up to the one the free frames do not cover. */
  ghost function Touched(m: Mem, d: seq<byte>): (ts: seq<nat>)
    ensures UserOnly(ts)
  {
    if Accepted(d) then Until(m, {}, PageList(Segments(d, PhNum(d)), 0)) else []
  }

  /** Main result: elf_load succeeds if and only if the file is loadable in the state before the call. */
  lemma LoaderSucceeds(m: Mem, h: Heap, d: seq<byte>)
    requires Inv(m)
    ensures ElfLoad(m, h, d).entry != 0 <==> Loadable(m, d)
  {
    hide LoadSegs, Inv, Segments, U32, U16, MaxEnd, Affords, TotalPages, CoveredPages, PhdrOf;
    if Accepted(d) { LoadBudget(m, Segments(d, PhNum(d))); }
  }

  lemma LoadBudget(m: Mem, segs: seq<Seg>)
    requires Inv(m) && SegsOk(segs)
    ensures LoadSegs(m, segs, []).ok <==> TotalPages(segs) <= MAX_PAGES && Affords(m, CoveredPages(segs))
    ensures ReachedBy(m, segs, []) == Until(m, {}, PageList(segs, 0))
  {
    hide LoadSegs, Inv, Affords, Until, ReachedBy;
    AfterNone(m);
    LoadSegsBudget(m, m, {}, segs, []);
    assert {} + CoveredPages(segs) == CoveredPages(segs);
  }

  /** Main result: a load that returns 0 leaves the heap alone, unmaps the pages it got to and frees
      exactly their frames, new page tables excepted; so it restores the page map if and only if
      none of those pages was mapped. */
  lemma LoaderRollsBack(m: Mem, h: Heap, d: seq<byte>)
    requires Inv(m) && !Loadable(m, d)
    ensures var r := ElfLoad(m, h, d); var ts := SetOf(Touched(m, d));
      && r.entry == 0 && Inv(r.mem) && r.heap == h
      && PageMap(r.mem.mmu) == PageMap(m.mmu) - ts
      && UsedSet(r.mem.pmm) == UsedSet(m.pmm) - FramesOf(m.mmu, ts) + (TableSet(r.mem.mmu) - TableSet(m.mmu))
      && (PageMap(r.mem.mmu) == PageMap(m.mmu) <==> forall v: nat | v in ts :: !Mapped(m.mmu, v))
  {
    hide Pte, Pde, LoadSegs, Inv, PageMap, UsedSet, TableSet, Segments, U32, U16, Mapped, FramesOf, Until, Loadable;
    hide PageList, ElfLoad, Touched;
    LoaderSucceeds(m, h, d);
    FailedIs(m, h, d);
    if Accepted(d) {
      FailedLoad(m, Segments(d, PhNum(d)));
    } else {
      NothingTouched(m);
    }
  }

  lemma FailedIs(m: Mem, h: Heap, d: seq<byte>)
    requires ElfLoad(m, h, d).entry == 0
    ensures !Accepted(d) ==> ElfLoad(m, h, d) == Loaded(m, h, 0) && Touched(m, d) == []
    ensures Accepted(d) ==> var segs := Segments(d, PhNum(d));
      && !LoadSegs(m, segs, []).ok && ElfLoad(m, h, d) == Loaded(LoadSegs(m, segs, []).mem, h, 0)
      && Touched(m, d) == Until(m, {}, PageList(segs, 0))
  {
    hide LoadSegs, Segments, U32, U16, MaxEnd, PhdrOf, Until;
  }

  lemma FailedLoad(m: Mem, segs: seq<Seg>)
    requires Inv(m) && SegsOk(segs) && !LoadSegs(m, segs, []).ok
    ensures var r := LoadSegs(m, segs, []).mem; var ts := SetOf(Until(m, {}, PageList(segs, 0)));
      && Inv(r) && PageMap(r.mmu) == PageMap(m.mmu) - ts
      && UsedSet(r.pmm) == UsedSet(m.pmm) - FramesOf(m.mmu, ts) + (TableSet(r.mmu) - TableSet(m.mmu))
      && (PageMap(r.mmu) == PageMap(m.mmu) <==> forall v: nat | v in ts :: !Mapped(m.mmu, v))
  {
    hide Pte, Pde, LoadSegs, Inv, PageMap, UsedSet, TableSet, Mapped, FramesOf, Until, PageList, ReachedBy, Without;
    LoadBudget(m, segs);
    var ts := ReachedBy(m, segs, []);
    GrewRefl(m);
    assert Virts([]) == {};
    LoadSegsInv(m, segs, []);
    LoadRollsBack(m, m, segs, []);
    var b := Without(m, ts);
    var r := LoadSegs(m, segs, []).mem;
    WithoutSpec(m, ts);
    SamePageMap(b, r);
    NothingLost(b, r);
    WithoutPages(m, b, ts);
  }

  lemma NothingTouched(m: Mem)
    ensures SetOf([]) == {} && FramesOf(m.mmu, {}) == {} && PageMap(m.mmu) - {} == PageMap(m.mmu)
  {
  }

  lemma WithoutPages(m: Mem, b: Mem, ts: seq<nat>)
    requires UserOnly(ts) && forall v: nat | v in ts :: !Mapped(b.mmu, v)
    requires forall v: nat | v < PAGES && v !in ts :: Pte(b.mmu, v) == Pte(m.mmu, v)
    ensures PageMap(b.mmu) == PageMap(m.mmu) - SetOf(ts)
    ensures PageMap(m.mmu) - SetOf(ts) == PageMap(m.mmu) <==> forall v: nat | v in SetOf(ts) :: !Mapped(m.mmu, v)
  {
    hide Pte, Present;
    forall v: nat | v in SetOf(ts) && Mapped(m.mmu, v)
      ensures v in PageMap(m.mmu) && v !in PageMap(m.mmu) - SetOf(ts)
    {
    }
  }
}
