/** The memory stack as the kernel runs it: a bitmap of bytes, a counter, physical memory and the
    break, all updated in place. Every method is tied to the function that specifies it. */
module Machine {
  import opened Words
  import opened Bitmap
  import opened Frames
  import opened Paging
  import opened Memory
  import opened Ownership
  import opened UserHeap
  import opened Access
  import opened Break
  import opened Loader
  import opened Image
  import opened Elf

  lemma FirstClearIs(used: seq<bool>, i: nat, j: nat)
    requires i <= j <= |used| && (j < |used| ==> !used[j]) && forall k | i <= k < j :: used[k]
    ensures FirstClear(used, i) == j
  {
  }

  lemma FindRunIs(used: seq<bool>, n: nat, s: nat)
    requires s <= |used| && (s < |used| ==> RunAt(used, s, n)) && forall t: nat | t < s :: !RunAt(used, t, n)
    ensures FindRun(used, n, 0) == s
  {
    var r := FindRun(used, n, 0);
    assert r < |used| ==> RunAt(used, r, n);
  }

  class Machine {
    const base: nat
    const total: nat
    var bitmap: array<bv8>
    var avail: u32
    var ram: map<nat, Frame>
    var pd: nat
    var heap: Heap

    ghost predicate Valid()
      reads this, bitmap
    {
      1 <= base && base + total <= PAGES && bitmap.Length == (total + 7) / 8
    }

    ghost function Pmm(): Pmm
      requires Valid()
      reads this, bitmap
    {
      Bits(base, Unpack(bitmap[..], total), avail)
    }

    ghost function View(): Mem
      requires Valid()
      reads this, bitmap
    {
      Mem(Pmm(), Mmu(ram, pd))
    }

    constructor (base: nat, total: nat, ram: map<nat, Frame>)
      requires 1 <= base && base + total <= PAGES
      ensures Valid() && fresh(bitmap) && this.base == base && this.total == total && this.ram == ram
      ensures Pmm() == Bits(base, seq(total, _ => false), total) && heap == Heap(0, 0, false)
    {
      this.base, this.total, this.ram, this.pd := base, total, ram, 0;
      var n := (total + 7) / 8;
      bitmap := new bv8[n](_ => 0);
      avail := total;
      heap := Heap(0, 0, false);
      new;
      assert Unpack(bitmap[..], total) == seq(total, _ => false);
    }

    /** bitmap_test for a managed page. */
    method Test(i: nat) returns (b: bool)
      requires Valid() && i < total
      ensures b == Pmm().used[i]
    {
      b := Bit(bitmap[i / 8], i % 8);
    }

    method Set(i: nat)
      requires Valid() && i < total
      modifies bitmap
      ensures Valid() && Pmm().used == old(Pmm().used)[i := true]
    {
      ghost var was := bitmap[..];
      bitmap[i / 8] := With(bitmap[i / 8], i % 8);
      UnpackSet(was, total, i);
      assert bitmap[..] == was[i / 8 := With(was[i / 8], i % 8)];
    }

    method Reset(i: nat)
      requires Valid() && i < total
      modifies bitmap
      ensures Valid() && Pmm().used == old(Pmm().used)[i := false]
    {
      ghost var was := bitmap[..];
      bitmap[i / 8] := Without(bitmap[i / 8], i % 8);
      UnpackClear(was, total, i);
      assert bitmap[..] == was[i / 8 := Without(was[i / 8], i % 8)];
    }

    /** pmm_alloc_page: a physical address, 0 when nothing is free. */
    method AllocPage() returns (addr: nat)
      requires Valid()
      modifies this`avail, bitmap
      ensures Valid()
      ensures Pmm() == AllocFrame(old(Pmm())).pmm && addr == AllocFrame(old(Pmm())).frame * 4096
    {
      ghost var p := Pmm();
      var i := 0;
      while i < total
        invariant 0 <= i <= total && Valid() && Pmm() == p
        invariant forall k | 0 <= k < i :: p.used[k]
      {
        var b := Test(i);
        if !b {
          FirstClearIs(p.used, 0, i);
          Set(i);
          avail := Wrap32(avail - 1);
          return (base + i) * 4096;
        }
        i := i + 1;
      }
      FirstClearIs(p.used, 0, i);
      return 0;
    }

    /** pmm_free_page. */
    method FreePage(addr: nat)
      requires Valid()
      modifies this`avail, bitmap
      ensures Valid() && Pmm() == FreeFrame(old(Pmm()), addr / 4096)
    {
      hide Unpack, Wrap32;
      if addr == 0 || addr < base * 4096 || addr >= (base + total) * 4096 { return; }
      GiveBack((addr - base * 4096) / 4096);
    }

    /** Clear the bit of page `i` and count it, if the page is managed and its bit is set. */
    method GiveBack(i: nat)
      requires Valid()
      modifies this`avail, bitmap
      ensures Valid() && Pmm() == FreeFrame(old(Pmm()), base + i)
    {
      if i < total {
        var b := Test(i);
        if b {
          Reset(i);
          avail := Wrap32(avail + 1);
        }
      }
    }

    /** pmm_alloc_blocks: one scan that counts consecutive clear pages. */
    method AllocRun(count: u32) returns (addr: nat)
      requires Valid()
      modifies this`avail, bitmap
      ensures Valid()
      ensures Pmm() == AllocBlocks(old(Pmm()), count).pmm && addr == AllocBlocks(old(Pmm()), count).frame * 4096
    {
      hide Unpack, Wrap32;
      ghost var p := Pmm();
      if count == 0 || count > avail { return 0; }
      var start, consecutive := 0, 0;
      var i := 0;
      while i < total
        invariant 0 <= i <= total && Valid() && Pmm() == p
        invariant 0 <= consecutive < count && consecutive <= i && (consecutive > 0 ==> start == i - consecutive)
        invariant forall k | i - consecutive <= k < i :: !p.used[k]
        invariant forall t: nat | t < i - consecutive :: !RunAt(p.used, t, count)
      {
        var b := Test(i);
        if !b {
          if consecutive == 0 { start := i; }
          consecutive := consecutive + 1;
          if consecutive >= count {
            FindRunIs(p.used, count, start);
            MarkRun(start, count);
            avail := Wrap32(avail - count);
            return (base + start) * 4096;
          }
        } else {
          assert forall t: nat | i - consecutive <= t <= i :: !RunAt(p.used, t, count);
          consecutive := 0;
        }
        i := i + 1;
      }
      assert forall t: nat | t < total :: !RunAt(p.used, t, count);
      FindRunIs(p.used, count, total);
      return 0;
    }

    method MarkRun(start: nat, count: nat)
      requires Valid() && start + count <= total
      modifies bitmap
      ensures Valid() && Pmm().used == SetRange(old(Pmm().used), start, count)
    {
      ghost var goal := SetRange(Pmm().used, start, count);
      var j := 0;
      while j < count
        invariant 0 <= j <= count && Valid() && goal == SetRange(Pmm().used, start + j, count - j)
      {
        Set(start + j);
        j := j + 1;
      }
    }

    /** pmm_free_blocks. */
    method FreeRun(addr: u32, count: u32)
      requires Valid()
      modifies this`avail, bitmap
      ensures Valid() && Pmm() == FreeBlocks(old(Pmm()), addr, count)
    {
      hide FreeBits, Unpack, Wrap32;
      if addr == 0 || count == 0 || addr < base * 4096 || addr >= (base + total) * 4096 { return; }
      var start := (addr - base * 4096) / 4096;
      var n := if Wrap32(start + count) > total then total - start else count;
      FreeLoop(start, n);
    }

    method FreeLoop(start: nat, n: nat)
      requires Valid()
      modifies this`avail, bitmap
      ensures Valid() && Pmm() == FreeBits(old(Pmm()), start, 0, n)
    {
      hide FreeFrame, Unpack, Wrap32;
      ghost var goal := FreeBits(Pmm(), start, 0, n);
      var i := 0;
      while i < n
        invariant 0 <= i <= n && Valid() && goal == FreeBits(Pmm(), start, i, n)
      {
        GiveBack(Wrap32(start + i));
        i := i + 1;
      }
    }

    // ---- Paging ----

    /** map_page. */
    method MapPage(virt: u32, phys: nat, flags: nat)
      requires Valid() && phys / 4096 < PAGES && flags < 4096
      modifies this`avail, this`ram, bitmap
      ensures Valid() && View() == Memory.MapPage(old(View()), virt / 4096, phys / 4096, flags)
    {
      hide Unpack, AllocFrame, WriteWord, ReadWord, Present, FrameOf, Entry;
      var i, j := virt / 0x40_0000, virt / 4096 % ENTRIES;
      assert i == virt / 4096 / ENTRIES;
      if !Present(Pde(Mmu(ram, pd), i)) {
        ghost var p := Pmm();
        var table := AllocPage();
        if table == 0 { NoFrame(p); return; }
        ram := ram[table / 4096 := ZeroFrame()];
        var dirFlags := if flags / 4 % 2 == 1 then 7 else 3;
        StoreWord(pd, i, Entry(table / 4096, dirFlags));
      }
      StoreWord(FrameOf(Pde(Mmu(ram, pd), i)), j, Entry(phys / 4096, flags));
    }

    method StoreWord(f: nat, i: nat, w: u32)
      requires Valid() && i < ENTRIES
      modifies this`ram
      ensures Valid() && Mmu(ram, pd) == Store(old(Mmu(ram, pd)), f, i, w)
    {
      ram := ram[f := WriteWord(At(Mmu(ram, pd), f), i, w)];
    }

    /** unmap_page. */
    method UnmapPage(virt: u32)
      requires Valid()
      modifies this`ram
      ensures Valid() && Mmu(ram, pd) == Unmap(old(Mmu(ram, pd)), virt / 4096)
    {
      hide Unpack, WriteWord, ReadWord, Present, FrameOf, Entry;
      var i, j := virt / 0x40_0000, virt / 4096 % ENTRIES;
      assert i == virt / 4096 / ENTRIES;
      if !Present(Pde(Mmu(ram, pd), i)) { return; }
      StoreWord(FrameOf(Pde(Mmu(ram, pd), i)), j, 0);
    }

    /** get_physical_address. */
    method PhysicalAddress(virt: u32) returns (r: nat)
      requires Valid()
      ensures r == Translate(Mmu(ram, pd), virt)
    {
      hide WriteWord, ReadWord, Present;
      var i, j := virt / 0x40_0000, virt / 4096 % ENTRIES;
      assert i == virt / 4096 / ENTRIES;
      var e := Pde(Mmu(ram, pd), i);
      if !Present(e) { NoTable(Mmu(ram, pd), virt / 4096); return 0; }
      var t := ReadWord(At(Mmu(ram, pd), FrameOf(e)), j);
      if !Present(t) { return 0; }
      return FrameOf(t) * 4096 + virt % 4096;
    }

    /** A store of bytes at a virtual address. */
    method CopyTo(virt: nat, bs: seq<byte>)
      requires Valid() && virt + |bs| <= 0x1_0000_0000
      modifies this`ram
      ensures Valid() && Mmu(ram, pd) == Write(old(Mmu(ram, pd)), virt, bs)
    {
      hide Unpack, Mapped, Pte, At;
      ghost var goal := Write(Mmu(ram, pd), virt, bs);
      var i := 0;
      assert bs[0..] == bs;
      while i < |bs|
        invariant 0 <= i <= |bs| && Valid() && goal == Write(Mmu(ram, pd), virt + i, bs[i..])
      {
        assert bs[i..][0] == bs[i] && bs[i..][1..] == bs[i + 1..];
        ram := Poke(Mmu(ram, pd), virt + i, bs[i]).ram;
        i := i + 1;
      }
    }

    // ---- The break ----

    method ReleaseOne(v: nat)
      requires Valid() && v < PAGES
      modifies this`avail, this`ram, bitmap
      ensures Valid() && View() == ReleasePage(old(View()), v)
    {
      hide Unpack, FreeFrame, Unmap, Translate;
      var phys := PhysicalAddress(v * 4096);
      if phys != 0 {
        assert v * 4096 / 4096 == v;
        UnmapPage(v * 4096);
        FreePage(phys);
      }
    }

    method ReleaseRange(lo: nat, hi: nat)
      requires Valid() && lo <= hi <= PAGES
      modifies this`avail, this`ram, bitmap
      ensures Valid() && View() == Release(old(View()), lo, hi)
    {
      hide Unpack, ReleasePage;
      ghost var goal := Release(View(), lo, hi);
      var v := lo;
      while v < hi
        invariant lo <= v <= hi && Valid() && goal == Release(View(), v, hi)
      {
        ReleaseOne(v);
        v := v + 1;
      }
    }

    method GrowRange(lo: nat, hi: nat) returns (ok: bool)
      requires Valid() && lo <= hi <= PAGES
      modifies this`avail, this`ram, bitmap
      ensures Valid() && Grown(View(), ok) == Grow(old(View()), lo, lo, hi)
    {
      hide Unpack, AllocFrame, Memory.MapPage, Release;
      ghost var goal := Grow(View(), lo, lo, hi);
      var v := lo;
      while v < hi
        invariant lo <= v <= hi && Valid() && goal == Grow(View(), lo, v, hi)
      {
        ghost var m := View();
        var phys := AllocPage();
        if phys == 0 {
          assert View() == m by { NoFrame(m.pmm); }
          ReleaseRange(lo, v);
          return false;
        }
        MapPage(v * 4096, phys, 7);
        assert v * 4096 / 4096 == v;
        v := v + 1;
      }
      return true;
    }

    /** user_sbrk. */
    method SbrkCall(inc: i32) returns (ret: u32)
      requires Valid()
      modifies this`avail, this`ram, this`heap, bitmap
      ensures Valid() && Outcome(View(), heap, ret) == Sbrk(old(View()), old(heap), inc)
    {
      hide Unpack, Grow, Release, AlignUp, Wrap32;
      if !heap.ready { return FAIL; }
      var oldBrk := heap.brk;
      if inc == 0 { return oldBrk; }
      var brk := Wrap32(oldBrk + inc);
      if brk < heap.base || brk > USER_HEAP_LIMIT { return FAIL; }
      if inc > 0 {
        var start, end := PageUp(oldBrk), PageUp(brk);
        if start < end {
          var ok := GrowRange(start, end);
          if !ok { return FAIL; }
        }
      } else {
        var start, end := PageUp(brk), PageUp(oldBrk);
        if start < end { ReleaseRange(start, end); }
      }
      heap := heap.(brk := brk);
      return oldBrk;
    }

    /** user_brk. */
    method BrkCall(addr: u32) returns (ret: u32)
      requires Valid()
      modifies this`avail, this`ram, this`heap, bitmap
      ensures Valid() && Outcome(View(), heap, ret) == Brk(old(View()), old(heap), addr)
    {
      hide Unpack, Sbrk, Signed32;
      if !heap.ready { return FAIL; }
      var target := if addr == 0 then heap.brk else addr;
      if target < heap.base || target > USER_HEAP_LIMIT { return FAIL; }
      if target != heap.brk {
        var r := SbrkCall(Signed32(target - heap.brk));
        if r == FAIL { return FAIL; }
      }
      return 0;
    }

    // ---- The loader ----

    /** cleanup_mapped_pages. */
    method CleanUp(recs: seq<Rec>)
      requires Valid() && RecsInRange(recs)
      modifies this`avail, this`ram, bitmap
      ensures Valid() && View() == Cleanup(old(View()), recs)
    {
      hide Unpack, FreeFrame, Unmap;
      ghost var goal := Cleanup(View(), recs);
      var i := 0;
      assert recs[0..] == recs;
      while i < |recs|
        invariant 0 <= i <= |recs| && Valid() && RecsInRange(recs[i..]) && goal == Cleanup(View(), recs[i..])
      {
        assert recs[i] in recs && recs[i..][0] == recs[i] && recs[i..][1..] == recs[i + 1..];
        UnmapPage(recs[i].virt * 4096);
        assert recs[i].virt * 4096 / 4096 == recs[i].virt;
        GiveFrame(recs[i].phys);
        i := i + 1;
      }
    }

    method GiveFrame(f: nat)
      requires Valid()
      modifies this`avail, bitmap
      ensures Valid() && Pmm() == FreeFrame(old(Pmm()), f)
    {
      FreePage(f * 4096);
    }

    /** The body of the page loop of elf_load; 0 when the page could not be set up. */
    method LoadOne(v: nat, flags: nat) returns (frame: nat)
      requires Valid() && v < PAGES && flags < 4096
      modifies this`avail, this`ram, bitmap
      ensures Valid() && PageLoad(View(), frame) == LoadPage(old(View()), v, flags)
    {
      hide Unpack, AllocFrame, FreeFrame, Memory.MapPage, ReleasePage, Translate, Write;
      ReleaseOne(v);
      ghost var m := View();
      var phys := AllocPage();
      if phys == 0 { NoFrame(m.pmm); return 0; }
      MapPage(v * 4096, phys, flags);
      assert v * 4096 / 4096 == v;
      var back := PhysicalAddress(v * 4096);
      if back != phys {
        FreePage(phys);
        return 0;
      }
      CopyTo(v * 4096, ZeroFrame());
      return phys / 4096;
    }

    method LoadRange(lo: nat, hi: nat, flags: nat, before: seq<Rec>) returns (recs: seq<Rec>, ok: bool)
      requires Valid() && lo <= hi <= PAGES && flags < 4096 && RecsInRange(before)
      modifies this`avail, this`ram, bitmap
      ensures Valid() && Load(View(), recs, ok) == LoadPages(old(View()), lo, hi, flags, before)
    {
      hide Unpack, LoadPage, Cleanup;
      ghost var goal := LoadPages(View(), lo, hi, flags, before);
      recs := before;
      var v := lo;
      while v < hi
        invariant lo <= v <= hi && Valid() && RecsInRange(recs) && goal == LoadPages(View(), v, hi, flags, recs)
      {
        var frame := LoadOne(v, flags);
        if frame == 0 {
          CleanUp(recs);
          return recs, false;
        }
        recs := recs + [Rec(v, frame)];
        v := v + 1;
      }
      return recs, true;
    }

    method LoadSegment(s: Seg, before: seq<Rec>) returns (recs: seq<Rec>, ok: bool)
      requires Valid() && SegOk(s) && FirstPage(s) < EndPage(s) && RecsInRange(before)
      modifies this`avail, this`ram, bitmap
      ensures Valid()
      ensures var l := LoadPages(old(View()), FirstPage(s), EndPage(s), Flags(s), before);
        recs == l.recs && ok == l.ok && View() == if ok then Mem(l.mem.pmm, Fill(l.mem.mmu, s)) else l.mem
    {
      hide Unpack, LoadPages, Write;
      recs, ok := LoadRange(FirstPage(s), EndPage(s), Flags(s), before);
      if ok {
        CopyTo(s.va, s.bytes);
        CopyTo(s.va + |s.bytes|, seq(s.memsz - |s.bytes|, _ => 0));
      }
    }

    /** One PT_LOAD header of the elf_load loop. */
    method LoadHeader(s: Seg, ghost rest: seq<Seg>, before: seq<Rec>) returns (recs: seq<Rec>, ok: bool)
      requires Valid() && SegOk(s) && SegsOk(rest) && RecsInRange(before) && |before| <= MAX_PAGES
      modifies this`avail, this`ram, bitmap
      ensures Valid() && RecsInRange(recs) && |recs| <= MAX_PAGES
      ensures var l := LoadSegs(old(View()), [s] + rest, before);
        if ok then l == LoadSegs(View(), rest, recs) else !l.ok && l.mem == View()
    {
      hide Unpack, Cleanup, LoadPages, Fill, LoadSegs, SegOk, SegsOk, EndPage, FirstPage, Flags;
      LoadSegsCons(View(), s, rest, before);
      var n := EndPage(s) - FirstPage(s);
      if n == 0 { return before, true; }
      if n > MAX_PAGES - |before| {
        CleanUp(before);
        return before, false;
      }
      PagesRecsCount(View(), s, before);
      recs, ok := LoadSegment(s, before);
    }

    /** elf_load: the entry point, or 0. */
    method Exec(d: seq<byte>) returns (entry: u32)
      requires Valid()
      modifies this`avail, this`ram, this`heap, bitmap
      ensures Valid() && Loaded(View(), heap, entry) == ElfLoad(old(View()), old(heap), d)
    {
      hide Unpack, TableFits, U16, U32, SegOf, PhdrOf, LoadSegs, Segments, MaxEnd, SegmentsFrom;
      var valid := Validate(d);
      if valid != 0 { return 0; }
      ghost var goal := LoadSegs(View(), Segments(d, PhNum(d)), []);
      SegmentsStart(d);
      var recs: seq<Rec>, maxEnd: u32 := [], USER_BASE;
      var i := 0;
      while i < PhNum(d)
        invariant 0 <= i <= PhNum(d) && Valid() && heap == old(heap)
        invariant RecsInRange(recs) && |recs| <= MAX_PAGES
        invariant goal == LoadSegs(View(), SegmentsFrom(d, i), recs)
        invariant maxEnd == MaxEnd(Segments(d, i))
      {
        SegmentsNext(d, i);
        if PhdrOf(d, i).kind == PT_LOAD {
          var s := SegOf(d, i);
          var ok;
          recs, ok := LoadHeader(s, SegmentsFrom(d, i + 1), recs);
          if !ok { return 0; }
          if FirstPage(s) < EndPage(s) && EndPage(s) * 4096 > maxEnd { maxEnd := EndPage(s) * 4096; }
        }
        i := i + 1;
      }
      SegmentsEnd(d, View(), recs);
      heap := Break.Init(maxEnd);
      entry := Wrap32(EEntry(d) + Bias(d));
    }
  }

  lemma LoadSegsCons(m: Mem, s: Seg, rest: seq<Seg>, recs: seq<Rec>)
    requires SegOk(s) && SegsOk(rest) && RecsInRange(recs)
    ensures SegsOk([s] + rest)
    ensures LoadSegs(m, [s] + rest, recs) ==
      var n := EndPage(s) - FirstPage(s);
      if n == 0 then LoadSegs(m, rest, recs)
      else if n > MAX_PAGES - |recs| then Load(Cleanup(m, recs), recs, false)
      else
        var l := LoadPages(m, FirstPage(s), EndPage(s), Flags(s), recs);
        if l.ok then LoadSegs(Mem(l.mem.pmm, Fill(l.mem.mmu, s)), rest, l.recs) else l
  {
    hide Cleanup, LoadPages, Fill, SegOk, Flags;
    assert ([s] + rest)[0] == s && ([s] + rest)[1..] == rest;
  }

  lemma PagesRecsCount(m: Mem, s: Seg, recs: seq<Rec>)
    requires SegOk(s) && RecsInRange(recs) && EndPage(s) - FirstPage(s) <= MAX_PAGES - |recs|
    ensures var l := LoadPages(m, FirstPage(s), EndPage(s), Flags(s), recs);
      RecsInRange(l.recs) && |l.recs| <= MAX_PAGES
  {
    PagesLength(m, FirstPage(s), EndPage(s), Flags(s), recs);
  }

  lemma {:induction false} PagesLength(m: Mem, v: nat, hi: nat, flags: nat, recs: seq<Rec>)
    requires v <= hi <= PAGES && flags < 4096 && RecsInRange(recs)
    ensures |LoadPages(m, v, hi, flags, recs).recs| <= |recs| + hi - v
    decreases hi - v
  {
    hide LoadPage, Cleanup;
    if v < hi && LoadPage(m, v, flags).frame != 0 {
      PagesLength(LoadPage(m, v, flags).mem, v + 1, hi, flags, recs + [Rec(v, LoadPage(m, v, flags).frame)]);
    }
  }

  lemma SegmentsStart(d: seq<byte>)
    requires Accepted(d)
    ensures SegmentsFrom(d, 0) == Segments(d, PhNum(d)) && MaxEnd(Segments(d, 0)) == USER_BASE
  {
    SegmentsSplit(d, 0);
    assert Segments(d, 0) == [];
    assert [] + SegmentsFrom(d, 0) == SegmentsFrom(d, 0);
  }

  lemma SegmentsNext(d: seq<byte>, i: nat)
    requires Accepted(d) && i < PhNum(d)
    ensures PhdrOf(d, i).kind != PT_LOAD ==>
      SegmentsFrom(d, i) == SegmentsFrom(d, i + 1) && Segments(d, i + 1) == Segments(d, i)
    ensures PhdrOf(d, i).kind == PT_LOAD ==>
      var s := SegOf(d, i); var was := MaxEnd(Segments(d, i));
      && SegmentsFrom(d, i) == [s] + SegmentsFrom(d, i + 1)
      && MaxEnd(Segments(d, i + 1)) ==
        if FirstPage(s) < EndPage(s) && EndPage(s) * 4096 > was then EndPage(s) * 4096 else was
  {
    hide TableFits, U16, U32, SegOf, PhdrOf, EndPage;
    if PhdrOf(d, i).kind == PT_LOAD {
      var segs := Segments(d, i + 1);
      assert segs[|segs| - 1] == SegOf(d, i) && segs[..|segs| - 1] == Segments(d, i);
    } else {
      assert Segments(d, i + 1) == Segments(d, i) + [];
      assert SegmentsFrom(d, i) == [] + SegmentsFrom(d, i + 1);
    }
  }

  lemma SegmentsEnd(d: seq<byte>, m: Mem, recs: seq<Rec>)
    requires Accepted(d) && RecsInRange(recs)
    ensures LoadSegs(m, SegmentsFrom(d, PhNum(d)), recs) == Load(m, recs, true)
  {
  }

  lemma NoFrame(p: Pmm)
    requires AllocFrame(p).frame == 0
    ensures AllocFrame(p).pmm == p
  {
  }

  /** The PT_LOAD segments from header `i` on. */
  function SegmentsFrom(d: seq<byte>, i: nat): (segs: seq<Seg>)
    requires Accepted(d) && i <= PhNum(d)
    ensures SegsOk(segs)
    decreases PhNum(d) - i
  {
    if i == PhNum(d) then []
    else (if PhdrOf(d, i).kind == PT_LOAD then [SegOf(d, i)] else []) + SegmentsFrom(d, i + 1)
  }

  lemma {:induction false} SegmentsSplit(d: seq<byte>, i: nat)
    requires Accepted(d) && i <= PhNum(d)
    ensures Segments(d, i) + SegmentsFrom(d, i) == Segments(d, PhNum(d))
    decreases PhNum(d) - i
  {
    hide TableFits, U16, U32, SegOf, PhdrOf;
    if i < PhNum(d) {
      SegmentsSplit(d, i + 1);
    }
  }
}
