/** elf_load over already decoded segments (kernel/elf.c:109-120, 213-292). */
module Loader {
  import opened Words
  import opened Frames
  import opened Paging
  import opened Memory
  import opened Ownership
  import opened UserHeap
  import opened Access

  const MAX_PAGES := 2048

  datatype Seg = Seg(va: u32, bytes: seq<byte>, memsz: nat, writable: bool)

  predicate SegOk(s: Seg) {
    USER_BASE <= s.va && s.va + s.memsz <= 0xC000_0000 && |s.bytes| <= s.memsz
  }

  function FirstPage(s: Seg): nat { s.va / 4096 }
  function EndPage(s: Seg): (r: nat)
    ensures FirstPage(s) <= r
    ensures SegOk(s) ==> UserPages(FirstPage(s), r)
  {
    (s.va + s.memsz + 4095) / 4096
  }
  function Flags(s: Seg): nat { if s.writable then 7 else 5 }

  predicate Covers(s: Seg, v: nat) { FirstPage(s) <= v < EndPage(s) }

  datatype Rec = Rec(virt: nat, phys: nat)
  datatype Load = Load(mem: Mem, recs: seq<Rec>, ok: bool)
  datatype PageLoad = PageLoad(mem: Mem, frame: nat)

  /** One page of a segment: drop an existing mapping, take a frame, map it, check, clear it. */
  function LoadPage(m: Mem, v: nat, flags: nat): PageLoad
    requires v < PAGES && flags < 4096
  {
    var m1 := ReleasePage(m, v);
    var g := AllocFrame(m1.pmm);
    if g.frame == 0 then PageLoad(m1, 0)
    else
      var m2 := MapPage(Mem(g.pmm, m1.mmu), v, g.frame, flags);
      if Translate(m2.mmu, v * 4096) != g.frame * 4096 then PageLoad(Mem(FreeFrame(m2.pmm, g.frame), m2.mmu), 0)
      else PageLoad(Mem(m2.pmm, Write(m2.mmu, v * 4096, ZeroFrame())), g.frame)
  }

  predicate RecsInRange(recs: seq<Rec>) {
    forall r | r in recs :: r.virt < PAGES
  }

  /** cleanup_mapped_pages. */
  function Cleanup(m: Mem, recs: seq<Rec>): Mem
    requires RecsInRange(recs)
    decreases |recs|
  {
    if recs == [] then m
    else Cleanup(Mem(FreeFrame(m.pmm, recs[0].phys), Unmap(m.mmu, recs[0].virt)), recs[1..])
  }

  lemma RecsSnoc(recs: seq<Rec>, r: Rec)
    requires RecsInRange(recs) && r.virt < PAGES
    ensures RecsInRange(recs + [r])
  {
  }

  function LoadPages(m: Mem, v: nat, hi: nat, flags: nat, recs: seq<Rec>): (l: Load)
    requires v <= hi <= PAGES && flags < 4096 && RecsInRange(recs)
    ensures RecsInRange(l.recs) && (l.ok ==> |l.recs| == |recs| + hi - v)
    decreases hi - v
  {
    if v == hi then Load(m, recs, true)
    else
      var p := LoadPage(m, v, flags);
      if p.frame == 0 then Load(Cleanup(p.mem, recs), recs, false)
      else
        RecsSnoc(recs, Rec(v, p.frame));
        LoadPages(p.mem, v + 1, hi, flags, recs + [Rec(v, p.frame)])
  }

  /** memcpy of the file bytes, then memset of the rest. */
  function Fill(u: Mmu, s: Seg): Mmu
    requires SegOk(s)
  {
    Write(Write(u, s.va, s.bytes), s.va + |s.bytes|, seq(s.memsz - |s.bytes|, _ => 0))
  }

  predicate SegsOk(segs: seq<Seg>) {
    forall s | s in segs :: SegOk(s)
  }

  function LoadSegs(m: Mem, segs: seq<Seg>, recs: seq<Rec>): (l: Load)
    requires SegsOk(segs) && RecsInRange(recs)
    ensures RecsInRange(l.recs)
    decreases |segs|
  {
    if segs == [] then Load(m, recs, true)
    else
      var s := segs[0];
      assert SegOk(s);
      var n := EndPage(s) - FirstPage(s);
      if n == 0 then LoadSegs(m, segs[1..], recs)
      else if n > MAX_PAGES - |recs| then Load(Cleanup(m, recs), recs, false)
      else
        var l := LoadPages(m, FirstPage(s), EndPage(s), Flags(s), recs);
        if !l.ok then l
        else LoadSegs(Mem(l.mem.pmm, Fill(l.mem.mmu, s)), segs[1..], l.recs)
  }

  // ---- One page ----

  /** The states inside LoadPage: after the release, after the allocation, after the mapping. */
  lemma LoadPageSteps(m: Mem, v: nat, flags: nat)
    requires Inv(m) && UserPages(v, v + 1) && (flags == 5 || flags == 7)
    ensures var m1 := ReleasePage(m, v); var g := AllocFrame(m1.pmm); var m1' := Mem(g.pmm, m1.mmu);
      var p := LoadPage(m, v, flags);
      && Inv(m1) && !Mapped(m1.mmu, v)
      && (g.frame == 0 ==> p == PageLoad(m1, 0))
      && (g.frame != 0 ==> Inv(m1') && Used(g.pmm, g.frame) && Unowned(m1.mmu, g.frame))
      && (g.frame != 0 && !CanMap(m1', v) ==> p == PageLoad(Mem(FreeFrame(g.pmm, g.frame), m1.mmu), 0))
      && (g.frame != 0 && CanMap(m1', v) ==>
            var m2 := MapPage(m1', v, g.frame, flags);
            && Inv(m2) && Pte(m2.mmu, v) == Entry(g.frame, flags) && Occupied(m2.mmu, v) && Frm(m2.mmu, v) == g.frame
            && p == PageLoad(Mem(m2.pmm, Write(m2.mmu, v * 4096, ZeroFrame())), g.frame))
  {
    hide Pde, Pte, At, UserBit, Writable, Entry, MapPage, Unmap, FreeFrame, AllocFrame, Write, ReleasePage, IsTable;
    hide UsedSet;
    ReleasePageStep(m, v);
    if Mapped(m.mmu, v) { UnmapSpec(m.mmu, v); }
    var m1 := ReleasePage(m, v);
    var g := AllocFrame(m1.pmm);
    AllocInv(m1);
    if g.frame != 0 {
      var m1' := Mem(g.pmm, m1.mmu);
      MapPageSpec(m1', v, g.frame, flags);
      assert v * 4096 / 4096 == v && v * 4096 % 4096 == 0;
      if CanMap(m1', v) {
        MapInv(m1', v, g.frame, flags);
      } else {
        assert Translate(m1.mmu, v * 4096) == 0;
      }
    }
  }

  /** What a loaded page looks like and what it leaves alone. */
  ghost predicate PageDone(m: Mem, r: Mem, v: nat, frame: nat, flags: nat)
    requires v < PAGES && flags < 4096
  {
    && frame < PAGES && Pte(r.mmu, v) == Entry(frame, flags)
    && (forall w: nat | w < PAGES && w != v :: Pte(r.mmu, w) == Pte(m.mmu, w))
    && (forall a: u32 | a / 4096 == v :: Peek(r.mmu, a) == 0)
    && (forall a: u32 | a / 4096 != v && Occupied(m.mmu, a / 4096) :: Peek(r.mmu, a) == Peek(m.mmu, a))
  }

  lemma LoadPageDone(m: Mem, v: nat, flags: nat)
    requires Inv(m) && UserPages(v, v + 1) && (flags == 5 || flags == 7) && LoadPage(m, v, flags).frame != 0
    ensures var p := LoadPage(m, v, flags); Inv(p.mem) && PageDone(m, p.mem, v, p.frame, flags)
  {
    hide Pde, Pte, At, UserBit, Writable, Present, FrameOf, Entry, MapPage, Unmap, FreeFrame, AllocFrame, Write;
    hide ReleasePage, IsTable, UsedSet, LoadPage, Peek;
    LoadPageSteps(m, v, flags);
    var m1 := ReleasePage(m, v);
    var g := AllocFrame(m1.pmm);
    var m1' := Mem(g.pmm, m1.mmu);
    var m2 := MapPage(m1', v, g.frame, flags);
    var p := LoadPage(m, v, flags);
    BackedPage(m2.mmu, v);
    WriteSpec(m2.mmu, v * 4096, ZeroFrame());
    SameViewInv(m2, p.mem.mmu);
    ReleaseOthers(m, v);
    MapOthers(m1', v, g.frame, flags);
    forall a: u32 | a / 4096 == v ensures Peek(p.mem.mmu, a) == 0 {
      assert v * 4096 <= a < v * 4096 + 4096;
    }
    forall a: u32 | a / 4096 != v && Occupied(m.mmu, a / 4096)
      ensures Peek(p.mem.mmu, a) == Peek(m.mmu, a)
    {
      assert !(v * 4096 <= a < v * 4096 + 4096);
      assert Peek(m1.mmu, a) == Peek(m.mmu, a);
      assert Peek(m2.mmu, a) == Peek(m1.mmu, a);
    }
  }

  lemma BackedPage(u: Mmu, v: nat)
    requires v < PAGES && Occupied(u, v)
    ensures Backed(u, v * 4096, 4096)
  {
    hide Occupied;
  }

  /** Dropping a page leaves the contents of every other tracked page in place. */
  lemma ReleaseOthers(m: Mem, v: nat)
    requires Inv(m) && Tracked(v)
    ensures forall w: nat | w < PAGES && w != v :: Pte(ReleasePage(m, v).mmu, w) == Pte(m.mmu, w)
    ensures forall a: u32 | a / 4096 != v && Occupied(m.mmu, a / 4096) ::
      Peek(ReleasePage(m, v).mmu, a) == Peek(m.mmu, a)
  {
    hide Pde, Pte, At, UserBit, Writable, Present, FrameOf, Unmap, FreeFrame, ReleasePage, IsTable;
    ReleasePageStep(m, v);
    if Mapped(m.mmu, v) { UnmapSpec(m.mmu, v); }
  }

  lemma MapOthers(m: Mem, v: nat, f: nat, flags: nat)
    requires Inv(m) && v < PAGES && f < PAGES && flags < 4096
    ensures forall w: nat | w < PAGES && w != v :: Pte(MapPage(m, v, f, flags).mmu, w) == Pte(m.mmu, w)
    ensures forall a: u32 | a / 4096 != v && Occupied(m.mmu, a / 4096) ::
      Peek(MapPage(m, v, f, flags).mmu, a) == Peek(m.mmu, a)
  {
    hide Pde, Pte, At, UserBit, Writable, Present, FrameOf, Entry, MapPage, IsTable, AllocFrame, UsedSet, TableSet;
    MapPageSpec(m, v, f, flags);
    forall a: u32 | a / 4096 != v && Occupied(m.mmu, a / 4096)
      ensures Peek(MapPage(m, v, f, flags).mmu, a) == Peek(m.mmu, a)
    {
      assert Used(m.pmm, Frm(m.mmu, a / 4096));
    }
  }

  lemma InvSeparate(m: Mem)
    requires Inv(m)
    ensures Separate(m.mmu)
  {
  }

  // ---- Several pages ----

  /** Pages lo..hi are mapped with these flags and read as zeros; every other page is as before. */
  ghost predicate PagesDone(m: Mem, r: Mem, lo: nat, hi: nat, flags: nat)
    requires lo <= hi <= PAGES && flags < 4096
  {
    && (forall w: nat | lo <= w < hi :: Frm(r.mmu, w) < PAGES && Pte(r.mmu, w) == Entry(Frm(r.mmu, w), flags))
    && (forall w: nat | w < PAGES && !(lo <= w < hi) :: Pte(r.mmu, w) == Pte(m.mmu, w))
    && (forall a: u32 | lo <= a / 4096 < hi :: Peek(r.mmu, a) == 0)
    && (forall a: u32 | !(lo <= a / 4096 < hi) && Occupied(m.mmu, a / 4096) :: Peek(r.mmu, a) == Peek(m.mmu, a))
  }

  lemma {:induction false} LoadPagesDone(m: Mem, v: nat, hi: nat, flags: nat, recs: seq<Rec>)
    requires Inv(m) && UserPages(v, hi) && (flags == 5 || flags == 7) && RecsInRange(recs)
    requires LoadPages(m, v, hi, flags, recs).ok
    ensures var l := LoadPages(m, v, hi, flags, recs); Inv(l.mem) && PagesDone(m, l.mem, v, hi, flags)
    decreases hi - v
  {
    hide LoadPage, Inv, Pte, Peek, Present, Entry;
    if v < hi {
      var p := LoadPage(m, v, flags);
      LoadPageDone(m, v, flags);
      assert Occupied(p.mem.mmu, v);
      LoadPagesDone(p.mem, v + 1, hi, flags, recs + [Rec(v, p.frame)]);
      assert forall w: nat | w != v :: Occupied(p.mem.mmu, w) <==> Occupied(m.mmu, w);
    }
  }
}
