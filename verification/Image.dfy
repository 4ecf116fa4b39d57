/** What elf_load leaves in memory, and what it gives back when it fails. */
module Image {
  import opened Words
  import opened Frames
  import opened Paging
  import opened Memory
  import opened Ownership
  import opened UserHeap
  import opened Access
  import opened Loader

  ghost predicate Covered(segs: seq<Seg>, v: nat) {
    exists s :: s in segs && Covers(s, v)
  }

  function SegByte(s: Seg, a: nat): byte {
    if s.va <= a < s.va + |s.bytes| then s.bytes[a - s.va] else 0
  }

  /** The byte a program must see at `a`: the last segment that covers the page decides. */
  function ImageByte(segs: seq<Seg>, a: nat): byte {
    if segs == [] then 0
    else
      var s := segs[|segs| - 1];
      if Covers(s, a / 4096) then SegByte(s, a) else ImageByte(segs[..|segs| - 1], a)
  }

  function Writes(segs: seq<Seg>, v: nat): bool {
    if segs == [] then false
    else
      var s := segs[|segs| - 1];
      if Covers(s, v) then s.writable else Writes(segs[..|segs| - 1], v)
  }

  /** Every page covered so far is mapped for the user with the right write bit and holds its image. */
  ghost predicate Holds(u: Mmu, segs: seq<Seg>) {
    && (forall v: nat | Covered(segs, v) ::
      Occupied(u, v) && UserBit(Pte(u, v)) && Writable(Pte(u, v)) == Writes(segs, v))
    && (forall a: u32 | Covered(segs, a / 4096) :: Peek(u, a) == ImageByte(segs, a))
  }

  lemma FillSpec(u: Mmu, s: Seg)
    requires SegOk(s) && Separate(u) && forall v: nat | Covers(s, v) :: Occupied(u, v)
    ensures var r := Fill(u, s);
      && SameView(u, r) && Separate(r)
      && (forall a: u32 | Occupied(u, a / 4096) ::
        Peek(r, a) == if s.va <= a < s.va + s.memsz then SegByte(s, a) else Peek(u, a))
  {
    hide Pde, Pte, Peek, Write, Separate, Occupied, UserPages;
    forall x: u32 | s.va <= x < s.va + s.memsz ensures Occupied(u, x / 4096) {
      CoversByte(s, x);
    }
    WriteSpec(u, s.va, s.bytes);
    var w := Write(u, s.va, s.bytes);
    SameOccupied(u, w);
    WriteSpec(w, s.va + |s.bytes|, seq(s.memsz - |s.bytes|, _ => 0));
  }

  lemma CoversByte(s: Seg, x: nat)
    ensures s.va <= x < s.va + s.memsz ==> Covers(s, x / 4096)
  {
  }

  lemma SameOccupied(u: Mmu, r: Mmu)
    requires SameView(u, r)
    ensures forall v: nat :: Occupied(r, v) <==> Occupied(u, v)
  {
  }

  lemma CoveredSnoc(segs: seq<Seg>, s: Seg)
    ensures forall v: nat :: Covered(segs + [s], v) <==> Covered(segs, v) || Covers(s, v)
  {
    forall v: nat ensures Covered(segs + [s], v) <==> Covered(segs, v) || Covers(s, v) {
      if Covered(segs, v) {
        var t :| t in segs && Covers(t, v);
        assert t in segs + [s];
      }
      if Covers(s, v) {
        assert s in segs + [s];
      }
    }
  }

  lemma ImageSnoc(segs: seq<Seg>, s: Seg)
    ensures forall a: nat ::
      ImageByte(segs + [s], a) == if Covers(s, a / 4096) then SegByte(s, a) else ImageByte(segs, a)
    ensures forall v: nat :: Writes(segs + [s], v) == if Covers(s, v) then s.writable else Writes(segs, v)
  {
    assert (segs + [s])[..|segs|] == segs;
  }

  /** One segment: pages, then bytes. */
  lemma HoldsStep(m: Mem, done: seq<Seg>, s: Seg, recs: seq<Rec>)
    requires Inv(m) && SegOk(s) && RecsInRange(recs) && Holds(m.mmu, done)
    requires LoadPages(m, FirstPage(s), EndPage(s), Flags(s), recs).ok
    ensures var l := LoadPages(m, FirstPage(s), EndPage(s), Flags(s), recs);
      var r := Mem(l.mem.pmm, Fill(l.mem.mmu, s));
      Inv(r) && SameView(l.mem.mmu, r.mmu) && Holds(r.mmu, done + [s])
  {
    hide Inv, Pde, Pte, Peek, LoadPages, Fill, Writable, UserBit, ImageByte, Writes, Separate;
    var l := LoadPages(m, FirstPage(s), EndPage(s), Flags(s), recs);
    LoadPagesDone(m, FirstPage(s), EndPage(s), Flags(s), recs);
    InvSeparate(l.mem);
    assert forall v: nat | Covers(s, v) :: Occupied(l.mem.mmu, v);
    FillSpec(l.mem.mmu, s);
    var r := Fill(l.mem.mmu, s);
    SameViewInv(l.mem, r);
    SameOccupied(l.mem.mmu, r);
    CoveredSnoc(done, s);
    ImageSnoc(done, s);
    forall a: u32 | Covered(done + [s], a / 4096)
      ensures Peek(r, a) == ImageByte(done + [s], a)
    {
      if Covers(s, a / 4096) {
        assert Occupied(l.mem.mmu, a / 4096);
      } else {
        CoversByte(s, a);
        assert Occupied(m.mmu, a / 4096) && Peek(l.mem.mmu, a) == Peek(m.mmu, a);
        assert Occupied(l.mem.mmu, a / 4096);
      }
    }
  }

  lemma HoldsSkip(u: Mmu, done: seq<Seg>, s: Seg)
    requires Holds(u, done) && EndPage(s) == FirstPage(s)
    ensures Holds(u, done + [s])
  {
    hide Peek, Pte;
    CoveredSnoc(done, s);
    ImageSnoc(done, s);
  }

  /** Main result for a successful load: every covered page shows the image of its last segment. */
  lemma {:induction false} LoadHolds(m: Mem, done: seq<Seg>, segs: seq<Seg>, recs: seq<Rec>)
    requires Inv(m) && SegsOk(segs) && RecsInRange(recs) && Holds(m.mmu, done) && LoadSegs(m, segs, recs).ok
    ensures var l := LoadSegs(m, segs, recs); Inv(l.mem) && Holds(l.mem.mmu, done + segs)
    decreases |segs|
  {
    hide Inv, Holds, LoadPages, Fill;
    if segs == [] {
      assert done + segs == done;
    } else {
      var s := segs[0];
      assert SegOk(s);
      assert done + [s] + segs[1..] == done + segs;
      if EndPage(s) == FirstPage(s) {
        HoldsSkip(m.mmu, done, s);
        LoadHolds(m, done + [s], segs[1..], recs);
      } else {
        HoldsStep(m, done, s, recs);
        var l := LoadPages(m, FirstPage(s), EndPage(s), Flags(s), recs);
        LoadHolds(Mem(l.mem.pmm, Fill(l.mem.mmu, s)), done + [s], segs[1..], l.recs);
      }
    }
  }

  /** What a successful load shows at an address on a covered page. */
  lemma LoadShows(m: Mem, segs: seq<Seg>, a: u32)
    requires Inv(m) && SegsOk(segs) && LoadSegs(m, segs, []).ok && Covered(segs, a / 4096)
    ensures var u := LoadSegs(m, segs, []).mem.mmu;
      && UserAccessible(u, a / 4096) && Writable(Pte(u, a / 4096)) == Writes(segs, a / 4096)
      && Peek(u, a) == ImageByte(segs, a)
  {
    hide Pde, Pte, Peek, Writable, UserBit, Present, LoadSegs, Separate, ImageByte, Writes, Covers, UserPages;
    hide KernelPrivate;
    LoadHolds(m, [], segs, []) by { HoldsNothing(m.mmu); }
    assert [] + segs == segs;
    var u := LoadSegs(m, segs, []).mem.mmu;
    assert Occupied(u, a / 4096);
    TableOfMapped(u, a / 4096);
    CoveredIsUser(segs, a / 4096);
    DirOfUser(a);
  }

  lemma CoveredIsUser(segs: seq<Seg>, v: nat)
    requires SegsOk(segs) && Covered(segs, v)
    ensures USER_FIRST <= v < KERNEL_FIRST
  {
    var s :| s in segs && Covers(s, v);
    assert SegOk(s);
  }

  lemma DirOfUser(a: nat)
    requires USER_BASE <= a < 0xC000_0000
    ensures 32 <= a / 4096 / ENTRIES < 768
  {
  }

  lemma FillStep(m: Mem, s: Seg, recs: seq<Rec>)
    requires Inv(m) && SegOk(s) && RecsInRange(recs)
    requires LoadPages(m, FirstPage(s), EndPage(s), Flags(s), recs).ok
    ensures var l := LoadPages(m, FirstPage(s), EndPage(s), Flags(s), recs);
      Inv(Mem(l.mem.pmm, Fill(l.mem.mmu, s))) && SameView(l.mem.mmu, Fill(l.mem.mmu, s))
  {
    hide Peek, Pte, Pde;
    HoldsNothing(m.mmu);
    HoldsStep(m, [], s, recs);
  }

  lemma HoldsNothing(u: Mmu)
    ensures Holds(u, [])
  {
  }
}
