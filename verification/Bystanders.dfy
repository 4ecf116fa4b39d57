/** Pages that a load has no business with: whatever its outcome, a mapped page that no segment covers
    keeps its frame, its rights and every byte (kernel/elf.c:109-120, 213-292). */
module Bystanders {
  import opened Words
  import opened Frames
  import opened Paging
  import opened Memory
  import opened Ownership
  import opened UserHeap
  import opened Access
  import opened Break
  import opened Loader
  import opened Image
  import opened Rollback
  import opened Elf

  /** The address is mapped in user space or kernel heap, and answers as before. */
  ghost predicate Same(u: Mmu, r: Mmu, a: u32) {
    Occupied(u, a / 4096) ==> Pte(r, a / 4096) == Pte(u, a / 4096) && Peek(r, a) == Peek(u, a)
  }

  lemma SameTrans(u: Mmu, v: Mmu, r: Mmu, a: u32)
    requires Same(u, v, a) && Same(v, r, a)
    ensures Same(u, r, a)
  {
    hide Pte, Peek, Present;
  }

  lemma SameRefl(u: Mmu, a: u32)
    ensures Same(u, u, a)
  {
  }

  lemma SameLoadPage(m: Mem, v: nat, flags: nat, a: u32)
    requires Inv(m) && UserPages(v, v + 1) && (flags == 5 || flags == 7) && a / 4096 != v
    ensures Same(m.mmu, LoadPage(m, v, flags).mem.mmu, a)
  {
    hide Pte, Peek, Present, LoadPage, Inv, ReleasePage, MapPage, AllocFrame, FreeFrame, CanMap, Entry;
    if LoadPage(m, v, flags).frame != 0 {
      LoadPageDone(m, v, flags);
    } else {
      LoadPageSteps(m, v, flags);
      ReleaseOthers(m, v);
    }
  }

  lemma SameDrop(m: Mem, r: Rec, a: u32)
    requires Inv(m) && UserRec(r) && a / 4096 != r.virt
    ensures Same(m.mmu, Drop(m, r).mmu, a)
  {
    hide Pde, Pte, At, Present, FrameOf, Unmap, FreeFrame, IsTable;
    UnmapSpec(m.mmu, r.virt);
  }

  /** The page is none of those recorded. */
  predicate Apart(recs: seq<Rec>, a: nat) { forall r | r in recs :: a / 4096 != r.virt }

  lemma {:induction false} SameCleanup(m: Mem, recs: seq<Rec>, a: u32)
    requires Inv(m) && Pending(m, recs) && Apart(recs, a)
    ensures RecsInRange(recs) && Same(m.mmu, Cleanup(m, recs).mmu, a)
    decreases |recs|
  {
    hide Inv, Drop, Pends, Same, UserRec;
    PendingInRange(m, recs);
    if recs == [] {
      SameRefl(m.mmu, a);
    } else {
      var first := recs[0];
      assert first in recs && forall r | r in recs[1..] :: r in recs;
      PendsIsUser(m, first);
      DropInv(m, first);
      SameDrop(m, first, a);
      forall x | x in recs[1..] ensures Pends(Drop(m, first), x) { DropPends(m, first, x); }
      SameCleanup(Drop(m, first), recs[1..], a);
      CleanupFirst(m, recs);
      SameTrans(m.mmu, Drop(m, first).mmu, Cleanup(m, recs).mmu, a);
    }
  }

  lemma PendsIsUser(m: Mem, r: Rec)
    requires Pends(m, r)
    ensures UserRec(r)
  {
  }

  lemma {:induction false} SameLoadPages(m: Mem, v: nat, hi: nat, flags: nat, recs: seq<Rec>, a: u32)
    requires Inv(m) && UserPages(v, hi) && (flags == 5 || flags == 7) && Current(m.mmu, recs) && Low(m.pmm, recs)
    requires Apart(recs, a) && !(v <= a / 4096 < hi)
    ensures RecsInRange(recs) && Same(m.mmu, LoadPages(m, v, hi, flags, recs).mem.mmu, a)
    ensures Apart(LoadPages(m, v, hi, flags, recs).recs, a)
    decreases hi - v
  {
    hide LoadPage, Inv, Current, PageDone, Low, Same;
    CurrentInRange(m.mmu, recs);
    if v == hi {
      SameRefl(m.mmu, a);
    } else {
      var p := LoadPage(m, v, flags);
      SameLoadPage(m, v, flags, a);
      if p.frame == 0 {
        LoadPageFails(m, v, flags, recs);
        CurrentPends(p.mem, recs);
        SameCleanup(p.mem, recs, a);
      } else {
        LoadPageDone(m, v, flags);
        LowStep(m, v, flags, recs);
        CurrentSnoc(m, p.mem, recs, v, p.frame, flags);
        SameLoadPages(p.mem, v + 1, hi, flags, recs + [Rec(v, p.frame)], a);
      }
      SameTrans(m.mmu, p.mem.mmu, LoadPages(m, v, hi, flags, recs).mem.mmu, a);
    }
  }

  lemma SameFill(m: Mem, s: Seg, a: u32)
    requires Inv(m) && SegOk(s) && (forall v: nat | Covers(s, v) :: Occupied(m.mmu, v)) && !Covers(s, a / 4096)
    ensures Same(m.mmu, Fill(m.mmu, s), a)
  {
    hide Pde, Pte, Peek, Fill, Inv, Present;
    InvSeparate(m);
    FillSpec(m.mmu, s);
    assert !(s.va <= a < s.va + s.memsz);
  }

  lemma {:induction false} SameLoadSegs(m: Mem, segs: seq<Seg>, recs: seq<Rec>, a: u32)
    requires Inv(m) && SegsOk(segs) && Current(m.mmu, recs) && Low(m.pmm, recs)
    requires Apart(recs, a) && !Covered(segs, a / 4096)
    ensures RecsInRange(recs) && Same(m.mmu, LoadSegs(m, segs, recs).mem.mmu, a)
    decreases |segs|
  {
    hide Inv, LoadPages, Fill, Current, Low, Same, Pte, Entry, Apart;
    CurrentInRange(m.mmu, recs);
    SameRefl(m.mmu, a);
    if segs != [] {
      var s := segs[0];
      assert SegOk(s) && s in segs && !Covers(s, a / 4096);
      assert !Covered(segs[1..], a / 4096) by { assert forall t | t in segs[1..] :: t in segs; }
      if EndPage(s) == FirstPage(s) {
        SameLoadSegs(m, segs[1..], recs, a);
      } else if EndPage(s) - FirstPage(s) > MAX_PAGES - |recs| {
        CurrentPends(m, recs);
        SameCleanup(m, recs, a);
      } else {
        SameLoadPages(m, FirstPage(s), EndPage(s), Flags(s), recs, a);
        LoadPagesInv(m, FirstPage(s), EndPage(s), Flags(s), recs);
        var l := LoadPages(m, FirstPage(s), EndPage(s), Flags(s), recs);
        if l.ok {
          var next := Mem(l.mem.pmm, Fill(l.mem.mmu, s));
          LoadPagesDone(m, FirstPage(s), EndPage(s), Flags(s), recs);
          SameFill(l.mem, s, a);
          FillStep(m, s, recs);
          SameViewCurrent(l.mem.mmu, next.mmu, l.recs);
          SameLoadSegs(next, segs[1..], l.recs, a);
          SameTrans(m.mmu, l.mem.mmu, next.mmu, a);
          SameTrans(m.mmu, next.mmu, LoadSegs(m, segs, recs).mem.mmu, a);
        }
      }
    }
  }

  /** No loadable segment of the file covers the page. */
  ghost predicate OffSegments(d: seq<byte>, v: nat)
    requires Accepted(d)
  {
    forall i | 0 <= i < PhNum(d) && PhdrOf(d, i).kind == PT_LOAD :: !Covers(SegOf(d, i), v)
  }

  lemma {:induction false} OffCovered(d: seq<byte>, n: nat, v: nat)
    requires Accepted(d) && OffSegments(d, v) && n <= PhNum(d)
    ensures !Covered(Segments(d, n), v)
    decreases n
  {
    hide PhdrOf, SegOf, Covers, U16, U32, HeaderOk;
    if n > 0 {
      OffCovered(d, n - 1, v);
      if PhdrOf(d, n - 1).kind == PT_LOAD { CoveredSnoc(Segments(d, n - 1), SegOf(d, n - 1)); }
      else { assert Segments(d, n) == Segments(d, n - 1); }
    }
  }

  /** Main result: a load, successful or not, leaves alone every mapped page that none of its segments
      covers; a file that is not accepted leaves everything alone. */
  lemma LoaderSpares(m: Mem, h: Heap, d: seq<byte>, a: u32)
    requires Inv(m) && Occupied(m.mmu, a / 4096) && (Accepted(d) ==> OffSegments(d, a / 4096))
    ensures var r := ElfLoad(m, h, d).mem.mmu;
      Mapped(r, a / 4096) && Pte(r, a / 4096) == Pte(m.mmu, a / 4096) && Peek(r, a) == Peek(m.mmu, a)
    ensures !Accepted(d) ==> ElfLoad(m, h, d) == Loaded(m, h, 0)
  {
    hide Inv, LoadSegs, TableFits, U16, U32, Segments, MaxEnd, PhdrOf, Pte, Peek, Present, OffSegments;
    if Accepted(d) {
      OffCovered(d, PhNum(d), a / 4096);
      SameLoadSegs(m, Segments(d, PhNum(d)), [], a);
    }
  }
}
