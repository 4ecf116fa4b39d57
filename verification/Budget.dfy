/** What a load costs in frames, counted before it starts: exactly when it succeeds and, when it does
    not, how far it gets (kernel/elf.c:236-288). */
module Budget {
  import opened Words
  import opened Frames
  import opened Paging
  import opened Memory
  import opened Ownership
  import opened UserHeap
  import opened Access
  import opened Loader
  import opened Image
  import opened Rollback

  // ---- Counting ----

  ghost function Unmapped(u: Mmu, pages: set<nat>): set<nat> {
    set v | v in pages && v < PAGES && !Mapped(u, v)
  }

  /** Directory slots that must get a table. */
  ghost function NewSlots(u: Mmu, pages: set<nat>): set<nat> {
    set v | v in pages && v < PAGES && !HasTable(u, v) :: v / ENTRIES
  }

  /** One frame for every page not mapped yet, and one for every table that is missing. */
  ghost function Bill(u: Mmu, pages: set<nat>): nat { |Unmapped(u, pages)| + |NewSlots(u, pages)| }

  ghost predicate Affords(m: Mem, pages: set<nat>) { Clear(m.pmm.used) >= Bill(m.mmu, pages) }

  /** The same for one page. */
  function Need(u: Mmu, v: nat): nat
    requires v < PAGES
  {
    if Mapped(u, v) then 0 else if HasTable(u, v) then 1 else 2
  }

  lemma BillStep(u: Mmu, pages: set<nat>, v: nat)
    requires v < PAGES
    ensures Bill(u, pages + {v}) == Bill(u, pages)
      + (if Mapped(u, v) || v in pages then 0 else 1)
      + (if HasTable(u, v) || v / ENTRIES in NewSlots(u, pages) then 0 else 1)
  {
    hide Mapped, HasTable;
    var a, b := Unmapped(u, pages), NewSlots(u, pages);
    assert Unmapped(u, pages + {v}) == if Mapped(u, v) then a else a + {v};
    assert |Unmapped(u, pages + {v})| == |a| + (if Mapped(u, v) || v in pages then 0 else 1) by {
      if v in a { assert a + {v} == a; }
    }
    var s := v / ENTRIES;
    assert NewSlots(u, pages + {v}) == if HasTable(u, v) then b else b + {s} by {
      forall x ensures x in NewSlots(u, pages + {v}) <==> x in (if HasTable(u, v) then b else b + {s}) {
        if !HasTable(u, v) && x == s { assert v in pages + {v}; }
      }
    }
    if s in b { assert b + {s} == b; }
  }

  lemma BillGrows(u: Mmu, pages: set<nat>, more: set<nat>)
    requires pages <= more
    ensures Bill(u, pages) <= Bill(u, more)
  {
    hide Mapped, HasTable;
    SubsetSize(Unmapped(u, pages), Unmapped(u, more));
    assert NewSlots(u, pages) <= NewSlots(u, more);
    SubsetSize(NewSlots(u, pages), NewSlots(u, more));
  }

  lemma SubsetSize(a: set<nat>, b: set<nat>)
    requires a <= b
    ensures |a| <= |b|
  {
    assert b == a + (b - a);
  }

  // ---- One page ----

  lemma ReleasedClear(m: Mem, v: nat)
    requires Inv(m) && Tracked(v) && Mapped(m.mmu, v)
    ensures Clear(ReleasePage(m, v).pmm.used) == Clear(m.pmm.used) + 1
  {
    hide Pde, Pte, Unmap, ReleasePage;
    ReleasePageStep(m, v);
    assert Occupied(m.mmu, v);
    ClearUpdate(m.pmm.used, Frm(m.mmu, v) - m.pmm.base, false);
  }

  /** What map_page leaves of the tables. */
  lemma MapTables(m: Mem, v: nat, f: nat, flags: nat)
    requires Inv(m) && v < PAGES && f < PAGES && flags < 4096 && CanMap(m, v)
    ensures var r := MapPage(m, v, f, flags).mmu;
      forall w: nat | w < PAGES :: HasTable(r, w) <==> HasTable(m.mmu, w) || w / ENTRIES == v / ENTRIES
  {
    hide Pde, Pte, At, Present, MapPage, Inv, CanMap, AllocFrame;
    MapPageSpec(m, v, f, flags);
    var r := MapPage(m, v, f, flags).mmu;
    assert HasTable(r, v);
  }

  /** A page is loaded exactly when enough frames are left for it. */
  lemma LoadPageNeed(m: Mem, v: nat, flags: nat)
    requires Inv(m) && UserPages(v, v + 1) && (flags == 5 || flags == 7)
    ensures var p := LoadPage(m, v, flags);
      && (p.frame != 0 <==> Clear(m.pmm.used) >= Need(m.mmu, v))
      && (p.frame != 0 ==> Clear(p.mem.pmm.used) == Clear(m.pmm.used) - Need(m.mmu, v))
  {
    hide Pde, Pte, At, Present, FrameOf, MapPage, Unmap, FreeFrame, AllocFrame, ReleasePage, LoadPage, Inv, Clear;
    hide Entry;
    LoadPageSteps(m, v, flags);
    ReleasePageStep(m, v);
    var m1 := ReleasePage(m, v);
    if Mapped(m.mmu, v) {
      ReleasedClear(m, v);
      Reloadable(m, v);
      TableOfMapped(m.mmu, v);
      ReleasedTable(m, v);
    }
    AllocFails(m1.pmm);
    AllocFails(AllocFrame(m1.pmm).pmm);
    MapSpends(Mem(AllocFrame(m1.pmm).pmm, m1.mmu), v, AllocFrame(m1.pmm).frame, flags);
  }

  lemma ReleasedTable(m: Mem, v: nat)
    requires Inv(m) && Tracked(v)
    ensures forall w: nat | w < PAGES :: HasTable(ReleasePage(m, v).mmu, w) == HasTable(m.mmu, w)
  {
    hide Pde, Pte, Present, Unmap, FreeFrame, ReleasePage;
    ReleasePageStep(m, v);
    if Mapped(m.mmu, v) { UnmapSpec(m.mmu, v); }
  }

  /** map_page spends a frame exactly for a missing table. */
  lemma MapSpends(m: Mem, v: nat, f: nat, flags: nat)
    requires v < PAGES && f < PAGES && flags < 4096
    ensures MapPage(m, v, f, flags).pmm == (if HasTable(m.mmu, v) then m.pmm else AllocFrame(m.pmm).pmm)
  {
    hide AllocFrame;
    AllocFails(m.pmm);
  }

  /** Which pages and tables a loaded page leaves. */
  lemma LoadPageTables(m: Mem, v: nat, flags: nat)
    requires Inv(m) && UserPages(v, v + 1) && (flags == 5 || flags == 7) && LoadPage(m, v, flags).frame != 0
    ensures var r := LoadPage(m, v, flags).mem.mmu;
      && (forall w: nat | w < PAGES :: Mapped(r, w) <==> Mapped(m.mmu, w) || w == v)
      && (forall w: nat | w < PAGES :: HasTable(r, w) <==> HasTable(m.mmu, w) || w / ENTRIES == v / ENTRIES)
  {
    hide Pde, Pte, At, Present, FrameOf, MapPage, Unmap, FreeFrame, AllocFrame, ReleasePage, LoadPage, Inv, Entry;
    hide CanMap;
    LoadPageSteps(m, v, flags);
    LoadPageDone(m, v, flags);
    ReleasedTable(m, v);
    var m1 := ReleasePage(m, v);
    var g := AllocFrame(m1.pmm);
    var m1' := Mem(g.pmm, m1.mmu);
    MapTables(m1', v, g.frame, flags);
    var m2 := MapPage(m1', v, g.frame, flags);
    InvSeparate(m2);
    BackedPage(m2.mmu, v);
    WriteSpec(m2.mmu, v * 4096, ZeroFrame());
    SameViewTables(m2.mmu, LoadPage(m, v, flags).mem.mmu);
  }

  lemma SameViewTables(u: Mmu, r: Mmu)
    requires SameView(u, r)
    ensures forall w: nat | w < PAGES :: HasTable(r, w) == HasTable(u, w)
  {
    hide Pde, Pte, Present;
  }

  // ---- The state after some pages ----

  /** `m` is `m0` with `pages` loaded. */
  ghost predicate After(m0: Mem, m: Mem, pages: set<nat>) {
    && (forall v: nat | v < PAGES :: Mapped(m.mmu, v) <==> Mapped(m0.mmu, v) || v in pages)
    && (forall v: nat | v < PAGES ::
          HasTable(m.mmu, v) <==> HasTable(m0.mmu, v) || v / ENTRIES in NewSlots(m0.mmu, pages))
    && Clear(m.pmm.used) == Clear(m0.pmm.used) - Bill(m0.mmu, pages)
  }

  lemma AfterNone(m: Mem)
    ensures After(m, m, {})
  {
    hide Mapped, HasTable, Clear;
  }

  lemma NeedIs(m0: Mem, m: Mem, pages: set<nat>, v: nat)
    requires After(m0, m, pages) && v < PAGES
    ensures Bill(m0.mmu, pages + {v}) == Bill(m0.mmu, pages) + Need(m.mmu, v)
  {
    hide Clear, Bill;
    BillStep(m0.mmu, pages, v);
    if Mapped(m.mmu, v) { TableOfMapped(m.mmu, v); }
  }

  lemma AfterStep(m0: Mem, m: Mem, pages: set<nat>, v: nat, flags: nat)
    requires Inv(m) && After(m0, m, pages) && UserPages(v, v + 1) && (flags == 5 || flags == 7)
    ensures var p := LoadPage(m, v, flags);
      && (p.frame != 0 <==> Clear(m0.pmm.used) >= Bill(m0.mmu, pages + {v}))
      && (p.frame != 0 ==> After(m0, p.mem, pages + {v}))
  {
    hide Mapped, HasTable, Clear, Bill, LoadPage, Inv, NewSlots;
    NeedIs(m0, m, pages, v);
    LoadPageNeed(m, v, flags);
    var p := LoadPage(m, v, flags);
    if p.frame != 0 {
      LoadPageTables(m, v, flags);
      SlotStep(m0.mmu, pages, v);
    }
  }

  lemma SlotStep(u: Mmu, pages: set<nat>, v: nat)
    requires v < PAGES
    ensures forall w: nat | w < PAGES ::
      (HasTable(u, w) || w / ENTRIES in NewSlots(u, pages + {v})) <==>
      (HasTable(u, w) || w / ENTRIES in NewSlots(u, pages) || w / ENTRIES == v / ENTRIES)
  {
    hide Pde;
    forall w: nat | w < PAGES && !HasTable(u, w) && w / ENTRIES == v / ENTRIES
      ensures w / ENTRIES in NewSlots(u, pages + {v})
    {
      assert v in pages + {v} && !HasTable(u, v);
    }
    forall w: nat | w < PAGES && w / ENTRIES in NewSlots(u, pages)
      ensures w / ENTRIES in NewSlots(u, pages + {v})
    {
      var x :| x in pages && x < PAGES && !HasTable(u, x) && x / ENTRIES == w / ENTRIES;
      assert x in pages + {v};
    }
  }

  // ---- How far a load gets ----

  /** The first pages of `ps`, up to and including the one whose bill exceeds the free frames. */
  ghost function Until(m: Mem, seen: set<nat>, ps: seq<nat>): (r: seq<nat>)
    ensures forall v | v in r :: v in ps
    decreases |ps|
  {
    if ps == [] then []
    else [ps[0]] + if Clear(m.pmm.used) < Bill(m.mmu, seen + {ps[0]}) then [] else Until(m, seen + {ps[0]}, ps[1..])
  }

  function Span(v: nat, hi: nat): (r: seq<nat>)
    requires v <= hi
    ensures forall w | w in r :: v <= w < hi
    decreases hi - v
  {
    if v == hi then [] else [v] + Span(v + 1, hi)
  }

  lemma {:induction false} LoadPagesBudget(m0: Mem, m: Mem, seen: set<nat>, v: nat, hi: nat, flags: nat, recs: seq<Rec>)
    requires Inv(m) && After(m0, m, seen) && UserPages(v, hi) && (flags == 5 || flags == 7) && RecsInRange(recs)
    ensures var l := LoadPages(m, v, hi, flags, recs);
      && (l.ok <==> Clear(m0.pmm.used) >= Bill(m0.mmu, seen + Range(v, hi)))
      && (l.ok ==> After(m0, l.mem, seen + Range(v, hi)))
      && PagesReached(m, v, hi, flags) == Until(m0, seen, Span(v, hi))
    decreases hi - v
  {
    hide Inv, After, LoadPage, Clear, Bill, PageDone;
    if v == hi {
      assert seen + Range(v, hi) == seen;
      AfterAffords(m0, m, seen);
    } else {
      AfterStep(m0, m, seen, v, flags);
      var p := LoadPage(m, v, flags);
      assert Range(v, hi) == {v} + Range(v + 1, hi);
      assert seen + Range(v, hi) == seen + {v} + Range(v + 1, hi);
      assert Span(v, hi)[1..] == Span(v + 1, hi);
      if p.frame == 0 {
        BillGrows(m0.mmu, seen + {v}, seen + Range(v, hi));
      } else {
        LoadPageDone(m, v, flags);
        LoadPagesBudget(m0, p.mem, seen + {v}, v + 1, hi, flags, recs + [Rec(v, p.frame)]);
      }
    }
  }

  lemma AfterAffords(m0: Mem, m: Mem, pages: set<nat>)
    requires After(m0, m, pages)
    ensures Clear(m0.pmm.used) >= Bill(m0.mmu, pages)
  {
  }

  // ---- Segments ----

  ghost function CoveredPages(segs: seq<Seg>): set<nat> {
    if segs == [] then {} else Range(FirstPage(segs[0]), EndPage(segs[0])) + CoveredPages(segs[1..])
  }

  /** Pages counted once per segment, as the record table counts them. */
  function TotalPages(segs: seq<Seg>): nat {
    if segs == [] then 0 else EndPage(segs[0]) - FirstPage(segs[0]) + TotalPages(segs[1..])
  }

  /** The pages in load order, up to the segment that overflows the record table. */
  function PageList(segs: seq<Seg>, used: nat): (r: seq<nat>)
    requires SegsOk(segs)
    ensures forall w | w in r :: USER_FIRST <= w < KERNEL_FIRST
  {
    if segs == [] then []
    else
      assert SegOk(segs[0]);
      var n := EndPage(segs[0]) - FirstPage(segs[0]);
      if n == 0 then PageList(segs[1..], used)
      else if n > MAX_PAGES - used then []
      else Span(FirstPage(segs[0]), EndPage(segs[0])) + PageList(segs[1..], used + n)
  }

  lemma {:induction false} UntilAppend(m: Mem, seen: set<nat>, v: nat, hi: nat, rest: seq<nat>)
    requires v <= hi && Clear(m.pmm.used) >= Bill(m.mmu, seen)
    ensures Until(m, seen, Span(v, hi) + rest) ==
      if Clear(m.pmm.used) >= Bill(m.mmu, seen + Range(v, hi))
      then Span(v, hi) + Until(m, seen + Range(v, hi), rest) else Until(m, seen, Span(v, hi))
    ensures Clear(m.pmm.used) >= Bill(m.mmu, seen + Range(v, hi)) ==> Until(m, seen, Span(v, hi)) == Span(v, hi)
    decreases hi - v
  {
    hide Clear, Bill, Until;
    if v == hi {
      assert seen + Range(v, hi) == seen && [] + rest == rest;
      UntilNone(m, seen);
    } else {
      var s := Span(v + 1, hi);
      assert [v] + s + rest == [v] + (s + rest);
      UntilFirst(m, seen, v, s + rest);
      UntilFirst(m, seen, v, s);
      assert seen + Range(v, hi) == seen + {v} + Range(v + 1, hi);
      BillGrows(m.mmu, seen + {v}, seen + Range(v, hi));
      if Clear(m.pmm.used) >= Bill(m.mmu, seen + {v}) {
        UntilAppend(m, seen + {v}, v + 1, hi, rest);
        var u := Until(m, seen + Range(v, hi), rest);
        assert [v] + (s + u) == [v] + s + u;
      }
    }
  }

  lemma UntilFirst(m: Mem, seen: set<nat>, v: nat, ps: seq<nat>)
    ensures Until(m, seen, [v] + ps) ==
      if Clear(m.pmm.used) < Bill(m.mmu, seen + {v}) then [v] else [v] + Until(m, seen + {v}, ps)
  {
    hide Clear, Bill;
    assert ([v] + ps)[1..] == ps && [v] + [] == [v];
  }

  lemma SameViewAfter(m0: Mem, m: Mem, r: Mmu, pages: set<nat>)
    requires After(m0, m, pages) && SameView(m.mmu, r)
    ensures After(m0, Mem(m.pmm, r), pages)
  {
    hide Pde, Pte, Present, Clear, Bill, NewSlots;
  }

  /** Main result: a load over `seen` pages succeeds if and only if the record table holds its pages and
      the free frames cover the bill; otherwise it gets exactly as far as they reach. */
  lemma {:induction false} LoadSegsBudget(m0: Mem, m: Mem, seen: set<nat>, segs: seq<Seg>, recs: seq<Rec>)
    requires Inv(m) && After(m0, m, seen) && SegsOk(segs) && RecsInRange(recs) && |recs| <= MAX_PAGES
    ensures var l := LoadSegs(m, segs, recs);
      && (l.ok <==> |recs| + TotalPages(segs) <= MAX_PAGES && Affords(m0, seen + CoveredPages(segs)))
      && ReachedBy(m, segs, recs) == Until(m0, seen, PageList(segs, |recs|))
    decreases |segs|
  {
    hide Inv, After, LoadPages, Clear, Bill, Fill, PagesReached, Until;
    AfterAffords(m0, m, seen);
    if segs == [] {
      assert seen + CoveredPages(segs) == seen;
      UntilNone(m0, seen);
    } else {
      var s := segs[0];
      assert SegOk(s);
      var lo, hi := FirstPage(s), EndPage(s);
      var rest := CoveredPages(segs[1..]);
      var next := seen + Range(lo, hi);
      assert seen + CoveredPages(segs) == next + rest;
      if lo == hi {
        assert next == seen;
        LoadSegsBudget(m0, m, seen, segs[1..], recs);
      } else if hi - lo > MAX_PAGES - |recs| {
        UntilNone(m0, seen);
      } else {
        LoadPagesBudget(m0, m, seen, lo, hi, Flags(s), recs);
        var l := LoadPages(m, lo, hi, Flags(s), recs);
        UntilAppend(m0, seen, lo, hi, PageList(segs[1..], |recs| + hi - lo));
        BillGrows(m0.mmu, next, next + rest);
        if l.ok {
          FillStep(m, s, recs);
          SameViewAfter(m0, l.mem, Fill(l.mem.mmu, s), next);
          LoadSegsBudget(m0, Mem(l.mem.pmm, Fill(l.mem.mmu, s)), next, segs[1..], l.recs);
        } else {
          var ts := PagesReached(m, lo, hi, Flags(s));
          assert ts + [] == ts;
        }
      }
    }
  }

  lemma UntilNone(m: Mem, seen: set<nat>)
    ensures Until(m, seen, []) == []
  {
  }
}
