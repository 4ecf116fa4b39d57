/** The directory and its tables refine an abstract address space: a partial map from virtual page
    to entry, the set of directory slots in use and the frame allocator. */
module AddressSpace {
  import opened Words
  import opened Frames
  import opened Paging
  import opened Memory
  import opened Ownership

  datatype Space = Space(pages: map<nat, u32>, slots: set<nat>, pmm: Pmm)

  ghost function Slots(u: Mmu): set<nat> {
    set i: nat | i < ENTRIES && Present(Pde(u, i))
  }

  ghost function View(m: Mem): Space { Space(PageMap(m.mmu), Slots(m.mmu), m.pmm) }

  function PutPage(pages: map<nat, u32>, v: nat, e: u32): map<nat, u32> {
    if Present(e) then pages[v := e] else pages - {v}
  }

  // ---- The abstract operations: no directory, no table, no memory ----

  function MapIn(s: Space, v: nat, f: nat, flags: nat): Space
    requires v < PAGES && f < PAGES && flags < 4096
  {
    var g := AllocFrame(s.pmm);
    if v / ENTRIES in s.slots then s.(pages := PutPage(s.pages, v, Entry(f, flags)))
    else if g.frame == 0 then s
    else Space(PutPage(s.pages, v, Entry(f, flags)), s.slots + {v / ENTRIES}, g.pmm)
  }

  function UnmapIn(s: Space, v: nat): Space { s.(pages := s.pages - {v}) }

  function TranslateIn(s: Space, a: u32): nat {
    if a / 4096 in s.pages then FrameOf(s.pages[a / 4096]) * 4096 + a % 4096 else 0
  }

  /** The directory and the live tables are apart and marked used. */
  ghost predicate Held(m: Mem) {
    && TablesOk(m.mmu) && Used(m.pmm, m.mmu.pd)
    && forall i: nat | i < ENTRIES && Present(Pde(m.mmu, i)) :: Used(m.pmm, TableOf(m.mmu, i))
  }

  // ---- One step ----

  lemma PagesAfter(u: Mmu, r: Mmu, v: nat, e: u32)
    requires v < PAGES && Pte(r, v) == e && forall w: nat | w < PAGES && w != v :: Pte(r, w) == Pte(u, w)
    ensures PageMap(r) == PutPage(PageMap(u), v, e)
  {
    hide Pte, Present;
  }

  lemma SlotsSame(u: Mmu, r: Mmu)
    requires forall i: nat | i < ENTRIES :: Pde(r, i) == Pde(u, i)
    ensures Slots(r) == Slots(u)
  {
    hide Pde, Present;
  }

  lemma MapHeldOld(m: Mem, v: nat, e: u32)
    requires Held(m) && v < PAGES && HasTable(m.mmu, v)
    ensures Held(Mem(m.pmm, SetPte(m.mmu, v, e)))
    ensures View(Mem(m.pmm, SetPte(m.mmu, v, e))) == View(m).(pages := PutPage(View(m).pages, v, e))
  {
    hide Pde, Pte, SetPte, Present, FrameOf;
    SetPteSpec(m.mmu, v, e);
    SlotsSame(m.mmu, SetPte(m.mmu, v, e));
    PagesAfter(m.mmu, SetPte(m.mmu, v, e), v, e);
    assert forall i: nat | i < ENTRIES :: TableOf(SetPte(m.mmu, v, e), i) == TableOf(m.mmu, i);
  }

  /** Installing a table changes no page. */
  lemma InstallHeld(m: Mem, i: nat, df: nat)
    requires Held(m) && i < ENTRIES && df < 4096 && df % 2 == 1 && !Present(Pde(m.mmu, i))
    requires AllocFrame(m.pmm).frame != 0
    ensures var g := AllocFrame(m.pmm);
      var r := Mem(g.pmm, Install(m.mmu, i, g.frame, df));
      Held(r) && View(r) == Space(View(m).pages, View(m).slots + {i}, g.pmm) && Present(Pde(r.mmu, i))
  {
    var g := AllocFrame(m.pmm);
    var u := Install(m.mmu, i, g.frame, df);
    hide Pde, Pte, Install, Present, FrameOf, AllocFrame, Entry;
    UsedMember(m.pmm);
    UsedMember(g.pmm);
    InstallSpec(m.mmu, i, g.frame, df);
    assert PageMap(u) == PageMap(m.mmu);
    assert Present(Pde(u, i)) && TableOf(u, i) == g.frame;
    assert Slots(u) == Slots(m.mmu) + {i};
    assert forall j: nat | j < ENTRIES && j != i :: TableOf(u, j) == TableOf(m.mmu, j);
  }

  /** map_page refines the abstract map, whether or not it needs a new table or fails to get one. */
  lemma MapRefines(m: Mem, v: nat, f: nat, flags: nat)
    requires Held(m) && v < PAGES && f < PAGES && flags < 4096
    ensures Held(MapPage(m, v, f, flags)) && View(MapPage(m, v, f, flags)) == MapIn(View(m), v, f, flags)
  {
    hide Pde, Pte, SetPte, Install, Present, FrameOf, AllocFrame, Entry, Held, PutPage, PageMap;
    if HasTable(m.mmu, v) {
      MapHeldOld(m, v, Entry(f, flags));
    } else if AllocFrame(m.pmm).frame != 0 {
      var df := if flags / 4 % 2 == 1 then 7 else 3;
      InstallHeld(m, v / ENTRIES, df);
      var g := AllocFrame(m.pmm);
      MapHeldOld(Mem(g.pmm, Install(m.mmu, v / ENTRIES, g.frame, df)), v, Entry(f, flags));
    }
  }

  lemma UnmapRefines(m: Mem, v: nat)
    requires Held(m) && v < PAGES
    ensures var r := Mem(m.pmm, Unmap(m.mmu, v)); Held(r) && View(r) == UnmapIn(View(m), v)
  {
    if HasTable(m.mmu, v) {
      MapHeldOld(m, v, 0);
    } else {
      assert v !in PageMap(m.mmu);
    }
  }

  /** get_physical_address reads nothing but the abstract map. */
  lemma TranslateRefines(m: Mem, a: u32)
    ensures Translate(m.mmu, a) == TranslateIn(View(m), a)
  {
    hide Pte, Present, FrameOf;
    assert a / 4096 < PAGES;
  }

  // ---- Whole runs ----

  datatype PageOp = Map(v: nat, f: nat, flags: nat) | Remove(v: nat) | Take | Give(f: nat)

  predicate InRange(o: PageOp) {
    match o
    case Map(v, f, flags) => v < PAGES && f < PAGES && flags < 4096
    case Remove(v) => v < PAGES
    case _ => true
  }

  function Do(m: Mem, o: PageOp): Mem
    requires InRange(o)
  {
    match o
    case Map(v, f, flags) => MapPage(m, v, f, flags)
    case Remove(v) => Mem(m.pmm, Unmap(m.mmu, v))
    case Take => Mem(AllocFrame(m.pmm).pmm, m.mmu)
    case Give(f) => Mem(FreeFrame(m.pmm, f), m.mmu)
  }

  function DoIn(s: Space, o: PageOp): Space
    requires InRange(o)
  {
    match o
    case Map(v, f, flags) => MapIn(s, v, f, flags)
    case Remove(v) => UnmapIn(s, v)
    case Take => s.(pmm := AllocFrame(s.pmm).pmm)
    case Give(f) => s.(pmm := FreeFrame(s.pmm, f))
  }

  ghost predicate Fair(m: Mem, o: PageOp) { InRange(o) && (o.Give? ==> !IsTable(m.mmu, o.f)) }

  /** No operation of the run frees a live table or the directory. */
  ghost predicate FairRun(m: Mem, os: seq<PageOp>)
    decreases |os|
  {
    os == [] || (Fair(m, os[0]) && FairRun(Do(m, os[0]), os[1..]))
  }

  ghost function RunOps(m: Mem, os: seq<PageOp>): Mem
    requires FairRun(m, os)
    decreases |os|
  {
    if os == [] then m else RunOps(Do(m, os[0]), os[1..])
  }

  function RunIn(s: Space, os: seq<PageOp>): Space
    requires forall i | 0 <= i < |os| :: InRange(os[i])
    decreases |os|
  {
    if os == [] then s else RunIn(DoIn(s, os[0]), os[1..])
  }

  lemma DoRefines(m: Mem, o: PageOp)
    requires Held(m) && Fair(m, o)
    ensures Held(Do(m, o)) && View(Do(m, o)) == DoIn(View(m), o)
  {
    match o
    case Map(v, f, flags) => MapRefines(m, v, f, flags);
    case Remove(v) => UnmapRefines(m, v);
    case Take => TakeHeld(m);
    case Give(f) => GiveHeld(m, f);
  }

  lemma TakeHeld(m: Mem)
    requires Held(m)
    ensures Held(Mem(AllocFrame(m.pmm).pmm, m.mmu))
  {
    hide Pde, Present, FrameOf;
    var g := AllocFrame(m.pmm);
    UsedMember(m.pmm);
    UsedMember(g.pmm);
    if g.frame == 0 { AllocFails(m.pmm); }
  }

  lemma GiveHeld(m: Mem, f: nat)
    requires Held(m) && !IsTable(m.mmu, f)
    ensures Held(Mem(FreeFrame(m.pmm, f), m.mmu))
  {
    hide Pde, Present, FrameOf;
    UsedMember(m.pmm);
    UsedMember(FreeFrame(m.pmm, f));
  }

  /** Main result: over every run the tables answer every address as the abstract map does. */
  lemma {:induction false} RunRefines(m: Mem, os: seq<PageOp>, a: u32)
    requires Held(m) && FairRun(m, os)
    ensures forall i | 0 <= i < |os| :: InRange(os[i])
    ensures Held(RunOps(m, os)) && View(RunOps(m, os)) == RunIn(View(m), os)
    ensures Translate(RunOps(m, os).mmu, a) == TranslateIn(RunIn(View(m), os), a)
    decreases |os|
  {
    hide Held, View, Do, DoIn, Translate, TranslateIn;
    if os != [] {
      DoRefines(m, os[0]);
      RunRefines(Do(m, os[0]), os[1..], a);
      assert forall i | 0 < i < |os| :: os[i] == os[1..][i - 1];
    }
    TranslateRefines(RunOps(m, os), a);
  }

  /** map_page with a table: the mapped page answers frame plus offset, every other page as before. */
  lemma MapAnswers(m: Mem, v: nat, f: nat, flags: nat, a: u32)
    requires Held(m) && v < PAGES && f < PAGES && flags < 4096 && flags % 2 == 1
    ensures Translate(MapPage(m, v, f, flags).mmu, a) ==
      (if a / 4096 == v && CanMap(m, v) then f * 4096 + a % 4096 else Translate(m.mmu, a))
  {
    hide Pte, Pde, MapPage, Held;
    MapRefines(m, v, f, flags);
    TranslateRefines(m, a);
    TranslateRefines(MapPage(m, v, f, flags), a);
  }
}
