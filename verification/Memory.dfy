/** Frames and page tables together: map_page, unmap_page and who owns which frame. */
module Memory {
  import opened Words
  import opened Frames
  import opened Paging

  datatype Mem = Mem(pmm: Pmm, mmu: Mmu)

  const USER_FIRST := 0x8048     // page of USER_BASE
  const KERNEL_FIRST := 0xC_0000 // page of KERNEL_HEAP_START
  const KERNEL_LAST := 0xD_0000  // first page above the kernel heap

  /** Pages of user space and of the kernel heap. */
  predicate Tracked(v: nat) {
    USER_FIRST <= v < KERNEL_LAST
  }

  predicate Occupied(u: Mmu, v: nat) {
    Tracked(v) && Mapped(u, v)
  }

  function Frm(u: Mmu, v: nat): nat
    requires v < PAGES
  {
    FrameOf(Pte(u, v))
  }

  /** map_page: takes a frame for a missing table; without one it gives up silently. */
  function MapPage(m: Mem, v: nat, f: nat, flags: nat): Mem
    requires v < PAGES && f < PAGES && flags < 4096
  {
    if HasTable(m.mmu, v) then
      Mem(m.pmm, SetPte(m.mmu, v, Entry(f, flags)))
    else
      var g := AllocFrame(m.pmm);
      if g.frame == 0 then m
      else
        var u := Install(m.mmu, v / ENTRIES, g.frame, if flags / 4 % 2 == 1 then 7 else 3);
        Mem(g.pmm, SetPte(u, v, Entry(f, flags)))
  }

  predicate CanMap(m: Mem, v: nat)
    requires v < PAGES
  {
    HasTable(m.mmu, v) || AllocFrame(m.pmm).frame != 0
  }

  /** The frame map_page spends on a new table, as a set of at most one element. */
  function NewTable(m: Mem, v: nat): set<nat>
    requires v < PAGES
  {
    if HasTable(m.mmu, v) || AllocFrame(m.pmm).frame == 0 then {} else {AllocFrame(m.pmm).frame}
  }

  /** Every tracked page has a frame of its own that is neither the directory nor a table. */
  ghost predicate Separate(u: Mmu) {
    && TablesOk(u)
    && (forall v: nat | Occupied(u, v) :: !IsTable(u, Frm(u, v)))
    && (forall v: nat, w: nat | Occupied(u, v) && Occupied(u, w) && v != w :: Frm(u, v) != Frm(u, w))
  }

  ghost predicate Unowned(u: Mmu, f: nat) {
    !IsTable(u, f) && forall v: nat | Occupied(u, v) :: Frm(u, v) != f
  }

  /** The directory slots of the kernel heap never carry the user bit. */
  ghost predicate KernelPrivate(u: Mmu) {
    forall i: nat | 768 <= i < 832 && Present(Pde(u, i)) :: !UserBit(Pde(u, i))
  }

  /** The directory slots of user space always carry the user and write bits. */
  ghost predicate UserTables(u: Mmu) {
    forall i: nat | 32 <= i < 768 && Present(Pde(u, i)) :: UserBit(Pde(u, i)) && Writable(Pde(u, i))
  }

  /** The frame-ownership invariant. */
  ghost predicate Inv(m: Mem) {
    && Separate(m.mmu)
    && Used(m.pmm, m.mmu.pd)
    && (forall i: nat | i < ENTRIES && Present(Pde(m.mmu, i)) :: Used(m.pmm, TableOf(m.mmu, i)))
    && (forall v: nat | Occupied(m.mmu, v) :: Used(m.pmm, Frm(m.mmu, v)))
    && KernelPrivate(m.mmu) && UserTables(m.mmu)
  }

  /** Ring 3 may touch a page only when both levels carry the user bit. */
  predicate UserAccessible(u: Mmu, v: nat)
    requires v < PAGES
  {
    HasTable(u, v) && UserBit(Pde(u, v / ENTRIES)) && Mapped(u, v) && UserBit(Pte(u, v))
  }

  lemma FreeIsUnowned(m: Mem, f: nat)
    requires Inv(m) && !Used(m.pmm, f)
    ensures Unowned(m.mmu, f)
  {
  }

  lemma TableOfMapped(u: Mmu, v: nat)
    requires v < PAGES && Mapped(u, v)
    ensures HasTable(u, v)
  {
  }

  lemma SeparateTables(u: Mmu)
    requires Separate(u)
    ensures TablesOk(u)
  {
  }

  /** What map_page does to the directory, the tables, the bitmap and every other frame. */
  lemma MapPageSpec(m: Mem, v: nat, f: nat, flags: nat)
    requires Inv(m) && v < PAGES && f < PAGES && flags < 4096
    ensures var r := MapPage(m, v, f, flags);
      && r.pmm.base == m.pmm.base && |r.pmm.used| == |m.pmm.used| && r.mmu.pd == m.mmu.pd
      && TablesOk(r.mmu)
      && (!CanMap(m, v) ==> r == m)
      && (CanMap(m, v) ==> HasTable(r.mmu, v) && Pte(r.mmu, v) == Entry(f, flags))
      && (forall w: nat | w < PAGES && w != v :: Pte(r.mmu, w) == Pte(m.mmu, w))
      && (forall i: nat | i < ENTRIES && (i != v / ENTRIES || Present(Pde(m.mmu, i))) :: Pde(r.mmu, i) == Pde(m.mmu, i))
      && (NewTable(m, v) != {} ==>
        && TableOf(r.mmu, v / ENTRIES) == AllocFrame(m.pmm).frame
        && UserBit(Pde(r.mmu, v / ENTRIES)) == (flags / 4 % 2 == 1) && Writable(Pde(r.mmu, v / ENTRIES)))
      && UsedSet(r.pmm) == UsedSet(m.pmm) + NewTable(m, v)
      && TableSet(r.mmu) == TableSet(m.mmu) + NewTable(m, v)
      && (forall g: nat | !IsTable(m.mmu, g) && g !in NewTable(m, v) :: At(r.mmu, g) == At(m.mmu, g))
  {
    hide Pde, Pte, At, Present, FrameOf, UserBit, Writable, Entry, SetPte, Install;
    if HasTable(m.mmu, v) {
      SetPteSpec(m.mmu, v, Entry(f, flags));
      assert IsTable(m.mmu, TableOf(m.mmu, v / ENTRIES));
      SameTables(m.mmu, MapPage(m, v, f, flags).mmu);
    } else if AllocFrame(m.pmm).frame != 0 {
      var t := AllocFrame(m.pmm).frame;
      FreeIsUnowned(m, t);
      var df := if flags / 4 % 2 == 1 then 7 else 3;
      InstallSpec(m.mmu, v / ENTRIES, t, df);
      var u := Install(m.mmu, v / ENTRIES, t, df);
      assert Present(Pde(u, v / ENTRIES)) && TableOf(u, v / ENTRIES) == t;
      SetPteSpec(u, v, Entry(f, flags));
      SameTables(u, MapPage(m, v, f, flags).mmu);
    }
  }

  lemma SameTables(u: Mmu, r: Mmu)
    requires forall i: nat | i < ENTRIES :: Pde(r, i) == Pde(u, i)
    ensures TableSet(r) == TableSet(u)
    ensures r.pd == u.pd ==> forall f: nat :: IsTable(r, f) == IsTable(u, f)
  {
    hide Pde, Present, FrameOf;
    assert forall i: nat | i < ENTRIES :: TableOf(r, i) == TableOf(u, i);
    forall f: nat
      ensures f in TableSet(r) <==> f in TableSet(u)
      ensures r.pd == u.pd ==> IsTable(r, f) == IsTable(u, f)
    {
      if f in TableSet(u) {
        var i: nat :| i < ENTRIES && Present(Pde(u, i)) && TableOf(u, i) == f;
        assert Present(Pde(r, i)) && TableOf(r, i) == f;
      }
    }
  }
}
