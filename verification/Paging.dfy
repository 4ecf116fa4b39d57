/** Two-level page tables stored in physical memory (kernel/kernel.c, paging part). */
module Paging {
  import opened Words

  /** Physical memory by frame number, and the frame that holds the page directory. */
  datatype Mmu = Mmu(ram: map<nat, Frame>, pd: nat)

  predicate Present(e: u32) { e % 2 == 1 }
  predicate Writable(e: u32) { e / 2 % 2 == 1 }
  predicate UserBit(e: u32) { e / 4 % 2 == 1 }
  function FrameOf(e: u32): nat { e / 4096 }

  function Entry(frame: nat, flags: nat): (e: u32)
    requires frame < PAGES && flags < 4096
    ensures FrameOf(e) == frame
    ensures Present(e) == (flags % 2 == 1) && Writable(e) == (flags / 2 % 2 == 1) && UserBit(e) == (flags / 4 % 2 == 1)
  {
    EntryBits(frame, flags);
    frame * 4096 + flags
  }

  lemma EntryBits(frame: nat, flags: nat)
    requires flags < 4096
    ensures var e := frame * 4096 + flags;
      e / 4096 == frame && e % 2 == flags % 2 && e / 2 % 2 == flags / 2 % 2 && e / 4 % 2 == flags / 4 % 2
  {
    var e := frame * 4096 + flags;
    Halve(frame * 2048, flags);
    Halve(frame * 1024, flags / 2);
    Halve(frame * 512, flags / 4);
    assert e / 4 == e / 2 / 2 && flags / 4 == flags / 2 / 2;
  }

  lemma Halve(a: nat, x: nat)
    ensures (2 * a + x) / 2 == a + x / 2 && (2 * a + x) % 2 == x % 2
  {
  }

  /** Contents of a frame; memory that does not exist reads as zeros. */
  function At(u: Mmu, f: nat): Frame {
    if f in u.ram then u.ram[f] else ZeroFrame()
  }

  function Pde(u: Mmu, i: nat): u32
    requires i < ENTRIES
  {
    ReadWord(At(u, u.pd), i)
  }

  /** The table entry of virtual page `v`; 0 when its directory entry is absent. */
  function Pte(u: Mmu, v: nat): u32
    requires v < PAGES
  {
    if Present(Pde(u, v / ENTRIES)) then ReadWord(At(u, FrameOf(Pde(u, v / ENTRIES))), v % ENTRIES) else 0
  }

  function TableOf(u: Mmu, i: nat): nat
    requires i < ENTRIES
  {
    FrameOf(Pde(u, i))
  }

  predicate HasTable(u: Mmu, v: nat)
    requires v < PAGES
  {
    Present(Pde(u, v / ENTRIES))
  }

  predicate Mapped(u: Mmu, v: nat)
    requires v < PAGES
  {
    Present(Pte(u, v))
  }

  /** get_physical_address: 0 when the page is not present. */
  function Translate(u: Mmu, a: u32): (r: nat)
  {
    if Mapped(u, a / 4096) then FrameOf(Pte(u, a / 4096)) * 4096 + a % 4096 else 0
  }

  /** The abstract partial map from virtual page to entry that the tables implement. */
  ghost function PageMap(u: Mmu): map<nat, u32> {
    map v: nat | v < PAGES && Mapped(u, v) :: Pte(u, v)
  }

  /** No table lies on the directory and no two directory entries share a table. */
  ghost predicate TablesOk(u: Mmu) {
    && (forall i: nat | i < ENTRIES && Present(Pde(u, i)) :: TableOf(u, i) != u.pd)
    && (forall i: nat, j: nat | i < j < ENTRIES && Present(Pde(u, i)) && Present(Pde(u, j)) ::
      TableOf(u, i) != TableOf(u, j))
  }

  ghost predicate IsTable(u: Mmu, f: nat) {
    f == u.pd || exists i: nat :: i < ENTRIES && Present(Pde(u, i)) && TableOf(u, i) == f
  }

  ghost function TableSet(u: Mmu): set<nat> {
    set i: nat | i < ENTRIES && Present(Pde(u, i)) :: TableOf(u, i)
  }

  function Store(u: Mmu, f: nat, i: nat, w: u32): Mmu
    requires i < ENTRIES
  {
    Mmu(u.ram[f := WriteWord(At(u, f), i, w)], u.pd)
  }

  function SetPte(u: Mmu, v: nat, e: u32): Mmu
    requires v < PAGES
  {
    Store(u, TableOf(u, v / ENTRIES), v % ENTRIES, e)
  }

  function Install(u: Mmu, i: nat, t: nat, flags: nat): Mmu
    requires i < ENTRIES && t < PAGES && flags < 4096
  {
    Store(Mmu(u.ram[t := ZeroFrame()], u.pd), u.pd, i, Entry(t, flags))
  }

  function Unmap(u: Mmu, v: nat): Mmu
    requires v < PAGES
  {
    if HasTable(u, v) then SetPte(u, v, 0) else u
  }

  /** Writing one table entry changes that page and no other, and leaves the directory alone. */
  lemma SetPteSpec(u: Mmu, v: nat, e: u32)
    requires TablesOk(u) && v < PAGES && HasTable(u, v)
    ensures var r := SetPte(u, v, e);
      && r.pd == u.pd && TablesOk(r)
      && (forall i: nat | i < ENTRIES :: Pde(r, i) == Pde(u, i))
      && Pte(r, v) == e
      && (forall w: nat | w < PAGES && w != v :: Pte(r, w) == Pte(u, w))
      && (forall f: nat | f != TableOf(u, v / ENTRIES) :: At(r, f) == At(u, f))
  {
    hide ReadWord, WriteWord, FrameOf, Present;
    var r := SetPte(u, v, e);
    var t := TableOf(u, v / ENTRIES);
    WriteWordSpec(At(u, t), v % ENTRIES, e);
    assert At(r, u.pd) == At(u, u.pd);
    assert forall i: nat | i < ENTRIES :: Pde(r, i) == Pde(u, i) && TableOf(r, i) == TableOf(u, i);
    forall w: nat | w < PAGES && w != v
      ensures Pte(r, w) == Pte(u, w)
    {
      if HasTable(u, w) {
        if w / ENTRIES == v / ENTRIES {
          assert w % ENTRIES != v % ENTRIES;
        } else {
          assert TableOf(u, w / ENTRIES) != t;
        }
      }
    }
  }

  /** Installing a cleared table in an absent slot changes no translation. */
  lemma InstallSpec(u: Mmu, i: nat, t: nat, flags: nat)
    requires TablesOk(u) && i < ENTRIES && t < PAGES && flags < 4096 && flags % 2 == 1
    requires !Present(Pde(u, i)) && !IsTable(u, t)
    ensures var r := Install(u, i, t, flags);
      && r.pd == u.pd && TablesOk(r)
      && Pde(r, i) == Entry(t, flags)
      && (forall j: nat | j < ENTRIES && j != i :: Pde(r, j) == Pde(u, j))
      && (forall v: nat | v < PAGES :: Pte(r, v) == Pte(u, v))
      && (forall f: nat | f != t && f != u.pd :: At(r, f) == At(u, f))
      && TableSet(r) == TableSet(u) + {t}
  {
    hide ReadWord, WriteWord, FrameOf, Present;
    var r := Install(u, i, t, flags);
    WriteWordSpec(At(u, u.pd), i, Entry(t, flags));
    assert forall j: nat | j < ENTRIES && j != i :: Pde(r, j) == Pde(u, j);
    forall v: nat | v < PAGES
      ensures Pte(r, v) == Pte(u, v)
    {
      if v / ENTRIES == i {
        ZeroWord(v % ENTRIES);
      } else if HasTable(u, v) {
        assert TableOf(u, v / ENTRIES) != t;
      }
    }
    assert TableSet(r) == TableSet(u) + {t} by {
      forall f ensures f in TableSet(r) <==> f in TableSet(u) + {t} {
        if f in TableSet(u) {
          var j: nat :| j < ENTRIES && Present(Pde(u, j)) && TableOf(u, j) == f;
          assert Present(Pde(r, j)) && TableOf(r, j) == f;
        }
        if f == t {
          assert Present(Pde(r, i)) && TableOf(r, i) == f;
        }
      }
    }
  }
}
