/** Reading and writing bytes at virtual addresses, through the page tables and into the same
    physical memory that holds the tables. */
module Access {
  import opened Words
  import opened Frames
  import opened Paging
  import opened Memory
  import opened Ownership

  /** A byte load by the kernel; an unmapped address reads as 0 here (it would fault). */
  function Peek(u: Mmu, a: u32): byte {
    if Mapped(u, a / 4096) then At(u, Frm(u, a / 4096))[a % 4096] else 0
  }

  /** A byte store by the kernel (ring 0 with CR0.WP clear, so the write bit is not consulted). */
  function Poke(u: Mmu, a: u32, b: byte): Mmu {
    if Mapped(u, a / 4096) then
      var f := Frm(u, a / 4096);
      Mmu(u.ram[f := At(u, f)[a % 4096 := b]], u.pd)
    else u
  }

  /** memcpy/memset to a virtual address, byte by byte. */
  function Write(u: Mmu, a: nat, bs: seq<byte>): Mmu
    requires a + |bs| <= 0x1_0000_0000
    decreases |bs|
  {
    if bs == [] then u else Write(Poke(u, a, bs[0]), a + 1, bs[1..])
  }

  /** Same directory, same tables: the translation of every page is the same. */
  ghost predicate SameView(u: Mmu, r: Mmu) {
    && r.pd == u.pd
    && (forall i: nat | i < ENTRIES :: Pde(r, i) == Pde(u, i))
    && (forall v: nat | v < PAGES :: Pte(r, v) == Pte(u, v))
  }

  lemma SameViewInv(m: Mem, r: Mmu)
    requires Inv(m) && SameView(m.mmu, r)
    ensures Inv(Mem(m.pmm, r)) && TableSet(r) == TableSet(m.mmu)
  {
    hide Pde, Pte, At, Present, FrameOf, UserBit, Writable, Used;
    SameTables(m.mmu, r);
    assert forall v: nat :: Occupied(r, v) <==> Occupied(m.mmu, v);
    assert forall v: nat | Occupied(r, v) :: Frm(r, v) == Frm(m.mmu, v);
    assert forall i: nat | i < ENTRIES :: TableOf(r, i) == TableOf(m.mmu, i);
  }

  lemma SameViewGrew(m0: Mem, m: Mem, r: Mmu, pages: set<nat>, stray: set<nat>)
    requires Grew(m0, m, pages, stray) && SameView(m.mmu, r)
    ensures Grew(m0, Mem(m.pmm, r), pages, stray)
  {
    hide Pde, Pte, At, Present, FrameOf, UsedSet;
    SameTables(m.mmu, r);
    assert forall v: nat | v in pages :: Occupied(r, v) && Frm(r, v) == Frm(m.mmu, v);
    assert FramesOf(r, pages) == FramesOf(m.mmu, pages);
  }

  lemma SameViewUnowned(u: Mmu, r: Mmu, f: nat)
    requires SameView(u, r)
    ensures Unowned(r, f) <==> Unowned(u, f)
    ensures forall v: nat :: Occupied(r, v) <==> Occupied(u, v)
  {
    hide Pde, Pte, Present, IsTable;
    SameTables(u, r);
    assert forall v: nat | Occupied(u, v) :: Frm(r, v) == Frm(u, v);
  }

  /** A store into a tracked page changes that byte as seen from any tracked page, and no translation. */
  lemma PokeSpec(u: Mmu, a: u32, b: byte)
    requires Separate(u) && Occupied(u, a / 4096)
    ensures var r := Poke(u, a, b);
      && SameView(u, r) && Separate(r)
      && Peek(r, a) == b
      && (forall x: u32 | Occupied(u, x / 4096) && x != a :: Peek(r, x) == Peek(u, x))
  {
    hide Pde, ReadWord, Present, FrameOf;
    var r := Poke(u, a, b);
    var f := Frm(u, a / 4096);
    assert IsTable(u, u.pd);
    assert forall i: nat | i < ENTRIES && Present(Pde(u, i)) :: IsTable(u, TableOf(u, i));
    assert forall g: nat | g != f :: At(r, g) == At(u, g);
    PdeFrom(u, r);
    assert forall v: nat | v < PAGES :: Pte(r, v) == Pte(u, v);
    SameTables(u, r);
    assert forall v: nat | Occupied(r, v) :: Occupied(u, v) && Frm(r, v) == Frm(u, v);
    forall x: u32 | Occupied(u, x / 4096) && x != a
      ensures Peek(r, x) == Peek(u, x)
    {
      if x / 4096 == a / 4096 {
        assert x % 4096 != a % 4096;
      }
    }
  }

  lemma PdeFrom(u: Mmu, r: Mmu)
    requires r.pd == u.pd && At(r, u.pd) == At(u, u.pd)
    ensures forall i: nat | i < ENTRIES :: Pde(r, i) == Pde(u, i)
  {
  }

  /** The whole range must be tracked and mapped. */
  ghost predicate Backed(u: Mmu, a: nat, n: nat)
    requires a + n <= 0x1_0000_0000
  {
    forall x: u32 | a <= x < a + n :: Occupied(u, x / 4096)
  }

  lemma {:induction false} WriteSpec(u: Mmu, a: nat, bs: seq<byte>)
    requires a + |bs| <= 0x1_0000_0000 && Separate(u) && Backed(u, a, |bs|)
    ensures var r := Write(u, a, bs);
      && SameView(u, r) && Separate(r)
      && (forall x: u32 | Occupied(u, x / 4096) :: Peek(r, x) == if a <= x < a + |bs| then bs[x - a] else Peek(u, x))
    decreases |bs|
  {
    hide Pde, Pte, Present, FrameOf, Peek, Poke, Separate;
    if bs != [] {
      assert Occupied(u, a / 4096);
      PokeSpec(u, a, bs[0]);
      var p := Poke(u, a, bs[0]);
      assert forall v: nat :: Occupied(p, v) <==> Occupied(u, v);
      WriteSpec(p, a + 1, bs[1..]);
      var r := Write(u, a, bs);
      forall x: u32 | Occupied(u, x / 4096)
        ensures Peek(r, x) == if a <= x < a + |bs| then bs[x - a] else Peek(u, x)
      {
        assert Peek(r, x) == if a + 1 <= x < a + |bs| then bs[1..][x - a - 1] else Peek(p, x);
      }
    }
  }
}
