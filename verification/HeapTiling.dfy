/** Blocks that tile a heap page, and what kmalloc and kfree do to them (kernel/kernel.c:520-630). */
module HeapTiling {
  import opened Words
  import opened HeapBlocks

  datatype Blk = Blk(addr: u32, size: u32, free: bool)

  function EndOf(b: Blk): nat { b.addr + HEADER + b.size }

  predicate PageAligned(p: nat) { p % 4096 == 0 }

  predicate PageOk(p: nat) { PageAligned(p) && HEAP_START <= p && p + PAGE_SIZE <= HEAP_END }

  lemma PageMul8(p: nat)
    requires PageAligned(p)
    ensures Mul8(p)
  {
    EightTimes(512 * (p / 4096));
  }

  lemma EightTimes(k: nat)
    ensures Mul8(8 * k)
  {
  }

  lemma Floor8(x: nat)
    requires Mul8(x)
    ensures x / 8 * 8 == x
  {
  }

  predicate Abuts(bs: seq<Blk>, i: nat)
    requires 0 < i < |bs|
  {
    bs[i].addr == EndOf(bs[i - 1])
  }

  /** The blocks follow each other from the page header to the end of the page. */
  predicate Tiles(p: nat, bs: seq<Blk>) {
    && |bs| > 0 && bs[0].addr == p + HEADER
    && (forall i | 0 <= i < |bs| :: bs[i].size > 0 && Mul8(bs[i].size))
    && (forall i | 0 < i < |bs| :: Abuts(bs, i))
    && EndOf(bs[|bs| - 1]) == p + PAGE_SIZE
  }

  function NextOf(bs: seq<Blk>, i: nat): nat { if i + 1 < |bs| then bs[i + 1].addr else 0 }
  function PrevOf(bs: seq<Blk>, i: nat): nat requires i <= |bs| { if i > 0 then bs[i - 1].addr else 0 }

  ghost predicate Hdr(w: Ram, p: nat, b: Blk, next: nat, prev: nat) {
    && Magic(w, b.addr) == BLOCK_MAGIC && Size(w, b.addr) == b.size
    && Next(w, b.addr) == next && Prev(w, b.addr) == prev
    && (Free(w, b.addr) != 0 <==> b.free) && PageOf(w, b.addr) == p
  }

  ghost predicate HdrAt(w: Ram, p: nat, bs: seq<Blk>, i: nat)
    requires i < |bs|
  {
    Hdr(w, p, bs[i], NextOf(bs, i), PrevOf(bs, i))
  }

  ghost predicate PageHdr(w: Ram, p: nat) {
    Magic(w, p) == PAGE_MAGIC && PageVirt(w, p) == p && FirstBlock(w, p) == p + HEADER
  }

  /** The words of the page hold exactly these blocks, doubly linked. */
  ghost predicate Stored(w: Ram, p: nat, bs: seq<Blk>) {
    PageHdr(w, p) && forall i | 0 <= i < |bs| :: HdrAt(w, p, bs, i)
  }

  ghost predicate Tiled(w: Ram, p: nat, bs: seq<Blk>) {
    PageOk(p) && Tiles(p, bs) && Stored(w, p, bs)
  }

  /** Later blocks start where earlier ones have ended; every block lies 8-aligned in the page. */
  lemma {:induction false} Ordered(p: nat, bs: seq<Blk>, i: nat, j: nat)
    requires Tiles(p, bs) && i < j < |bs|
    ensures EndOf(bs[i]) <= bs[j].addr
    decreases j
  {
    assert Abuts(bs, j);
    if i < j - 1 { Ordered(p, bs, i, j - 1); }
  }

  lemma {:induction false} Placed(p: nat, bs: seq<Blk>, i: nat)
    requires PageOk(p) && Tiles(p, bs) && i < |bs|
    ensures p + HEADER <= bs[i].addr && EndOf(bs[i]) <= p + PAGE_SIZE && Mul8(bs[i].addr)
  {
    hide Mul8, PageAligned;
    AlignedAt(p, bs, i);
    if i > 0 { Ordered(p, bs, 0, i); }
    if i < |bs| - 1 { Ordered(p, bs, i, |bs| - 1); }
  }

  lemma {:induction false} AlignedAt(p: nat, bs: seq<Blk>, i: nat)
    requires PageOk(p) && Tiles(p, bs) && i < |bs|
    ensures Mul8(bs[i].addr)
  {
    hide Mul8, PageAligned;
    if i > 0 {
      assert Abuts(bs, i);
      AlignedAt(p, bs, i - 1);
      Mod8(bs[i - 1].addr, bs[i - 1].size);
    } else {
      PageMul8(p);
      Mod8(p, bs[0].size);
    }
  }

  lemma Mod8(a: nat, b: nat)
    requires Mul8(a) && Mul8(b)
    ensures Mul8(a + HEADER + b) && Mul8(a + HEADER)
  {
  }

  // ---- The walks on a tiled page ----

  lemma {:induction false} TiledChain(w: Ram, p: nat, bs: seq<Blk>, i: nat)
    requires Tiled(w, p, bs) && i < |bs|
    ensures VirtOk(w, p) && Chain(w, p, bs[i].addr)
    decreases |bs| - i
  {
    hide Mul8, PageAligned, Rd;
    Placed(p, bs, i);
    assert HdrAt(w, p, bs, i);
    if i + 1 < |bs| {
      assert Abuts(bs, i + 1);
      TiledChain(w, p, bs, i + 1);
      Placed(p, bs, i + 1);
      assert HdrAt(w, p, bs, i + 1);
    }
    assert ValidBlock(w, p, bs[i].addr);
  }

  /** A tiled page passes heap_validate_page. */
  lemma TiledValid(w: Ram, p: nat, bs: seq<Blk>)
    requires Tiled(w, p, bs)
    ensures ValidPage(w, p)
  {
    TiledChain(w, p, bs, 0);
    assert HdrAt(w, p, bs, 0);
  }

  /** Index of the first free block of at least `size` bytes from `i` on. */
  function FirstFit(bs: seq<Blk>, size: nat, i: nat): (k: nat)
    requires i <= |bs|
    ensures i <= k <= |bs| && (k < |bs| ==> bs[k].free && bs[k].size >= size)
    ensures forall j | i <= j < k :: !(bs[j].free && bs[j].size >= size)
    decreases |bs| - i
  {
    if i == |bs| || (bs[i].free && bs[i].size >= size) then i else FirstFit(bs, size, i + 1)
  }

  lemma {:induction false} TiledFind(w: Ram, p: nat, bs: seq<Blk>, size: u32, i: nat)
    requires Tiled(w, p, bs) && i < |bs|
    ensures VirtOk(w, p)
    ensures FindFrom(w, p, size, bs[i].addr) == var k := FirstFit(bs, size, i); if k < |bs| then bs[k].addr else 0
    decreases |bs| - i
  {
    hide Mul8, PageAligned, Rd;
    TiledChain(w, p, bs, i);
    Placed(p, bs, i);
    assert HdrAt(w, p, bs, i);
    if i + 1 < |bs| {
      TiledFind(w, p, bs, size, i + 1);
      Placed(p, bs, i + 1);
    }
  }

  // ---- kmalloc inside a page ----

  predicate Splits(p: nat, b: nat, size: nat) {
    p + PAGE_SIZE - (b + HEADER + size) >= HEADER + MIN_SPLIT
  }

  /** A fresh block header at `a`. */
  function PutHeader(w: Ram, a: nat, size: u32, next: u32, prev: u32, free: u32, page: u32): Ram {
    Put(Put(Put(Put(Put(Put(w, a, BLOCK_MAGIC), a + 4, size), a + 8, next), a + 12, prev), a + 16, free), a + 20, page)
  }

  lemma PutHeaderSpec(w: Ram, a: u32, size: u32, next: u32, prev: u32, free: u32, page: u32)
    ensures var r := PutHeader(w, a, size, next, prev, free, page);
      Hdr(r, page, Blk(a, size, free != 0), next, prev) && SameOutside(w, r, a, a + HEADER)
  {
  }

  /** The stores of kmalloc once a block is chosen: the remainder is measured from the page end. */
  function Carve(w: Ram, p: nat, b: nat, size: u32): Ram {
    var end := PageVirt(w, p) + PAGE_SIZE;
    var rest := b + HEADER + size;
    var w1 :=
      if Splits(PageVirt(w, p), b, size) then
        var left: u32 := Wrap32((end - rest - HEADER) / 8 * 8);
        var n := PutHeader(w, rest, left, Next(w, b), Wrap32(b), 1, Wrap32(p));
        var m := if Next(n, b) != 0 then Put(n, Next(n, b) + 12, Wrap32(rest)) else n;
        Put(Put(m, b + 8, Wrap32(rest)), b + 4, size)
      else w;
    Put(w1, b + 16, 0)
  }

  function Take(bs: seq<Blk>, k: nat): seq<Blk>
    requires k < |bs|
  {
    bs[k := bs[k].(free := false)]
  }

  /** The list after a split of the last block. */
  function SplitLast(bs: seq<Blk>, size: nat): seq<Blk>
    requires |bs| > 0 && bs[|bs| - 1].size >= size + HEADER && EndOf(bs[|bs| - 1]) < 0x1_0000_0000
  {
    var b := bs[|bs| - 1];
    bs[..|bs| - 1] + [Blk(b.addr, size, false), Blk(b.addr + HEADER + size, b.size - size - HEADER, true)]
  }

  /** The two memories agree outside the words at lo..hi. */
  ghost predicate SameOutside(w: Ram, r: Ram, lo: nat, hi: nat) {
    forall a: nat | a < lo || a >= hi :: Rd(r, a) == Rd(w, a)
  }

  lemma CarveWhole(w: Ram, p: nat, b: nat, size: u32)
    requires !Splits(PageVirt(w, p), b, size)
    ensures var r := Carve(w, p, b, size); Free(r, b) == 0 && SameOutside(w, r, b + 16, b + 20)
  {
  }

  lemma CarveLast(w: Ram, p: u32, b: u32, size: u32)
    requires PageVirt(w, p) == p && p + PAGE_SIZE < 0x1_0000_0000 && Splits(p, b, size) && Next(w, b) == 0 && Mul8(p)
    requires Mul8(b) && Mul8(size)
    ensures var r := Carve(w, p, b, size); var rest := b + HEADER + size;
      && Hdr(r, p, Blk(rest, p + PAGE_SIZE - rest - HEADER, true), 0, b)
      && Size(r, b) == size && Next(r, b) == rest && Free(r, b) == 0
      && Magic(r, b) == Magic(w, b) && Prev(r, b) == Prev(w, b) && PageOf(r, b) == PageOf(w, b)
      && SameOutside(w, r, b, rest + HEADER)
  {
    hide Mul8, PutHeader, Carve, Put;
    var rest := b + HEADER + size;
    PageLeft8(p, b, size);
    var left := p + PAGE_SIZE - rest - HEADER;
    Floor8(left);
    PutHeaderSpec(w, rest, left, 0, b, 1, p);
    var n := PutHeader(w, rest, left, 0, b, 1, p);
    CarveLastIs(w, p, b, size, left);
    ThreePuts(n, b, rest, size);
    HdrSame(n, Carve(w, p, b, size), p, Blk(rest, left, true), 0, b);
  }

  lemma CarveLastIs(w: Ram, p: u32, b: u32, size: u32, left: u32)
    requires PageVirt(w, p) == p && Splits(p, b, size) && Next(w, b) == 0 && b + HEADER + size < 0x1_0000_0000
    requires var rest := b + HEADER + size; left == p + PAGE_SIZE - rest - HEADER && left / 8 * 8 == left
    ensures var rest := b + HEADER + size;
      Carve(w, p, b, size) == Put(Put(Put(PutHeader(w, rest, left, 0, b, 1, p), b + 8, rest), b + 4, size), b + 16, 0)
  {
    hide PutHeader;
    var rest := b + HEADER + size;
    PutHeaderSpec(w, rest, left, 0, b, 1, p);
    assert Next(PutHeader(w, rest, left, 0, b, 1, p), b) == 0;
  }

  lemma ThreePuts(n: Ram, b: nat, rest: u32, size: u32)
    ensures var r := Put(Put(Put(n, b + 8, rest), b + 4, size), b + 16, 0);
      && SameOutside(n, r, b + 4, b + 20) && Size(r, b) == size && Next(r, b) == rest && Free(r, b) == 0
      && Prev(r, b) == Prev(n, b)
  {
  }

  lemma PageLeft8(p: nat, b: nat, size: nat)
    requires Mul8(p) && Mul8(b) && Mul8(size) && p + PAGE_SIZE >= b + HEADER + size + HEADER
    ensures Mul8(p + PAGE_SIZE - (b + HEADER + size) - HEADER)
  {
  }

  lemma CarveMiddle(w: Ram, p: u32, b: u32, size: u32)
    requires PageVirt(w, p) == p && p + PAGE_SIZE < 0x1_0000_0000 && Splits(p, b, size)
    requires Next(w, b) >= b + HEADER + size
    ensures var r := Carve(w, p, b, size); var rest := b + HEADER + size;
      && Next(r, rest) == Next(w, b) && Next(r, b) == rest
      && Size(r, rest) == Wrap32((p + PAGE_SIZE - rest - HEADER) / 8 * 8)
      && (forall a: nat | a < rest && a != b + 4 && a != b + 8 && a != b + 16 :: Rd(r, a) == Rd(w, a))
  {
    hide PutHeader;
    var rest := b + HEADER + size;
    var left := Wrap32((p + PAGE_SIZE - rest - HEADER) / 8 * 8);
    PutHeaderSpec(w, rest, left, Next(w, b), b, 1, p);
    var n := PutHeader(w, rest, left, Next(w, b), b, 1, p);
    assert Next(n, b) == Next(w, b);
    assert Carve(w, p, b, size) == Put(Put(Put(Put(n, Next(n, b) + 12, rest), b + 8, rest), b + 4, size), b + 16, 0);
  }

  lemma HdrSame(w: Ram, r: Ram, p: nat, b: Blk, next: nat, prev: nat)
    requires Hdr(w, p, b, next, prev) && forall a: nat | b.addr <= a < b.addr + HEADER :: Rd(r, a) == Rd(w, a)
    ensures Hdr(r, p, b, next, prev)
  {
  }

  lemma PageHdrSame(w: Ram, r: Ram, p: nat)
    requires PageHdr(w, p) && forall a: nat | a < p + HEADER :: Rd(r, a) == Rd(w, a)
    ensures PageHdr(r, p)
  {
  }

  lemma TakeTiles(w: Ram, p: nat, bs: seq<Blk>, k: nat, size: u32)
    requires Tiled(w, p, bs) && k < |bs| && !Splits(p, bs[k].addr, size)
    ensures Tiled(Carve(w, p, bs[k].addr, size), p, Take(bs, k))
  {
    hide Carve, Rd, Mul8, PageAligned;
    var r := Carve(w, p, bs[k].addr, size);
    CarveWhole(w, p, bs[k].addr, size);
    Placed(p, bs, k);
    var out := Take(bs, k);
    forall i | 0 < i < |out| ensures Abuts(out, i) { assert Abuts(bs, i); }
    assert Tiles(p, out);
    PageHdrSame(w, r, p);
    forall i | 0 <= i < |bs| ensures HdrAt(r, p, out, i) {
      assert HdrAt(w, p, bs, i);
      if i < k {
        Ordered(p, bs, i, k);
        HdrSame(w, r, p, bs[i], NextOf(bs, i), PrevOf(bs, i));
      } else if k < i {
        Ordered(p, bs, k, i);
        HdrSame(w, r, p, bs[i], NextOf(bs, i), PrevOf(bs, i));
      }
    }
  }

  lemma SplitLastTiles(p: nat, bs: seq<Blk>, size: nat)
    requires PageOk(p) && Tiles(p, bs) && size > 0 && Mul8(size) && Splits(p, bs[|bs| - 1].addr, size)
    ensures bs[|bs| - 1].size >= size + HEADER + MIN_SPLIT && EndOf(bs[|bs| - 1]) < 0x1_0000_0000
    ensures Tiles(p, SplitLast(bs, size))
  {
    hide Mul8, PageAligned;
    var n := |bs| - 1;
    var out := SplitLast(bs, size);
    forall i | 0 < i < |out| ensures Abuts(out, i) {
      if i <= n { assert Abuts(bs, i); }
    }
    Rem8(bs[n].size, size);
    assert EndOf(out[n + 1]) == EndOf(bs[n]);
  }

  lemma Rem8(a: nat, b: nat)
    requires Mul8(a) && Mul8(b) && a >= b + HEADER
    ensures Mul8(a - b - HEADER)
  {
  }

  lemma SplitTiles(w: Ram, p: nat, bs: seq<Blk>, size: u32)
    requires Tiled(w, p, bs) && size > 0 && Mul8(size) && Splits(p, bs[|bs| - 1].addr, size)
    ensures bs[|bs| - 1].size >= size + HEADER && EndOf(bs[|bs| - 1]) < 0x1_0000_0000
    ensures Tiled(Carve(w, p, bs[|bs| - 1].addr, size), p, SplitLast(bs, size))
  {
    hide Carve, Rd, Mul8, PageAligned;
    PageMul8(p);
    var n := |bs| - 1;
    var b := bs[n];
    Placed(p, bs, n);
    assert HdrAt(w, p, bs, n);
    SplitLastTiles(p, bs, size);
    CarveLast(w, p, b.addr, size);
    var r := Carve(w, p, b.addr, size);
    PageHdrSame(w, r, p);
    var out := SplitLast(bs, size);
    SplitEnds(p, bs);
    forall i | 0 <= i < |out| ensures HdrAt(r, p, out, i) {
      if i < n {
        assert HdrAt(w, p, bs, i);
        Ordered(p, bs, i, n);
        HdrSame(w, r, p, bs[i], NextOf(bs, i), PrevOf(bs, i));
      }
    }
  }

  lemma SplitEnds(p: nat, bs: seq<Blk>)
    requires Tiles(p, bs)
    ensures EndOf(bs[|bs| - 1]) == p + PAGE_SIZE
  {
  }

  /** A split of a block that is not the last leaves a chain that no longer validates. */
  lemma SplitBreaks(w: Ram, p: nat, bs: seq<Blk>, k: nat, size: u32)
    requires Tiled(w, p, bs) && k + 1 < |bs| && size <= bs[k].size && size > 0 && Mul8(size)
    requires Splits(p, bs[k].addr, size)
    ensures !ValidPage(Carve(w, p, bs[k].addr, size), p)
  {
    hide Carve, Rd, Chain, ValidBlock, Mul8, PageAligned, Wrap32;
    PageMul8(p);
    Mod8(bs[k].addr, size) by { Placed(p, bs, k); }
    var b := bs[k].addr;
    var r := Carve(w, p, b, size);
    Placed(p, bs, k);
    Placed(p, bs, k + 1);
    assert HdrAt(w, p, bs, k);
    assert Abuts(bs, k + 1);
    CarveMiddle(w, p, b, size);
    PageHdrSame(w, r, p);
    var rest := b + HEADER + size;
    NotLinked(r, p, rest, bs[k + 1].addr);
    BrokenChain(w, r, p, bs, k, 0, rest);
  }

  lemma NotLinked(r: Ram, p: u32, rest: u32, next: u32)
    requires PageVirt(r, p) == p && Mul8(p) && p + PAGE_SIZE < 0x1_0000_0000 && p <= rest
    requires rest + HEADER + MIN_SPLIT <= p + PAGE_SIZE && Mul8(rest)
    requires Next(r, rest) == next && Size(r, rest) == Wrap32((p + PAGE_SIZE - rest - HEADER) / 8 * 8)
    requires 0 < next < p + PAGE_SIZE
    ensures !ValidBlock(r, p, rest)
  {
    Floor8(p + PAGE_SIZE - rest - HEADER);
  }

  lemma {:induction false} BrokenChain(w: Ram, r: Ram, p: nat, bs: seq<Blk>, k: nat, i: nat, rest: u32)
    requires Tiled(w, p, bs) && i <= k < |bs| && VirtOk(r, p) && rest != 0
    requires Next(r, bs[k].addr) == rest && !ValidBlock(r, p, rest)
    requires forall a: nat | a < bs[k].addr :: Rd(r, a) == Rd(w, a)
    ensures !Chain(r, p, bs[i].addr)
    decreases k - i
  {
    hide Rd, ValidBlock, Mul8, PageAligned, Wrap32;
    Placed(p, bs, i);
    if i < k {
      Ordered(p, bs, i, k);
      assert HdrAt(w, p, bs, i);
      BrokenChain(w, r, p, bs, k, i + 1, rest);
    }
  }

  /** Main result for kmalloc in a page: the page still validates, and is still tiled, if and only
      if the chosen block was the last one or too small to split. */
  lemma CarveExact(w: Ram, p: nat, bs: seq<Blk>, k: nat, size: u32)
    requires Tiled(w, p, bs) && k < |bs| && 0 < size <= bs[k].size && Mul8(size)
    ensures var r := Carve(w, p, bs[k].addr, size); var safe := k == |bs| - 1 || !Splits(p, bs[k].addr, size);
      (ValidPage(r, p) <==> safe) && ((exists out :: Tiled(r, p, out)) <==> safe)
  {
    hide Carve, Tiled, ValidPage, Splits;
    var r := Carve(w, p, bs[k].addr, size);
    if !Splits(p, bs[k].addr, size) {
      TakeTiles(w, p, bs, k, size);
      TiledValid(r, p, Take(bs, k));
    } else if k == |bs| - 1 {
      SplitTiles(w, p, bs, size);
      TiledValid(r, p, SplitLast(bs, size));
    } else {
      SplitBreaks(w, p, bs, k, size);
      forall out | Tiled(r, p, out) ensures false {
        TiledValid(r, p, out);
      }
    }
  }
}
