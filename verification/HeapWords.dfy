/** Heap pages in memory words, whole or broken, and which words a call can touch
    (kernel/kernel.c:368-630). */
module HeapWords {
  import opened Words
  import opened HeapBlocks
  import opened HeapTiling
  import opened HeapFree
  import opened HeapLists
  import opened KernelHeap

  ghost predicate Untouched(w: Ram, r: Ram, p: nat) {
    forall a: nat | a < p + HEADER || a >= p + PAGE_SIZE :: Rd(r, a) == Rd(w, a)
  }

  lemma TiledElsewhere(w: Ram, r: Ram, p: nat, q: nat, bs: seq<Blk>)
    requires Tiled(w, q, bs) && Untouched(w, r, p) && (q + PAGE_SIZE <= p || p + PAGE_SIZE <= q)
    ensures Tiled(r, q, bs) && PageNext(r, q) == PageNext(w, q)
  {
    hide Rd, Mul8, PageAligned;
    assert PageHdr(r, q);
    forall i | 0 <= i < |bs| ensures HdrAt(r, q, bs, i) {
      assert HdrAt(w, q, bs, i);
      Placed(q, bs, i);
      HdrSame(w, r, q, bs[i], NextOf(bs, i), PrevOf(bs, i));
    }
  }

  lemma CarveLocal(w: Ram, p: nat, bs: seq<Blk>, k: nat, size: u32)
    requires Tiled(w, p, bs) && k < |bs| && Mul8(size) && (k == |bs| - 1 || !Splits(p, bs[k].addr, size))
    ensures Untouched(w, Carve(w, p, bs[k].addr, size), p)
  {
    hide Carve, Rd, Mul8, PageAligned, Tiles;
    Placed(p, bs, k);
    assert HdrAt(w, p, bs, k);
    PageMul8(p);
    if Splits(p, bs[k].addr, size) {
      CarveLast(w, p, bs[k].addr, size);
    } else {
      CarveWhole(w, p, bs[k].addr, size);
    }
  }

  lemma JoinLocal(w: Ram, p: nat, bs: seq<Blk>, i: nat)
    requires Tiled(w, p, bs) && i + 1 < |bs|
    ensures Untouched(w, JoinWords(w, bs[i].addr, bs[i + 1].addr), p)
  {
    hide JoinWords, Rd, Mul8, PageAligned;
    Placed(p, bs, i);
    Placed(p, bs, i + 1);
    assert Abuts(bs, i + 1) && HdrAt(w, p, bs, i) && HdrAt(w, p, bs, i + 1);
    if i + 2 < |bs| { Placed(p, bs, i + 2); Ordered(p, bs, i + 1, i + 2); }
    JoinWordsSpec(w, bs[i].addr, bs[i + 1].addr, NextOf(bs, i + 1));
  }

  lemma UniteLocal(w: Ram, p: nat, bs: seq<Blk>, k: nat)
    requires Tiled(w, p, bs) && k < |bs|
    ensures Untouched(w, Unite(w, bs[k].addr), p)
  {
    hide JoinWords, Rd, Mul8, PageAligned, Tiles, Hdr, Put, Join;
    var b: nat := bs[k].addr;
    Placed(p, bs, k);
    MarkStored(w, p, bs, k);
    var w1 := Put(w, b + 16, 1);
    PutLocal(w, p, b + 16, 1);
    var a := bs[k := bs[k].(free := true)];
    Neighbours(w1, p, a, k);
    var c := AfterNext(p, bs, k);
    if JoinsNext(bs, k) { JoinStored(w1, p, a, k); JoinLocal(w1, p, a, k); JoinKeeps(a, k); }
    var w2 := if Next(w1, b) != 0 && Free(w1, Next(w1, b)) != 0 then JoinWords(w1, b, Next(w1, b)) else w1;
    assert Tiled(w2, p, c) && c[k].addr == b && (k > 0 ==> c[k - 1] == bs[k - 1]);
    Neighbours(w2, p, c, k);
    if JoinsPrev(bs, k) { JoinLocal(w2, p, c, k - 1); }
  }

  lemma JoinKeeps(bs: seq<Blk>, k: nat)
    requires k + 1 < |bs| && EndOf(bs[k + 1]) < 0x1_0000_0000
    ensures Join(bs, k)[k].addr == bs[k].addr && (k > 0 ==> Join(bs, k)[k - 1] == bs[k - 1])
  {
  }

  lemma PutLocal(w: Ram, p: nat, a: nat, x: u32)
    requires p + HEADER <= a < p + PAGE_SIZE
    ensures Untouched(w, Put(w, a, x), p)
  {
  }

  // ---- A broken page ----

  /** A header that kfree refuses: no block magic, or a page that does not validate. */
  predicate Harmless(w: Ram, p: nat, a: nat) { Magic(w, a) != BLOCK_MAGIC || PageOf(w, a) == p }

  predicate CutOk(p: nat, bs: seq<Blk>, k: nat, n: nat) {
    k + 1 < |bs| && 0 < n <= bs[k].size && Mul8(n) && Splits(p, bs[k].addr, n)
  }

  predicate Linked(w: Ram, bs: seq<Blk>, i: nat)
    requires i + 1 < |bs|
  {
    Next(w, bs[i].addr) == bs[i + 1].addr
  }

  /** The links lead to block `k`, on to a header at the end of its request, and from there to a block
      that does not follow it. */
  ghost predicate Severed(w: Ram, p: nat, bs: seq<Blk>, k: nat, n: nat)
    requires CutOk(p, bs, k, n)
  {
    var rest := bs[k].addr + HEADER + n;
    && (forall i | 0 <= i < k :: Linked(w, bs, i))
    && Next(w, bs[k].addr) == rest && Next(w, rest) == bs[k + 1].addr
    && Size(w, rest) == Wrap32((p + PAGE_SIZE - rest - HEADER) / 8 * 8)
  }

  /** What the words of a broken page hold: severed links, and no block that can be given back. */
  ghost predicate BrokenAt(w: Ram, p: u32, bs: seq<Blk>, k: nat, n: nat) {
    && PageOk(p) && Tiles(p, bs) && PageHdr(w, p) && CutOk(p, bs, k, n) && Severed(w, p, bs, k, n)
    && forall j | 0 <= j < |bs| :: Harmless(w, p, bs[j].addr)
  }

  /** A broken page does not validate. */
  lemma BrokenInvalid(w: Ram, p: u32, bs: seq<Blk>, k: nat, n: nat)
    requires BrokenAt(w, p, bs, k, n)
    ensures !ValidPage(w, p)
  {
    hide Rd, Chain, ValidBlock, Mul8, PageAligned, Wrap32, Harmless;
    PageMul8(p);
    Placed(p, bs, k);
    Placed(p, bs, k + 1);
    assert Abuts(bs, k + 1);
    Mod8(bs[k].addr, n);
    VirtFits(w, p);
    NotLinked(w, p, bs[k].addr + HEADER + n, bs[k + 1].addr);
    SeveredChain(w, p, bs, k, n, 0);
  }

  lemma VirtFits(w: Ram, p: u32)
    requires PageOk(p) && PageVirt(w, p) == p
    ensures VirtOk(w, p)
  {
  }

  lemma {:induction false} SeveredChain(w: Ram, p: u32, bs: seq<Blk>, k: nat, n: nat, i: nat)
    requires PageOk(p) && Tiles(p, bs) && CutOk(p, bs, k, n) && Severed(w, p, bs, k, n) && i <= k && VirtOk(w, p)
    requires bs[k].addr + HEADER + n < 0x1_0000_0000 && !ValidBlock(w, p, bs[k].addr + HEADER + n)
    ensures bs[i].addr < 0x1_0000_0000 && !Chain(w, p, bs[i].addr)
    decreases k - i
  {
    hide Rd, ValidBlock, Mul8, PageAligned, Wrap32;
    Placed(p, bs, i);
    if i < k {
      assert Linked(w, bs, i);
      SeveredChain(w, p, bs, k, n, i + 1);
    }
  }

  /** kfree of any block of a broken page changes nothing. */
  lemma KfreeBroken(w: Ram, p: u32, bs: seq<Blk>, k: nat, n: nat, j: nat)
    requires BrokenAt(w, p, bs, k, n) && j < |bs| && bs[j].addr + HEADER < 0x1_0000_0000
    ensures Kfree(w, bs[j].addr + HEADER) == w
  {
    hide ValidPage, Tiles;
    BrokenInvalid(w, p, bs, k, n);
    assert Harmless(w, p, bs[j].addr);
  }

  /** The words around a split of a block that is not the last. */
  lemma SplitWords(w: Ram, p: u32, b: u32, size: u32, next: u32)
    requires PageVirt(w, p) == p && p + PAGE_SIZE < 0x1_0000_0000 && Splits(p, b, size)
    requires Next(w, b) == next >= b + HEADER + size
    requires Mul8(next - (b + HEADER + size)) && next < HEAP_END && HEAP_START <= next
    ensures var r := Carve(w, p, b, size); var rest := b + HEADER + size;
      && (forall a: nat | a < rest && a != b + 4 && a != b + 8 && a != b + 16 :: Rd(r, a) == Rd(w, a))
      && (forall a: nat | a >= rest + HEADER && a != next + 12 :: Rd(r, a) == Rd(w, a))
      && (Magic(r, next) != BLOCK_MAGIC || PageOf(r, next) == p || PageOf(r, next) == PageOf(w, next))
  {
    hide PutHeader, Mul8, Carve, Put;
    var rest := b + HEADER + size;
    var left := Wrap32((p + PAGE_SIZE - rest - HEADER) / 8 * 8);
    PutHeaderSpec(w, rest, left, next, b, 1, p);
    var n := PutHeader(w, rest, left, next, b, 1, p);
    CarveIs(w, p, b, size, next);
    FourPuts(n, next + 12, rest, b, size);
    FreeWord(w, rest, left, next, b, p);
    EightSteps(next - rest);
  }

  lemma CarveIs(w: Ram, p: u32, b: u32, size: u32, next: u32)
    requires PageVirt(w, p) == p && p + PAGE_SIZE < 0x1_0000_0000 && Splits(p, b, size)
    requires Next(w, b) == next >= b + HEADER + size && next != 0
    ensures var rest := b + HEADER + size; var left := Wrap32((p + PAGE_SIZE - rest - HEADER) / 8 * 8);
      var n := PutHeader(w, rest, left, next, b, 1, p);
      Carve(w, p, b, size) == Put(Put(Put(Put(n, next + 12, rest), b + 8, rest), b + 4, size), b + 16, 0)
  {
    hide PutHeader;
    var rest := b + HEADER + size;
    var left := Wrap32((p + PAGE_SIZE - rest - HEADER) / 8 * 8);
    PutHeaderSpec(w, rest, left, next, b, 1, p);
    assert Next(PutHeader(w, rest, left, next, b, 1, p), b) == next;
  }

  lemma FourPuts(n: Ram, at: nat, rest: u32, b: nat, size: u32)
    requires b + HEADER <= rest <= at
    ensures var r := Put(Put(Put(Put(n, at, rest), b + 8, rest), b + 4, size), b + 16, 0);
      forall a: nat | a != at && a != b + 4 && a != b + 8 && a != b + 16 :: Rd(r, a) == Rd(n, a)
  {
  }

  lemma FreeWord(w: Ram, a: u32, size: u32, next: u32, prev: u32, page: u32)
    ensures Free(PutHeader(w, a, size, next, prev, 1, page), a) == 1
  {
  }

  lemma EightSteps(d: nat)
    requires Mul8(d)
    ensures d == 0 || d == 8 || d == 16 || d >= HEADER
  {
  }

  /** A split of a block that is not the last breaks the page, for good and for every block in it,
      and touches no other page. */
  lemma CarveBreaks(w: Ram, p: u32, bs: seq<Blk>, k: nat, size: u32)
    requires Tiled(w, p, bs) && CutOk(p, bs, k, size)
    ensures var r := Carve(w, p, bs[k].addr, size); BrokenAt(r, p, Take(bs, k), k, size) && Untouched(w, r, p)
  {
    hide Carve, Rd, Mul8, PageAligned, Tiles, Take, Severed;
    TakeKeepsTiles(p, bs, k);
    CarveWords(w, p, bs, k, size);
    var r := Carve(w, p, bs[k].addr, size);
    PageHdrSame(w, r, p);
    var out := Take(bs, k);
    TakeAddrs(bs, k);
    CarveSevers(w, p, bs, k, size);
    forall j | 0 <= j < |out| ensures Harmless(r, p, out[j].addr) { CarveHarmless(w, p, bs, k, size, j); }
  }

  lemma CarveSevers(w: Ram, p: u32, bs: seq<Blk>, k: nat, size: u32)
    requires Tiled(w, p, bs) && CutOk(p, bs, k, size)
    ensures CutOk(p, Take(bs, k), k, size) && Severed(Carve(w, p, bs[k].addr, size), p, Take(bs, k), k, size)
  {
    hide Carve, Rd, Mul8, PageAligned, Wrap32;
    CarveWords(w, p, bs, k, size);
    Placed(p, bs, k);
    Placed(p, bs, k + 1);
    assert HdrAt(w, p, bs, k) && Abuts(bs, k + 1);
    CarveMiddle(w, p, bs[k].addr, size);
    var r, out := Carve(w, p, bs[k].addr, size), Take(bs, k);
    TakeAddrs(bs, k);
    forall i | 0 <= i < k ensures Linked(r, out, i) {
      Ordered(p, bs, i, k);
      assert HdrAt(w, p, bs, i);
    }
  }

  lemma TakeAddrs(bs: seq<Blk>, k: nat)
    requires k < |bs|
    ensures |Take(bs, k)| == |bs|
    ensures forall j | 0 <= j < |bs| :: Take(bs, k)[j].addr == bs[j].addr && Take(bs, k)[j].size == bs[j].size
  {
  }

  /** Which words such a split changes: the chosen header, a new header at the end of the request, and
      the back link of the next block. */
  lemma CarveWords(w: Ram, p: u32, bs: seq<Blk>, k: nat, size: u32)
    requires Tiled(w, p, bs) && CutOk(p, bs, k, size)
    ensures var r := Carve(w, p, bs[k].addr, size); var b := bs[k].addr; var rest := b + HEADER + size;
      var next := bs[k + 1].addr;
      && p + HEADER <= b && rest <= next && next + HEADER <= p + PAGE_SIZE
      && (forall a: nat | a < rest && a != b + 4 && a != b + 8 && a != b + 16 :: Rd(r, a) == Rd(w, a))
      && (forall a: nat | a >= rest + HEADER && a != next + 12 :: Rd(r, a) == Rd(w, a))
      && (Magic(r, next) != BLOCK_MAGIC || PageOf(r, next) == p)
      && Untouched(w, r, p)
  {
    hide Carve, Rd, Mul8, PageAligned;
    Placed(p, bs, k);
    Placed(p, bs, k + 1);
    assert HdrAt(w, p, bs, k) && HdrAt(w, p, bs, k + 1) && Abuts(bs, k + 1);
    Gap8(bs[k].size, size);
    SplitWords(w, p, bs[k].addr, size, bs[k + 1].addr);
  }

  lemma Gap8(a: nat, b: nat)
    requires Mul8(a) && Mul8(b) && b <= a
    ensures Mul8(a - b)
  {
  }

  lemma CarveHarmless(w: Ram, p: u32, bs: seq<Blk>, k: nat, size: u32, j: nat)
    requires Tiled(w, p, bs) && CutOk(p, bs, k, size) && j < |bs|
    ensures Harmless(Carve(w, p, bs[k].addr, size), p, bs[j].addr)
  {
    hide Carve, Rd, Mul8, PageAligned, Tiles;
    CarveWords(w, p, bs, k, size);
    assert HdrAt(w, p, bs, j);
    if j < k { Ordered(p, bs, j, k); }
    if j > k + 1 { Ordered(p, bs, k + 1, j); Placed(p, bs, k + 1); }
  }

  /** No word of a live payload is touched, in whatever page. */
  lemma CarveSpares(w: Ram, p: u32, bs: seq<Blk>, k: nat, size: u32, j: nat, a: nat)
    requires Tiled(w, p, bs) && CutOk(p, bs, k, size)
    requires j < |bs| && j != k && bs[j].addr + HEADER <= a < EndOf(bs[j])
    ensures Rd(Carve(w, p, bs[k].addr, size), a) == Rd(w, a)
  {
    hide Carve, Rd, Mul8, PageAligned, Tiles;
    CarveWords(w, p, bs, k, size);
    if j < k { Ordered(p, bs, j, k); }
    if j > k + 1 { Ordered(p, bs, k + 1, j); }
  }

  lemma BrokenSame(w: Ram, r: Ram, p: u32, bs: seq<Blk>, k: nat, n: nat)
    requires BrokenAt(w, p, bs, k, n) && PageHdr(r, p)
    requires forall a: nat | p + HEADER <= a < p + PAGE_SIZE :: Rd(r, a) == Rd(w, a)
    ensures BrokenAt(r, p, bs, k, n)
  {
    hide Rd, Mul8, PageAligned, Wrap32, Tiles;
    BrokenWords(w, r, p, bs, k, n);
  }

  /** Only header words matter: those of the blocks, and the one at the end of the request. */
  lemma BrokenWords(w: Ram, r: Ram, p: u32, bs: seq<Blk>, k: nat, n: nat)
    requires BrokenAt(w, p, bs, k, n) && PageHdr(r, p)
    requires forall a: nat | InHeader(bs, a) || bs[k].addr + HEADER + n <= a < bs[k].addr + HEADER + n + 12 ::
      p + HEADER <= a < p + PAGE_SIZE ==> Rd(r, a) == Rd(w, a)
    ensures BrokenAt(r, p, bs, k, n)
  {
    hide Rd, Mul8, PageAligned, Wrap32;
    Placed(p, bs, k);
    Placed(p, bs, k + 1);
    HeaderAt(bs, k);
    forall i | 0 <= i < k ensures Linked(r, bs, i) {
      assert Linked(w, bs, i);
      Placed(p, bs, i);
      HeaderAt(bs, i);
    }
    forall j | 0 <= j < |bs| ensures Harmless(r, p, bs[j].addr) {
      assert Harmless(w, p, bs[j].addr);
      Placed(p, bs, j);
      HeaderAt(bs, j);
    }
  }

  ghost predicate InHeader(bs: seq<Blk>, a: nat) {
    exists i :: 0 <= i < |bs| && bs[i].addr <= a < bs[i].addr + HEADER
  }

  lemma HeaderAt(bs: seq<Blk>, i: nat)
    requires i < |bs|
    ensures forall a: nat | bs[i].addr <= a < bs[i].addr + HEADER :: InHeader(bs, a)
  {
  }

  // ---- New pages ----

  function RoundUp(size: u32): (n: u32)
    requires 0 < size <= 0xFFFF_FFF8
    ensures Mul8(n) && size <= n < size + 8
  {
    (size + 7) / 8 * 8
  }

  function PutPage(w: Ram, p: u32, phys: u32, head: u32): Ram
    requires p < HEAP_END
  {
    Put(Put(Put(Put(Put(Put(w, p, PAGE_MAGIC), p + 4, phys), p + 8, p), p + 12, head), p + 16, 0), p + 20, p + HEADER)
  }

  lemma PutPageSpec(w: Ram, p: u32, phys: u32, head: u32)
    requires p < HEAP_END
    ensures var r := PutPage(w, p, phys, head);
      PageHdr(r, p) && PageNext(r, p) == head && forall a: nat | a < p :: Rd(r, a) == Rd(w, a)
  {
  }

  /** The words heap_alloc_page writes for a new page at `p` in front of the list `head`. */
  function NewPage(w: Ram, p: u32, phys: u32, head: u32): Ram
    requires p < HEAP_END
  {
    var r := PutHeader(PutPage(w, p, phys, head), p + HEADER, FRESH, 0, 0, 1, p);
    if head != 0 then Put(r, head + 16, p) else r
  }

  lemma NewPageSpec(w: Ram, p: u32, phys: u32, head: u32)
    requires PageOk(p) && (head == 0 || head + PAGE_SIZE <= p)
    ensures var r := NewPage(w, p, phys, head);
      && Tiled(r, p, Fresh(p)) && PageNext(r, p) == head
      && (forall a: nat | a < p && (head == 0 || a != head + 16) :: Rd(r, a) == Rd(w, a))
  {
    hide Mul8, PageAligned, PutHeader, PutPage, Tiles;
    PutPageSpec(w, p, phys, head);
    var w1 := PutPage(w, p, phys, head);
    PutHeaderSpec(w1, p + HEADER, FRESH, 0, 0, 1, p);
    var w2 := PutHeader(w1, p + HEADER, FRESH, 0, 0, 1, p);
    assert PageHdr(w2, p) && PageNext(w2, p) == head;
    var r := NewPage(w, p, phys, head);
    assert forall a: nat | head == 0 || a != head + 16 :: Rd(r, a) == Rd(w2, a);
    HdrSame(w2, r, p, Blk(p + HEADER, FRESH, true), 0, 0);
    assert HdrAt(r, p, Fresh(p), 0);
  }

  /** Pages below a new one keep their blocks; only the old head's back link may change. */
  lemma TiledLower(w: Ram, r: Ram, q: nat, head: nat, bs: seq<Blk>)
    requires Tiled(w, q, bs) && (q == head || q + PAGE_SIZE <= head)
    requires forall a: nat | a < q + PAGE_SIZE && a != head + 16 :: Rd(r, a) == Rd(w, a)
    ensures Tiled(r, q, bs) && PageNext(r, q) == PageNext(w, q)
  {
    hide Rd, Mul8, PageAligned;
    assert PageHdr(r, q);
    forall i | 0 <= i < |bs| ensures HdrAt(r, q, bs, i) {
      assert HdrAt(w, q, bs, i);
      Placed(q, bs, i);
      HdrSame(w, r, q, bs[i], NextOf(bs, i), PrevOf(bs, i));
    }
  }
}
