/** The kernel heap as an object: memory words, the page list head and heap_next_virtual, updated
    in place by heap_alloc_page, kmalloc and kfree (kernel/kernel.c:446-630). */
module HeapObject {
  import opened Words
  import opened HeapBlocks
  import opened HeapTiling
  import opened HeapFree
  import opened HeapLists
  import opened KernelHeap
  import opened HeapRuns
  import opened HeapWords

  function Link(count: nat, i: nat): nat
    requires i <= count
  {
    if i < count then AddrOf(count, i) else 0
  }

  ghost predicate PageHolds(w: Ram, p: u32, page: Page) {
    match page
    case Whole(bs) => Tiled(w, p, bs)
    case Broken(bs, k, n) => BrokenAt(w, p, bs, k, n)
  }

  ghost predicate PageStored(w: Ram, pages: seq<Page>, i: nat)
    requires i < |pages| <= MAX_HEAP_PAGES
  {
    PageHolds(w, AddrOf(|pages|, i), pages[i]) && PageNext(w, AddrOf(|pages|, i)) == Link(|pages|, i + 1)
  }

  /** Every page of the list is in memory as it should be and linked to the next older one. */
  ghost predicate HeapStored(w: Ram, pages: seq<Page>) {
    |pages| <= MAX_HEAP_PAGES && forall i | 0 <= i < |pages| :: PageStored(w, pages, i)
  }

  /** A page validates if and only if it is whole. */
  lemma HoldsValid(w: Ram, p: u32, page: Page)
    requires PageHolds(w, p, page)
    ensures PageOk(p) && PageHdr(w, p) && (ValidPage(w, p) <==> page.Whole?)
  {
    hide ValidPage, Tiles, Harmless, Severed;
    match page
    case Whole(bs) => TiledValid(w, p, bs);
    case Broken(bs, k, n) => BrokenInvalid(w, p, bs, k, n);
  }

  lemma HoldsElsewhere(w: Ram, r: Ram, p: nat, q: u32, page: Page)
    requires PageHolds(w, q, page) && Untouched(w, r, p) && (q + PAGE_SIZE <= p || p + PAGE_SIZE <= q)
    ensures PageHolds(r, q, page) && PageNext(r, q) == PageNext(w, q)
  {
    hide Rd, Tiles, Tiled, BrokenAt, ValidPage;
    if page.Whole? {
      TiledElsewhere(w, r, p, q, page.blocks);
    } else {
      assert PageHdr(w, q) by { BrokenHdr(w, q, page); }
      BrokenSame(w, r, q, page.blocks, page.cut, page.asked);
    }
  }

  lemma BrokenHdr(w: Ram, p: u32, page: Page)
    requires page.Broken? && BrokenAt(w, p, page.blocks, page.cut, page.asked)
    ensures PageHdr(w, p) && PageOk(p)
  {
  }

  lemma HoldsLower(w: Ram, r: Ram, q: u32, head: nat, page: Page)
    requires PageHolds(w, q, page) && (q == head || q + PAGE_SIZE <= head)
    requires forall a: nat | a < q + PAGE_SIZE && a != head + 16 :: Rd(r, a) == Rd(w, a)
    ensures PageHolds(r, q, page) && PageNext(r, q) == PageNext(w, q)
  {
    hide Rd, Tiles, Tiled, BrokenAt, ValidPage;
    if page.Whole? {
      TiledLower(w, r, q, head, page.blocks);
    } else {
      assert PageHdr(w, q) by { BrokenHdr(w, q, page); }
      BrokenSame(w, r, q, page.blocks, page.cut, page.asked);
    }
  }

  lemma GrowStored(w: Ram, h: Heap, phys: u32)
    requires HeapOk(h) && HeapStored(w, h.pages) && CanGrow(h)
    ensures HeapStored(NewPage(w, HEAP_START + 4096 * |h.pages|, phys, Link(|h.pages|, 0)), Grow(h).pages)
  {
    hide PageHolds, NewPage, Tiles, Rd;
    var n, g := |h.pages|, Grow(h);
    var p: u32 := HEAP_START + 4096 * n;
    AddrOk(n + 1, 0);
    assert AddrOf(n + 1, 0) == p;
    if n > 0 { AddrApart(n + 1, 0, 1); }
    NewPageSpec(w, p, phys, Link(n, 0));
    var r := NewPage(w, p, phys, Link(n, 0));
    FreshHolds(r, p);
    forall i | 0 <= i < |g.pages| ensures PageStored(r, g.pages, i) {
      if i > 0 {
        assert PageStored(w, h.pages, i - 1);
        assert g.pages[i] == h.pages[i - 1] && AddrOf(n, i - 1) == AddrOf(n + 1, i);
        if i > 1 { AddrApart(n, 0, i - 1); }
        AddrApart(n + 1, 0, i);
        HoldsLower(w, r, AddrOf(n, i - 1), AddrOf(n, 0), h.pages[i - 1]);
      }
    }
  }

  lemma FreshHolds(w: Ram, p: u32)
    requires p + PAGE_SIZE <= HEAP_END && Tiled(w, p, Fresh(p))
    ensures PageHolds(w, p, Whole(Fresh(p)))
  {
  }

  /** Changing one page within its own blocks leaves the rest of the heap as stored. */
  lemma UpdateStored(w: Ram, r: Ram, h: Heap, i: nat, page: Page)
    requires HeapOk(h) && HeapStored(w, h.pages) && i < |h.pages|
    requires Untouched(w, r, AddrOf(|h.pages|, i)) && PageHolds(r, AddrOf(|h.pages|, i), page)
    ensures HeapStored(r, h.pages[i := page])
  {
    hide PageHolds, Rd;
    var n, pages := |h.pages|, h.pages[i := page];
    forall j | 0 <= j < n ensures PageStored(r, pages, j) {
      assert PageStored(w, h.pages, j);
      if j != i {
        if i < j { AddrApart(n, i, j); } else { AddrApart(n, j, i); }
        HoldsElsewhere(w, r, AddrOf(n, i), AddrOf(n, j), h.pages[j]);
      }
    }
  }

  lemma CarveStored(w: Ram, h: Heap, i: nat, n: u32)
    requires HeapOk(h) && HeapStored(w, h.pages) && n > 0 && Mul8(n) && i == Stop(h.pages, n, 0) < |h.pages|
    requires h.pages[i].Whole?
    ensures var bs := h.pages[i].blocks; var b := bs[FirstFit(bs, n, 0)].addr; var r := Alloc(h, n);
      && HeapStored(Carve(w, AddrOf(|h.pages|, i), b, n), r.heap.pages)
      && r.ptr == b + HEADER && |r.heap.pages| == |h.pages| && r.heap.frames == h.frames
  {
    hide Tiles, Carve, Mul8, PageAligned, Splits, Untouched, BrokenAt;
    var p, bs := AddrOf(|h.pages|, i), h.pages[i].blocks;
    assert PageStored(w, h.pages, i);
    AddrOk(|h.pages|, i);
    var k := FirstFit(bs, n, 0);
    if SafeIn(p, bs, n) {
      CarveLocal(w, p, bs, k, n);
      if Splits(p, bs[k].addr, n) { LastOf(p, bs, n); SplitTiles(w, p, bs, n); } else { TakeTiles(w, p, bs, k, n); }
    } else {
      CarveBreaks(w, p, bs, k, n);
    }
    UpdateStored(w, Carve(w, p, bs[k].addr, n), h, i, Carved(p, bs, n));
  }

  lemma LastOf(p: nat, bs: seq<Blk>, n: nat)
    requires FirstFit(bs, n, 0) < |bs| && SafeIn(p, bs, n) && Splits(p, bs[FirstFit(bs, n, 0)].addr, n)
    ensures FirstFit(bs, n, 0) == |bs| - 1
  {
  }

  /** What the scan sees of one page. */
  lemma FindStored(w: Ram, h: Heap, i: nat, n: u32)
    requires HeapOk(h) && HeapStored(w, h.pages) && i < |h.pages|
    ensures var p, bs := AddrOf(|h.pages|, i), h.pages[i].blocks; var k := FirstFit(bs, n, 0);
      && p < HEAP_END && PageVirt(w, p) == p && (ValidPage(w, p) <==> h.pages[i].Whole?)
      && (h.pages[i].Whole? ==> FindFree(w, p, n) == (if k < |bs| then bs[k].addr else 0))
      && (k < |bs| ==> HEAP_START < bs[k].addr && EndOf(bs[k]) <= p + PAGE_SIZE)
  {
    hide Tiles, Rd, ValidBlock, Chain;
    var p, bs := AddrOf(|h.pages|, i), h.pages[i].blocks;
    assert PageStored(w, h.pages, i);
    HoldsValid(w, p, h.pages[i]);
    PageTiles(h, i);
    NonEmpty(p, bs);
    if h.pages[i].Whole? { TiledFind(w, p, bs, n, 0); }
    var k := FirstFit(bs, n, 0);
    if k < |bs| { Placed(p, bs, k); }
  }

  lemma NonEmpty(p: nat, bs: seq<Blk>)
    requires Tiles(p, bs)
    ensures |bs| > 0 && bs[0].addr == p + HEADER
  {
  }

  lemma NextStored(w: Ram, h: Heap, i: nat)
    requires HeapStored(w, h.pages) && i < |h.pages|
    ensures PageNext(w, AddrOf(|h.pages|, i)) == Link(|h.pages|, i + 1)
  {
    assert PageStored(w, h.pages, i);
  }

  lemma StopIs(pages: seq<Page>, n: nat, i: nat)
    requires i <= |pages| && (i < |pages| ==> StopsAt(pages[i], n)) && forall j | 0 <= j < i :: !StopsAt(pages[j], n)
    ensures Stop(pages, n, 0) == i
  {
  }

  lemma FreeStored(w: Ram, h: Heap, i: nat, k: nat)
    requires HeapOk(h) && HeapStored(w, h.pages) && i < |h.pages| && k < |h.pages[i].blocks|
    requires h.pages[i].blocks[k].addr + HEADER < 0x1_0000_0000
    ensures HeapStored(Kfree(w, h.pages[i].blocks[k].addr + HEADER), Release(h, i, k).pages)
  {
    hide Tiles, ValidPage, Unite, Freed, Rd, Chain, ValidBlock;
    var p, bs := AddrOf(|h.pages|, i), h.pages[i].blocks;
    assert PageStored(w, h.pages, i);
    AddrOk(|h.pages|, i);
    PageTiles(h, i);
    Placed(p, bs, k);
    if h.pages[i].Broken? {
      KfreeBroken(w, p, bs, h.pages[i].cut, h.pages[i].asked, k);
    } else {
      assert HdrAt(w, p, bs, k);
      if !bs[k].free {
        KfreeTiled(w, p, bs, k);
        UniteLocal(w, p, bs, k);
        assert Untouched(w, Kfree(w, bs[k].addr + HEADER), p);
        UpdateStored(w, Kfree(w, bs[k].addr + HEADER), h, i, Whole(Freed(bs, k)));
      }
    }
  }

  /** The words kmalloc leaves. */
  function GetWords(w: Ram, h: Heap, n: u32): Ram
    requires HeapOk(h) && n > 0 && Mul8(n)
    decreases MAX_HEAP_PAGES - |h.pages|
  {
    var i := Stop(h.pages, n, 0);
    if i < |h.pages| then
      if h.pages[i].Broken? then w
      else
        var bs := h.pages[i].blocks;
        Carve(w, AddrOf(|h.pages|, i), bs[FirstFit(bs, n, 0)].addr, n)
    else if !CanGrow(h) then w
    else GetWords(NewPage(w, HEAP_START + 4096 * |h.pages|, h.frames[0], Link(|h.pages|, 0)), Grow(h), n)
  }

  lemma {:induction false} GetStored(w: Ram, h: Heap, n: u32)
    requires HeapOk(h) && n > 0 && Mul8(n) && HeapStored(w, h.pages)
    ensures HeapStored(GetWords(w, h, n), Alloc(h, n).heap.pages)
    decreases MAX_HEAP_PAGES - |h.pages|
  {
    hide HeapStored, Tiles, Mul8, Carve, NewPage, Carved;
    var i := Stop(h.pages, n, 0);
    if i < |h.pages| {
      if h.pages[i].Whole? { CarveStored(w, h, i, n); }
    } else if CanGrow(h) {
      GrowStored(w, h, h.frames[0]);
      GetStored(NewPage(w, HEAP_START + 4096 * |h.pages|, h.frames[0], Link(|h.pages|, 0)), Grow(h), n);
    }
  }

  class KHeap {
    var w: Ram
    var head: u32
    var next: u32
    var frames: seq<Phys>
    ghost var heap: Heap

    ghost predicate Valid()
      reads this
    {
      && heap.frames == frames && HeapOk(heap)
      && next == HEAP_START + 4096 * |heap.pages| && head == Link(|heap.pages|, 0)
      && HeapStored(w, heap.pages)
    }

    /** An empty heap over the physical pages the frame allocator still has. */
    constructor (frames: seq<Phys>)
      ensures Valid() && heap == Heap([], frames)
    {
      w, head, next, this.frames := map[], 0, HEAP_START, frames;
      heap := Heap([], frames);
    }

    /** heap_alloc_page. */
    method AllocPage() returns (page: u32)
      requires Valid()
      modifies this
      ensures Valid()
      ensures !CanGrow(old(heap)) ==> page == 0 && heap == old(heap) && w == old(w)
      ensures CanGrow(old(heap)) ==> heap == Grow(old(heap)) && page == head != 0
      ensures CanGrow(old(heap)) ==> w == NewPage(old(w), old(next), old(frames)[0], old(head))
    {
      hide HeapStored, NewPage, Tiles;
      if next + PAGE_SIZE > HEAP_END { return 0; }
      if frames == [] { return 0; }
      var phys, virt := frames[0], next;
      GrowStored(w, heap, phys);
      frames, next := frames[1..], next + PAGE_SIZE;
      w, head := NewPage(w, virt, phys, head), virt;
      heap := Grow(heap);
      return virt;
    }

    /** heap_find_free_block. */
    method FindBlock(page: u32, size: u32) returns (b: u32)
      ensures b == FindFree(w, page, size)
    {
      var ok := ValidatePage(w, page);
      if !ok { return 0; }
      var current := FirstBlock(w, page);
      while current != 0
        invariant FindFrom(w, page, size, FirstBlock(w, page)) == FindFrom(w, page, size, current)
        decreases if current == 0 then 0 else 1 + Left(w, page, current)
      {
        if !ValidBlock(w, page, current) { return 0; }
        if Free(w, current) != 0 && Size(w, current) >= size { return current; }
        if Next(w, current) != 0 { Climbs(w, page, current); }
        current := Next(w, current);
      }
      return 0;
    }

    /** The scan of kmalloc over the page list, newest first: it ends at a page that does not
        validate (`corrupt`), at the first fitting block, or at the end. */
    method Search(n: u32) returns (page: u32, b: u32, corrupt: bool)
      requires Valid()
      ensures var i := Stop(heap.pages, n, 0);
        && corrupt == (i < |heap.pages| && heap.pages[i].Broken?)
        && (i < |heap.pages| && heap.pages[i].Whole? ==>
              && page == AddrOf(|heap.pages|, i)
              && b == heap.pages[i].blocks[FirstFit(heap.pages[i].blocks, n, 0)].addr != 0)
        && (corrupt || i == |heap.pages| ==> b == 0)
    {
      hide HeapStored, Tiles, ValidPage, FindFree, FirstFit;
      page, b, corrupt := head, 0, false;
      ghost var i := 0;
      while page != 0
        invariant Valid() && i <= |heap.pages| && page == Link(|heap.pages|, i) && b == 0 && !corrupt
        invariant forall j | 0 <= j < i :: !StopsAt(heap.pages[j], n)
        decreases |heap.pages| - i
      {
        FindStored(w, heap, i, n);
        var ok := ValidatePage(w, page);
        if !ok {
          StopIs(heap.pages, n, i);
          corrupt := true;
          return;
        }
        b := FindBlock(page, n);
        if b != 0 {
          StopIs(heap.pages, n, i);
          return;
        }
        NextStored(w, heap, i);
        page := PageNext(w, page);
        i := i + 1;
      }
      StopIs(heap.pages, n, i);
    }

    /** kmalloc, in every state: exactly what the list of pages prescribes. */
    method Kmalloc(size: u32) returns (ptr: u32)
      requires Valid()
      modifies this
      ensures Valid()
      ensures if 0 < size <= 0xFFFF_FFF8
              then Got(heap, ptr) == Alloc(old(heap), RoundUp(size)) && w == GetWords(old(w), old(heap), RoundUp(size))
              else ptr == 0 && heap == old(heap) && w == old(w)
    {
      hide HeapStored, Tiles, Carve, Mul8, Alloc, Stop, FirstFit, GetWords, NewPage;
      if size == 0 { return 0; }
      if size > 0xFFFF_FFF8 { return 0; }
      var n := RoundUp(size);
      ghost var goal, words := Alloc(heap, n), GetWords(w, heap, n);
      while true
        invariant Valid() && goal == Alloc(heap, n) && words == GetWords(w, heap, n)
        decreases MAX_HEAP_PAGES - |heap.pages|
      {
        AllocIs(heap, n);
        WordsAre(w, heap, n);
        var page, b, corrupt := Search(n);
        if corrupt { return 0; }
        if b != 0 {
          CarveStored(w, heap, Stop(heap.pages, n, 0), n);
          w := Carve(w, page, b, n);
          heap := goal.heap;
          return b + HEADER;
        }
        var added := AllocPage();
        if added == 0 { return 0; }
      }
    }

    /** kfree, on any pointer. One that its tests refuse changes nothing; the payload of a block, `k` of
        page `i`, is given back, except that a free block and a block of a broken page stay as they are.
        A pointer at a forged header that passes the tests may leave anything. */
    method Release(ptr: u32, ghost i: nat, ghost k: nat)
      requires Valid()
      modifies this
      ensures w == Kfree(old(w), ptr) && head == old(head) && next == old(next) && frames == old(frames)
      ensures Payload(old(heap), ptr, i, k) || !Frees(old(w), ptr) ==> Valid()
      ensures heap == if Payload(old(heap), ptr, i, k) then KernelHeap.Release(old(heap), i, k) else old(heap)
    {
      hide HeapStored, Tiles, ValidPage, Unite, Freed, Frees;
      if Payload(heap, ptr, i, k) { FreeStored(w, heap, i, k); }
      w := Kfree(w, ptr);
      if Payload(heap, ptr, i, k) { heap := KernelHeap.Release(heap, i, k); }
    }
  }

  predicate Payload(h: Heap, ptr: u32, i: nat, k: nat) {
    i < |h.pages| && k < |h.pages[i].blocks| && ptr == h.pages[i].blocks[k].addr + HEADER
  }

  lemma WordsAre(w: Ram, h: Heap, n: u32)
    requires HeapOk(h) && n > 0 && Mul8(n)
    ensures var i := Stop(h.pages, n, 0);
      && (i < |h.pages| && h.pages[i].Broken? ==> GetWords(w, h, n) == w)
      && (i < |h.pages| && h.pages[i].Whole? ==>
            var bs := h.pages[i].blocks;
            GetWords(w, h, n) == Carve(w, AddrOf(|h.pages|, i), bs[FirstFit(bs, n, 0)].addr, n))
      && (i == |h.pages| && !CanGrow(h) ==> GetWords(w, h, n) == w)
      && (i == |h.pages| && CanGrow(h) ==>
            GetWords(w, h, n)
              == GetWords(NewPage(w, HEAP_START + 4096 * |h.pages|, h.frames[0], Link(|h.pages|, 0)), Grow(h), n))
  {
    hide Carve, Tiles, Mul8, NewPage;
  }

  /** The three ways a scan ends. */
  lemma AllocIs(h: Heap, n: u32)
    requires HeapOk(h) && n > 0 && Mul8(n)
    ensures var i := Stop(h.pages, n, 0);
      && (i < |h.pages| && h.pages[i].Broken? ==> Alloc(h, n) == Got(h, 0))
      && (i == |h.pages| ==> if CanGrow(h) then Alloc(h, n) == Alloc(Grow(h), n) else Alloc(h, n) == Got(h, 0))
  {
    hide Carved, Tiles, Mul8;
  }
}
