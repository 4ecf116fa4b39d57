/** The whole kernel heap in every state it can reach: a page in which kmalloc splits a block that is
    not the last stops validating, and all that follows from it (kernel/kernel.c:446-630). */
module KernelHeap {
  import opened Words
  import opened HeapBlocks
  import opened HeapTiling
  import opened HeapFree
  import opened HeapLists

  /** What pmm_alloc_page returns when it does not fail. */
  type Phys = a: u32 | a != 0 witness 0x10_0000

  /** `blocks` of a broken page are those it had when it broke, when block `cut` was taken for a request
      of `asked` bytes. */
  datatype Page = Whole(blocks: seq<Blk>) | Broken(blocks: seq<Blk>, cut: nat, asked: nat)

  /** Pages newest first, as heap_pages links them, and the physical pages that
      pmm_alloc_page has still to give, in order. */
  datatype Heap = Heap(pages: seq<Page>, frames: seq<Phys>)

  predicate HeapOk(h: Heap) {
    && |h.pages| <= MAX_HEAP_PAGES
    && forall i | 0 <= i < |h.pages| :: Tiles(AddrOf(|h.pages|, i), h.pages[i].blocks)
  }

  /** The scan stops here: at a page that does not validate or has a fitting block. */
  predicate StopsAt(page: Page, n: nat) { page.Broken? || FirstFit(page.blocks, n, 0) < |page.blocks| }

  function Stop(pages: seq<Page>, n: nat, i: nat): (r: nat)
    requires i <= |pages|
    ensures i <= r <= |pages| && (r < |pages| ==> StopsAt(pages[r], n))
    ensures forall j | i <= j < r :: !StopsAt(pages[j], n)
    decreases |pages| - i
  {
    if i == |pages| || StopsAt(pages[i], n) then i else Stop(pages, n, i + 1)
  }

  function Grow(h: Heap): (r: Heap)
    requires HeapOk(h) && |h.pages| < MAX_HEAP_PAGES && h.frames != []
    ensures HeapOk(r)
  {
    var p := HEAP_START + 4096 * |h.pages|;
    assert AddrOf(|h.pages| + 1, 0) == p;
    AddrOk(|h.pages| + 1, 0);
    var r := Heap([Whole(Fresh(p))] + h.pages, h.frames[1..]);
    assert forall i | 0 < i < |r.pages| ::
      AddrOf(|r.pages|, i) == AddrOf(|h.pages|, i - 1) && r.pages[i] == h.pages[i - 1];
    r
  }

  /** A whole page after kmalloc has carved its first fit. */
  function Carved(p: nat, bs: seq<Blk>, n: nat): Page
    requires PageOk(p) && Tiles(p, bs) && FirstFit(bs, n, 0) < |bs| && n > 0 && Mul8(n)
  {
    var k := FirstFit(bs, n, 0);
    if SafeIn(p, bs, n) then Whole(Allot(p, bs, n)) else Broken(Take(bs, k), k, n)
  }

  datatype Got = Got(heap: Heap, ptr: u32)

  /** kmalloc for a request rounded up to `n`, in every state. */
  function Alloc(h: Heap, n: u32): (r: Got)
    requires HeapOk(h) && n > 0 && Mul8(n)
    ensures HeapOk(r.heap)
    decreases MAX_HEAP_PAGES - |h.pages|
  {
    var i := Stop(h.pages, n, 0);
    if i < |h.pages| then
      if h.pages[i].Broken? then Got(h, 0)
      else
        var p, bs := AddrOf(|h.pages|, i), h.pages[i].blocks;
        AddrOk(|h.pages|, i);
        CarvedTiles(p, bs, n);
        Placed(p, bs, FirstFit(bs, n, 0));
        Got(Heap(h.pages[i := Carved(p, bs, n)], h.frames), bs[FirstFit(bs, n, 0)].addr + HEADER)
    else if |h.pages| == MAX_HEAP_PAGES || h.frames == [] then Got(h, 0)
    else Alloc(Grow(h), n)
  }

  lemma CarvedTiles(p: nat, bs: seq<Blk>, n: nat)
    requires PageOk(p) && Tiles(p, bs) && FirstFit(bs, n, 0) < |bs| && n > 0 && Mul8(n)
    ensures Tiles(p, Carved(p, bs, n).blocks)
  {
    if SafeIn(p, bs, n) { AllotTiles(p, bs, n); } else { TakeKeepsTiles(p, bs, FirstFit(bs, n, 0)); }
  }

  /** kfree of block `k` of page `i`. */
  function Release(h: Heap, i: nat, k: nat): (r: Heap)
    requires HeapOk(h) && i < |h.pages| && k < |h.pages[i].blocks|
    ensures HeapOk(r)
  {
    var page := h.pages[i];
    if page.Broken? || page.blocks[k].free then h
    else
      AddrOk(|h.pages|, i);
      FreedTiles(AddrOf(|h.pages|, i), page.blocks, k);
      Heap(h.pages[i := Whole(Freed(page.blocks, k))], h.frames)
  }

  // ---- What a request does ----

  lemma PageTiles(h: Heap, i: nat)
    requires HeapOk(h) && i < |h.pages|
    ensures Tiles(AddrOf(|h.pages|, i), h.pages[i].blocks)
  {
  }

  predicate AllWhole(h: Heap) { forall i | 0 <= i < |h.pages| :: h.pages[i].Whole? }

  /** The block the scan would choose is the last of its page or too small to split. */
  predicate Safe(h: Heap, n: nat) {
    var i := Stop(h.pages, n, 0);
    i < |h.pages| && h.pages[i].Whole? ==> SafeIn(AddrOf(|h.pages|, i), h.pages[i].blocks, n)
  }

  /** In a heap just grown for want of a fit, the scan stops at the new page or nowhere, and is safe. */
  lemma GrownStops(h: Heap, n: nat)
    requires HeapOk(h) && |h.pages| < MAX_HEAP_PAGES && h.frames != [] && Stop(h.pages, n, 0) == |h.pages|
    ensures AllWhole(h) && AllWhole(Grow(h)) && Safe(Grow(h), n)
    ensures Stop(Grow(h).pages, n, 0) == if n <= FRESH then 0 else |Grow(h).pages|
  {
    var g := Grow(h);
    assert forall i | 0 < i < |g.pages| :: g.pages[i] == h.pages[i - 1];
    assert forall i | 0 <= i < |h.pages| :: !StopsAt(h.pages[i], n);
    assert g.pages[0].blocks == Fresh(HEAP_START + 4096 * |h.pages|);
    if n > FRESH {
      assert forall i | 0 <= i < |g.pages| :: !StopsAt(g.pages[i], n);
      StopNone(g.pages, n, 0);
    }
  }

  lemma StopNone(pages: seq<Page>, n: nat, i: nat)
    requires i <= |pages| && forall j | i <= j < |pages| :: !StopsAt(pages[j], n)
    ensures Stop(pages, n, i) == |pages|
    decreases |pages| - i
  {
  }

  /** One kmalloc keeps every page whole if and only if it is safe. */
  lemma {:induction false} GetWhole(h: Heap, n: u32)
    requires HeapOk(h) && n > 0 && Mul8(n) && AllWhole(h)
    ensures AllWhole(Alloc(h, n).heap) <==> Safe(h, n)
    decreases MAX_HEAP_PAGES - |h.pages|
  {
    hide Mul8, PageAligned, Tiles, Allot, SafeIn, Take;
    var i := Stop(h.pages, n, 0);
    if i < |h.pages| {
      AddrOk(|h.pages|, i);
      assert Alloc(h, n).heap.pages[i] == Carved(AddrOf(|h.pages|, i), h.pages[i].blocks, n);
    } else if |h.pages| < MAX_HEAP_PAGES && h.frames != [] {
      GrownStops(h, n);
      GetWhole(Grow(h), n);
    }
  }

  predicate CanGrow(h: Heap) { |h.pages| < MAX_HEAP_PAGES && h.frames != [] }

  /** A request of at most 4048 bytes adds at most one page, and fails exactly when the scan meets a
      broken page first, or finds no fit and no page can be added. */
  lemma SmallRequest(h: Heap, n: u32)
    requires HeapOk(h) && 0 < n <= FRESH && Mul8(n)
    ensures var r := Alloc(h, n); var i := Stop(h.pages, n, 0);
      && |r.heap.pages| <= |h.pages| + 1
      && (r.ptr == 0 <==> if i < |h.pages| then h.pages[i].Broken? else !CanGrow(h))
      && (r.ptr == 0 ==> r.heap == h)
  {
    hide Mul8, PageAligned, Tiles, Carved;
    if Stop(h.pages, n, 0) == |h.pages| && CanGrow(h) {
      GrownStops(h, n);
      assert Alloc(h, n) == Alloc(Grow(h), n);
    }
  }

  /** A larger request never succeeds; it adds pages until none is left to add, unless a page is broken. */
  lemma {:induction false} LargeRequest(h: Heap, n: u32)
    requires HeapOk(h) && n > FRESH && Mul8(n)
    ensures var r := Alloc(h, n); var room := MAX_HEAP_PAGES - |h.pages|;
      && r.ptr == 0 && (!AllWhole(h) ==> r.heap == h)
      && (AllWhole(h) ==> |r.heap.pages| == |h.pages| + (if |h.frames| < room then |h.frames| else room))
    decreases MAX_HEAP_PAGES - |h.pages|
  {
    hide Mul8, PageAligned, Tiles, Carved;
    NeverFits(h, n);
    if Stop(h.pages, n, 0) == |h.pages| && CanGrow(h) {
      GrownStops(h, n);
      LargeRequest(Grow(h), n);
    }
  }

  /** No block of a tiled page is larger than the page's payload, so only a broken page stops the scan. */
  lemma NeverFits(h: Heap, n: nat)
    requires HeapOk(h) && n > FRESH
    ensures var i := Stop(h.pages, n, 0); if AllWhole(h) then i == |h.pages| else i < |h.pages| && h.pages[i].Broken?
  {
    var i := Stop(h.pages, n, 0);
    if i < |h.pages| && h.pages[i].Whole? {
      AddrOk(|h.pages|, i);
      Placed(AddrOf(|h.pages|, i), h.pages[i].blocks, FirstFit(h.pages[i].blocks, n, 0));
    }
    if i == |h.pages| { assert forall j | 0 <= j < |h.pages| :: !StopsAt(h.pages[j], n); }
  }

  // ---- Live payloads, in every state ----

  ghost function Live(h: Heap): set<Blk> {
    set i, k | 0 <= i < |h.pages| && 0 <= k < |h.pages[i].blocks| && !h.pages[i].blocks[k].free :: h.pages[i].blocks[k]
  }

  lemma LiveAt(h: Heap, b: Blk) returns (i: nat, k: nat)
    requires b in Live(h)
    ensures i < |h.pages| && k < |h.pages[i].blocks| && !h.pages[i].blocks[k].free && h.pages[i].blocks[k] == b
  {
    i, k :| 0 <= i < |h.pages| && 0 <= k < |h.pages[i].blocks| && !h.pages[i].blocks[k].free
      && h.pages[i].blocks[k] == b;
  }

  /** Two blocks at different places of a well-formed heap occupy disjoint bytes, headers included. */
  lemma PlacesApart(h: Heap, i: nat, k: nat, j: nat, m: nat)
    requires HeapOk(h) && i < |h.pages| && k < |h.pages[i].blocks| && j < |h.pages| && m < |h.pages[j].blocks|
    requires (i != j || k != m)
    ensures var a, b := h.pages[i].blocks[k], h.pages[j].blocks[m]; EndOf(a) <= b.addr || EndOf(b) <= a.addr
    ensures var a := h.pages[i].blocks[k]; Mul8(a.addr + HEADER) && HEAP_START <= a.addr && EndOf(a) <= HEAP_END
  {
    hide Mul8, PageAligned;
    var n := |h.pages|;
    var a, b := h.pages[i].blocks[k], h.pages[j].blocks[m];
    AddrOk(n, i);
    AddrOk(n, j);
    Placed(AddrOf(n, i), h.pages[i].blocks, k);
    Placed(AddrOf(n, j), h.pages[j].blocks, m);
    Mod8(a.addr, a.size);
    if i == j {
      if k < m {
        Ordered(AddrOf(n, i), h.pages[i].blocks, k, m);
      } else {
        Ordered(AddrOf(n, i), h.pages[i].blocks, m, k);
      }
    } else if i < j {
      AddrApart(n, i, j);
    } else {
      AddrApart(n, j, i);
    }
  }

  /** In every state, broken pages or not, live payloads are apart, 8-aligned and inside the heap. */
  lemma LiveDisjoint(h: Heap, a: Blk, b: Blk)
    requires HeapOk(h) && a in Live(h) && b in Live(h) && a != b
    ensures EndOf(a) <= b.addr || EndOf(b) <= a.addr
    ensures Mul8(a.addr + HEADER) && HEAP_START <= a.addr && EndOf(a) <= HEAP_END
  {
    hide Live, Tiles;
    var i, k := LiveAt(h, a);
    var j, m := LiveAt(h, b);
    PlacesApart(h, i, k, j, m);
  }

  /** Replacing the blocks of one page. */
  lemma LiveUpdate(h: Heap, i: nat, page: Page)
    requires i < |h.pages|
    ensures LiveIn(page.blocks) <= Live(Heap(h.pages[i := page], h.frames))
    ensures Live(h) <= LiveIn(h.pages[i].blocks) + Live(Heap(h.pages[i := page], h.frames))
    ensures Live(Heap(h.pages[i := page], h.frames)) <= LiveIn(page.blocks) + Live(h)
    ensures LiveIn(h.pages[i].blocks) <= Live(h)
  {
    var r := Heap(h.pages[i := page], h.frames);
    forall b | b in LiveIn(page.blocks) ensures b in Live(r) {
      var k :| 0 <= k < |page.blocks| && !page.blocks[k].free && page.blocks[k] == b;
      assert r.pages[i].blocks[k] == b;
    }
    forall b | b in Live(h) ensures b in LiveIn(h.pages[i].blocks) + Live(r) {
      var j, k := LiveAt(h, b);
      assert j != i ==> r.pages[j].blocks[k] == b;
    }
    forall b | b in Live(r) ensures b in LiveIn(page.blocks) + Live(h) {
      var j, k := LiveAt(r, b);
      assert j != i ==> h.pages[j].blocks[k] == b;
    }
  }

  lemma LiveGrow(h: Heap)
    requires HeapOk(h) && CanGrow(h)
    ensures Live(Grow(h)) == Live(h)
  {
    var g := Grow(h);
    forall b ensures b in Live(g) <==> b in Live(h) {
      if b in Live(h) {
        var j, k := LiveAt(h, b);
        assert g.pages[j + 1].blocks[k] == b;
      }
      if b in Live(g) {
        var j, k := LiveAt(g, b);
        assert j > 0 ==> h.pages[j - 1].blocks[k] == b;
      }
    }
  }

  /** Inside a page, carving turns one free block into a live one at the same address. */
  lemma CarvedLive(p: nat, bs: seq<Blk>, n: nat)
    requires PageOk(p) && Tiles(p, bs) && FirstFit(bs, n, 0) < |bs| && n > 0 && Mul8(n)
    ensures var k := FirstFit(bs, n, 0); var out := Carved(p, bs, n).blocks;
      && k < |out| && out[k].addr == bs[k].addr && out[k].size >= n && !out[k].free
      && LiveIn(out) == LiveIn(bs) + {out[k]}
  {
    hide Mul8, PageAligned, Tiles, Splits, Allot;
    var k := FirstFit(bs, n, 0);
    if SafeIn(p, bs, n) {
      AllotLive(p, bs, n);
    } else {
      var out := Take(bs, k);
      forall b | b in LiveIn(bs) ensures b in LiveIn(out) {
        var j :| 0 <= j < |bs| && !bs[j].free && bs[j] == b;
        assert out[j] == b;
      }
    }
  }

  ghost predicate Gained(h: Heap, r: Got, b: Blk, n: nat) {
    b.addr + HEADER == r.ptr && b.size >= n && Live(r.heap) == Live(h) + {b} && b !in Live(h)
  }

  ghost predicate GainedOne(h: Heap, r: Got, n: nat) { exists b :: Gained(h, r, b, n) }

  /** Main result for kmalloc, in every state: a pointer it returns is the 8-aligned payload of a block
      of at least the asked size that was not live before; every other live block stays as it was. */
  lemma {:induction false} MallocLive(h: Heap, n: u32)
    requires HeapOk(h) && n > 0 && Mul8(n)
    ensures var r := Alloc(h, n);
      && (r.ptr == 0 ==> Live(r.heap) == Live(h))
      && (r.ptr != 0 ==> Mul8(r.ptr) && GainedOne(h, r, n))
    decreases MAX_HEAP_PAGES - |h.pages|
  {
    hide Mul8, PageAligned, Live, LiveIn, Tiles, Carved;
    var i := Stop(h.pages, n, 0);
    if i < |h.pages| {
      if h.pages[i].Whole? { MallocHere(h, n, i); }
    } else if CanGrow(h) {
      LiveGrow(h);
      MallocLive(Grow(h), n);
      var r := Alloc(Grow(h), n);
      if r.ptr != 0 {
        var b :| Gained(Grow(h), r, b, n);
        assert Gained(h, r, b, n);
      }
    }
  }

  lemma MallocHere(h: Heap, n: u32, i: nat)
    requires HeapOk(h) && n > 0 && Mul8(n) && i == Stop(h.pages, n, 0) < |h.pages| && h.pages[i].Whole?
    ensures Alloc(h, n).ptr != 0 && Mul8(Alloc(h, n).ptr) && GainedOne(h, Alloc(h, n), n)
  {
    hide Mul8, PageAligned, Live, LiveIn, Tiles, Carved, FirstFit;
    var p, bs := AddrOf(|h.pages|, i), h.pages[i].blocks;
    AddrOk(|h.pages|, i);
    PageTiles(h, i);
    var k := FirstFit(bs, n, 0);
    assert k < |bs|;
    CarvedLive(p, bs, n);
    var page := Carved(p, bs, n);
    LiveUpdate(h, i, page);
    var r := Alloc(h, n);
    assert r.heap == Heap(h.pages[i := page], h.frames) && r.ptr == bs[k].addr + HEADER;
    var b := page.blocks[k];
    FreeNotLive(h, i, k);
    SwapSets(Live(h), Live(r.heap), LiveIn(bs), LiveIn(page.blocks), b);
    Placed(p, bs, k);
    Mod8(bs[k].addr, 0) by { ZeroMul8(); }
    assert Gained(h, r, b, n);
  }

  lemma ZeroMul8()
    ensures Mul8(0)
  {
  }

  /** A free block's address is not the address of any live block. */
  lemma FreeNotLive(h: Heap, i: nat, k: nat)
    requires HeapOk(h) && i < |h.pages| && k < |h.pages[i].blocks| && h.pages[i].blocks[k].free
    ensures forall b | b in Live(h) :: b.addr != h.pages[i].blocks[k].addr
  {
    hide Live, Tiles;
    forall b | b in Live(h) ensures b.addr != h.pages[i].blocks[k].addr {
      var j, m := LiveAt(h, b);
      PlacesApart(h, i, k, j, m);
    }
  }

  lemma SwapSets(live: set<Blk>, after: set<Blk>, inBefore: set<Blk>, inAfter: set<Blk>, b: Blk)
    requires inAfter == inBefore + {b} && inBefore <= live && inAfter <= after && live <= inBefore + after
    requires after <= inAfter + live
    ensures after == live + {b}
  {
  }
}
