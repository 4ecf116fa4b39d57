/** kfree undoes kmalloc, how much of a block a request takes, and the words of a fresh page
    (kernel/kernel.c:446-489, 520-630). */
module HeapUndo {
  import opened Words
  import opened HeapBlocks
  import opened HeapTiling
  import opened HeapFree
  import opened HeapLists
  import opened KernelHeap
  import opened HeapRuns
  import opened HeapWords
  import opened HeapObject

  /** A block whose neighbours are not free, given back, is as it was. */
  lemma TakeUndone(p: nat, bs: seq<Blk>, k: nat)
    requires PageOk(p) && Tiles(p, bs) && Coalesced(bs) && k < |bs| && bs[k].free
    ensures Freed(Take(bs, k), k) == bs
  {
    hide Mul8, PageAligned;
    Placed(p, bs, k);
    if k > 0 { assert Apart(bs, k); }
    if k + 1 < |bs| { assert Apart(bs, k + 1); }
    var t := Take(bs, k);
    assert !JoinsPrev(t, k) && !JoinsNext(t, k);
    assert bs == bs[..k] + [bs[k]] + bs[k + 1..];
    assert t[..k] == bs[..k] && t[k + 1..] == bs[k + 1..];
  }

  /** A split last block, given back, is whole again. */
  lemma SplitUndone(p: nat, bs: seq<Blk>, n: nat)
    requires PageOk(p) && Tiles(p, bs) && Coalesced(bs) && |bs| > 0 && bs[|bs| - 1].free && 0 < n
    requires bs[|bs| - 1].size >= n + HEADER && EndOf(bs[|bs| - 1]) < 0x1_0000_0000
    ensures Freed(SplitLast(bs, n), |bs| - 1) == bs
  {
    hide Mul8, PageAligned, Tiles;
    var k := |bs| - 1;
    if k > 0 { assert Apart(bs, k); }
    var t := SplitLast(bs, n);
    assert t[..k] == bs[..k] && |t| == |bs| + 1 && t[k + 1].free && t[k + 2..] == [];
    assert !JoinsPrev(t, k) && JoinsNext(t, k);
    assert bs == bs[..k] + [bs[k]];
    assert Freed(t, k) == bs[..k] + [Blk(bs[k].addr, Wrap32(EndOf(t[k + 1]) - HEADER - bs[k].addr), true)] + [];
  }

  lemma AllotUndone(p: nat, bs: seq<Blk>, n: nat)
    requires PageOk(p) && Tiles(p, bs) && FirstFit(bs, n, 0) < |bs| && SafeIn(p, bs, n) && n > 0 && Mul8(n)
    requires Coalesced(bs)
    ensures FirstFit(bs, n, 0) < |Allot(p, bs, n)| && Freed(Allot(p, bs, n), FirstFit(bs, n, 0)) == bs
  {
    hide Mul8, PageAligned, Tiles, Freed, Coalesced;
    var k := FirstFit(bs, n, 0);
    if Splits(p, bs[k].addr, n) {
      SplitLastTiles(p, bs, n);
      SplitUndone(p, bs, n);
    } else {
      TakeUndone(p, bs, k);
    }
  }

  /** Main result: freeing what a safe request has just returned restores the heap, but for the page that
      may have been added for it. */
  lemma MallocUndone(h: Heap, n: u32) returns (i: nat, k: nat)
    requires HeapOk(h) && n > 0 && Mul8(n) && AllCoalesced(h) && Safe(h, n) && Alloc(h, n).ptr != 0
    ensures var r := Alloc(h, n);
      && Payload(r.heap, r.ptr, i, k) && !r.heap.pages[i].blocks[k].free
      && (Stop(h.pages, n, 0) < |h.pages| ==> KernelHeap.Release(r.heap, i, k) == h)
      && (Stop(h.pages, n, 0) == |h.pages| ==> CanGrow(h) && KernelHeap.Release(r.heap, i, k) == Grow(h))
  {
    hide Mul8, PageAligned, Tiles, AllCoalesced, Alloc, KernelHeap.Release, Safe;
    if Stop(h.pages, n, 0) < |h.pages| {
      i, k := UndoneHere(h, n);
    } else {
      AllocIs(h, n);
      GrownStops(h, n);
      if n > FRESH {
        LargeRequest(h, n);
      } else {
        FreshCoalesced(h);
        i, k := UndoneHere(Grow(h), n);
      }
    }
  }

  lemma UndoneHere(h: Heap, n: u32) returns (i: nat, k: nat)
    requires HeapOk(h) && n > 0 && Mul8(n) && AllCoalesced(h) && Safe(h, n) && Alloc(h, n).ptr != 0
    requires Stop(h.pages, n, 0) < |h.pages|
    ensures var r := Alloc(h, n);
      && Payload(r.heap, r.ptr, i, k) && !r.heap.pages[i].blocks[k].free && KernelHeap.Release(r.heap, i, k) == h
  {
    hide Mul8, PageAligned, Tiles, Allot, Freed, Coalesced;
    i := Stop(h.pages, n, 0);
    var p, bs := AddrOf(|h.pages|, i), h.pages[i].blocks;
    k := FirstFit(bs, n, 0);
    AddrOk(|h.pages|, i);
    PageTiles(h, i);
    assert PageCoalesced(h.pages[i]);
    AllotLive(p, bs, n);
    AllotUndone(p, bs, n);
    var r := Alloc(h, n);
    assert r.heap.pages == h.pages[i := Whole(Allot(p, bs, n))];
    assert h.pages[i := Whole(Allot(p, bs, n))][i := Whole(bs)] == h.pages;
  }

  /** A request takes exactly its bytes from the last block when at least 40 more are left there, and the
      whole block otherwise. */
  lemma AllotTight(p: nat, bs: seq<Blk>, n: nat)
    requires PageOk(p) && Tiles(p, bs) && FirstFit(bs, n, 0) < |bs| && SafeIn(p, bs, n) && n > 0 && Mul8(n)
    ensures var k := FirstFit(bs, n, 0); var out := Allot(p, bs, n);
      && k < |out| && out[k].addr == bs[k].addr && (forall j | 0 <= j < |bs| && j != k :: j < |out| && out[j] == bs[j])
      && (if k == |bs| - 1 && bs[k].size >= n + 40
          then |out| == |bs| + 1 && out[k].size == n
            && out[k + 1] == Blk(bs[k].addr + 24 + n, bs[k].size - n - 24, true)
          else |out| == |bs| && out[k].size == bs[k].size)
  {
    hide Mul8, PageAligned;
    var k := FirstFit(bs, n, 0);
    if k == |bs| - 1 { SplitEnds(p, bs); }
    if Splits(p, bs[k].addr, n) { SplitLastTiles(p, bs, n); }
  }

  lemma SixWords(w: Ram, a: nat, x0: u32, x1: u32, x2: u32, x3: u32, x4: u32, x5: u32)
    ensures var r := Put(Put(Put(Put(Put(Put(w, a, x0), a + 4, x1), a + 8, x2), a + 12, x3), a + 16, x4), a + 20, x5);
      && Rd(r, a) == x0 && Rd(r, a + 4) == x1 && Rd(r, a + 8) == x2 && Rd(r, a + 12) == x3
      && Rd(r, a + 16) == x4 && Rd(r, a + 20) == x5
      && (forall b: nat | b < a || b >= a + 24 :: Rd(r, b) == Rd(w, b))
  {
  }

  lemma OneWord(w: Ram, a: nat, x: u32)
    ensures Rd(Put(w, a, x), a) == x && forall b: nat | b != a :: Rd(Put(w, a, x), b) == Rd(w, b)
  {
  }

  /** The twelve words of a new page: its header, and one free block of 4048 bytes behind it. */
  lemma NewPageWords(w: Ram, p: u32, phys: u32, head: u32)
    requires p < HEAP_END && (head == 0 || head + PAGE_SIZE <= p)
    ensures var r := NewPage(w, p, phys, head);
      && Rd(r, p) == 0xC0FF_EE42 && Rd(r, p + 4) == phys && Rd(r, p + 8) == p && Rd(r, p + 12) == head
      && Rd(r, p + 16) == 0 && Rd(r, p + 20) == p + 24
      && Rd(r, p + 24) == 0xA110_CA7E && Rd(r, p + 28) == 4048 && Rd(r, p + 32) == 0 && Rd(r, p + 36) == 0
      && Rd(r, p + 40) == 1 && Rd(r, p + 44) == p
      && (head != 0 ==> Rd(r, head + 16) == p)
  {
    hide Rd, Put;
    SixWords(w, p, PAGE_MAGIC, phys, p, head, 0, p + HEADER);
    var w1 := PutPage(w, p, phys, head);
    SixWords(w1, p + HEADER, BLOCK_MAGIC, FRESH, 0, 0, 1, p);
    var w2 := PutHeader(w1, p + HEADER, FRESH, 0, 0, 1, p);
    if head != 0 { OneWord(w2, head + 16, p); }
  }
}
