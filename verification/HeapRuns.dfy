/** Runs of kmalloc and kfree on the kernel heap. */
module HeapRuns {
  import opened Words
  import opened HeapBlocks
  import opened HeapTiling
  import opened HeapFree
  import opened HeapLists
  import opened KernelHeap

  datatype HeapOp = Get(n: u32) | Give(page: nat, block: nat)

  predicate Possible(h: Heap, op: HeapOp) {
    match op
    case Get(n) => n > 0 && Mul8(n)
    case Give(i, k) => i < |h.pages| && k < |h.pages[i].blocks|
  }

  function Step(h: Heap, op: HeapOp): (r: Heap)
    requires HeapOk(h) && Possible(h, op)
    ensures HeapOk(r)
  {
    match op
    case Get(n) => Alloc(h, n).heap
    case Give(i, k) => Release(h, i, k)
  }

  predicate PossibleRun(h: Heap, ops: seq<HeapOp>)
    requires HeapOk(h)
    decreases |ops|
  {
    ops == [] || (Possible(h, ops[0]) && PossibleRun(Step(h, ops[0]), ops[1..]))
  }

  function Run(h: Heap, ops: seq<HeapOp>): (r: Heap)
    requires HeapOk(h) && PossibleRun(h, ops)
    ensures HeapOk(r)
    decreases |ops|
  {
    if ops == [] then h else Run(Step(h, ops[0]), ops[1..])
  }

  predicate SafeRun(h: Heap, ops: seq<HeapOp>)
    requires HeapOk(h) && PossibleRun(h, ops)
    decreases |ops|
  {
    ops == [] || ((ops[0].Get? ==> Safe(h, ops[0].n)) && SafeRun(Step(h, ops[0]), ops[1..]))
  }

  predicate WholeThroughout(h: Heap, ops: seq<HeapOp>)
    requires HeapOk(h) && PossibleRun(h, ops)
    decreases |ops|
  {
    AllWhole(h) && (ops == [] || WholeThroughout(Step(h, ops[0]), ops[1..]))
  }

  /** Main result over runs: every page stays whole throughout if and only if every request is safe. */
  lemma {:induction false} RunWhole(h: Heap, ops: seq<HeapOp>)
    requires HeapOk(h) && PossibleRun(h, ops) && AllWhole(h)
    ensures WholeThroughout(h, ops) <==> SafeRun(h, ops)
    decreases |ops|
  {
    hide Alloc, Tiles, Mul8, Safe, Release;
    if ops != [] {
      StepWhole(h, ops[0]);
      if AllWhole(Step(h, ops[0])) { RunWhole(Step(h, ops[0]), ops[1..]); }
    }
  }

  lemma StepWhole(h: Heap, op: HeapOp)
    requires HeapOk(h) && Possible(h, op) && AllWhole(h)
    ensures AllWhole(Step(h, op)) <==> (op.Get? ==> Safe(h, op.n))
  {
    match op
    case Get(n) => GetWhole(h, n);
    case Give(i, k) =>
  }

  // ---- After a page has broken ----

  /** The page that is `back` pages from the oldest one. */
  function FromEnd(h: Heap, back: nat): Page
    requires back < |h.pages|
  {
    h.pages[|h.pages| - 1 - back]
  }

  /** From then on the heap never grows, and a scan that reaches the page returns NULL. */
  lemma BrokenStops(h: Heap, n: u32, i: nat)
    requires HeapOk(h) && n > 0 && Mul8(n) && i < |h.pages| && h.pages[i].Broken?
    ensures |Alloc(h, n).heap.pages| == |h.pages| && Alloc(h, n).heap.pages[i] == h.pages[i]
    ensures (forall j | 0 <= j < i :: !StopsAt(h.pages[j], n)) ==> Alloc(h, n) == Got(h, 0)
  {
    hide Mul8, PageAligned, Tiles, Carved;
    var s := Stop(h.pages, n, 0);
    assert StopsAt(h.pages[i], n);
  }

  /** Main result: a broken page stays broken, and its blocks as they were, over every run. */
  lemma {:induction false} BrokenForEver(h: Heap, ops: seq<HeapOp>, back: nat)
    requires HeapOk(h) && PossibleRun(h, ops) && back < |h.pages| && FromEnd(h, back).Broken?
    ensures var r := Run(h, ops); |r.pages| == |h.pages| && FromEnd(r, back) == FromEnd(h, back)
    decreases |ops|
  {
    hide Alloc, Tiles, Mul8;
    if ops != [] {
      match ops[0] {
        case Get(n) => BrokenStops(h, n, |h.pages| - 1 - back);
        case Give(i, k) =>
      }
      BrokenForEver(Step(h, ops[0]), ops[1..], back);
    }
  }

  // ---- Conservation and coalescing ----

  predicate PageCoalesced(page: Page) { page.Whole? ==> Coalesced(page.blocks) }

  predicate AllCoalesced(h: Heap) { forall i | 0 <= i < |h.pages| :: PageCoalesced(h.pages[i]) }

  lemma {:induction false} GetCoalesced(h: Heap, n: u32)
    requires HeapOk(h) && n > 0 && Mul8(n) && AllCoalesced(h)
    ensures AllCoalesced(Alloc(h, n).heap)
    decreases MAX_HEAP_PAGES - |h.pages|
  {
    hide Mul8, PageAligned, Tiles, Coalesced, Allot, SafeIn;
    var i := Stop(h.pages, n, 0);
    if i < |h.pages| {
      if h.pages[i].Whole? {
        var p, bs := AddrOf(|h.pages|, i), h.pages[i].blocks;
        AddrOk(|h.pages|, i);
        PageTiles(h, i);
        assert PageCoalesced(h.pages[i]);
        if SafeIn(p, bs, n) { AllotCoalesced(p, bs, n); }
      }
    } else if CanGrow(h) {
      FreshCoalesced(h);
      GetCoalesced(Grow(h), n);
    }
  }

  lemma FreshCoalesced(h: Heap)
    requires HeapOk(h) && CanGrow(h) && AllCoalesced(h)
    ensures AllCoalesced(Grow(h))
  {
    var g := Grow(h);
    assert forall j | 0 < j < |g.pages| :: g.pages[j] == h.pages[j - 1];
  }

  /** Main result over runs: in every state of every run each page that still validates is exactly
      tiled, accounts for all its bytes and has no two free neighbours. */
  lemma {:induction false} HeapRun(h: Heap, ops: seq<HeapOp>)
    requires HeapOk(h) && PossibleRun(h, ops) && AllCoalesced(h)
    ensures AllCoalesced(Run(h, ops))
    ensures forall i | 0 <= i < |Run(h, ops).pages| :: Total(Run(h, ops).pages[i].blocks) == PAGE_SIZE - HEADER
    decreases |ops|
  {
    hide Coalesced, Tiles, Alloc;
    if ops == [] {
      forall i | 0 <= i < |h.pages| ensures Total(h.pages[i].blocks) == PAGE_SIZE - HEADER {
        PageTiles(h, i);
        TotalConserved(AddrOf(|h.pages|, i), h.pages[i].blocks);
      }
    } else {
      match ops[0] {
        case Get(n) => GetCoalesced(h, n);
        case Give(i, k) =>
          assert PageCoalesced(h.pages[i]);
          if h.pages[i].Whole? && !h.pages[i].blocks[k].free { FreedCoalesced(h.pages[i].blocks, k); }
      }
      HeapRun(Step(h, ops[0]), ops[1..]);
    }
  }

  // ---- Runs that never meet an unsafe carve ----

  predicate TailFree(bs: seq<Blk>) { forall i | 0 <= i < |bs| - 1 :: !bs[i].free }

  predicate AllTailFree(h: Heap) { forall i | 0 <= i < |h.pages| :: h.pages[i].Whole? && TailFree(h.pages[i].blocks) }

  /** kmalloc at will; kfree only of the last live block of a page. */
  predicate Disciplined(h: Heap, op: HeapOp) {
    match op
    case Get(n) => n > 0 && Mul8(n)
    case Give(i, k) =>
      && i < |h.pages| && k < |h.pages[i].blocks| && !h.pages[i].blocks[k].free
      && (k == |h.pages[i].blocks| - 1 || (k == |h.pages[i].blocks| - 2 && h.pages[i].blocks[k + 1].free))
  }

  predicate DisciplinedRun(h: Heap, ops: seq<HeapOp>)
    requires HeapOk(h) && AllTailFree(h)
    decreases |ops|
  {
    ops == [] || (Disciplined(h, ops[0]) && (StepTailFree(h, ops[0]); DisciplinedRun(Step(h, ops[0]), ops[1..])))
  }

  lemma AllotTailFree(p: nat, bs: seq<Blk>, n: nat)
    requires PageOk(p) && Tiles(p, bs) && FirstFit(bs, n, 0) < |bs| && SafeIn(p, bs, n) && n > 0 && Mul8(n)
    requires TailFree(bs)
    ensures TailFree(Allot(p, bs, n))
  {
    hide Mul8, PageAligned;
    var k := FirstFit(bs, n, 0);
    if Splits(p, bs[k].addr, n) { SplitLastTiles(p, bs, n); }
    var r := Allot(p, bs, n);
    assert forall i | 0 <= i < |bs| - 1 :: i != k ==> r[i] == bs[i];
  }

  lemma {:induction false} GetTailFree(h: Heap, n: u32)
    requires HeapOk(h) && n > 0 && Mul8(n) && AllTailFree(h)
    ensures Safe(h, n) && AllTailFree(Alloc(h, n).heap)
    decreases MAX_HEAP_PAGES - |h.pages|
  {
    hide Mul8, PageAligned, Tiles, Allot;
    var i := Stop(h.pages, n, 0);
    if i < |h.pages| {
      assert TailFree(h.pages[i].blocks);
      AddrOk(|h.pages|, i);
      PageTiles(h, i);
      AllotTailFree(AddrOf(|h.pages|, i), h.pages[i].blocks, n);
    } else if CanGrow(h) {
      assert AllTailFree(Grow(h)) by {
        var g := Grow(h);
        assert forall j | 0 < j < |g.pages| :: g.pages[j] == h.pages[j - 1];
      }
      GetTailFree(Grow(h), n);
    }
  }

  lemma StepTailFree(h: Heap, op: HeapOp)
    requires HeapOk(h) && AllTailFree(h) && Disciplined(h, op)
    ensures Possible(h, op) && AllTailFree(Step(h, op)) && (op.Get? ==> Safe(h, op.n))
  {
    hide Mul8, PageAligned, Tiles, Alloc;
    match op
    case Get(n) => GetTailFree(h, n);
    case Give(i, k) =>
      AddrOk(|h.pages|, i);
      PageTiles(h, i);
      assert TailFree(Freed(h.pages[i].blocks, k));
  }

  /** Main result: runs without kfree, and runs that free only the last live block of a page, are safe
      and never break a page. */
  lemma {:induction false} DisciplinedIsSafe(h: Heap, ops: seq<HeapOp>)
    requires HeapOk(h) && AllTailFree(h) && DisciplinedRun(h, ops)
    ensures PossibleRun(h, ops) && SafeRun(h, ops) && AllTailFree(Run(h, ops))
    decreases |ops|
  {
    hide Step, Disciplined, AllTailFree, Safe, Possible;
    if ops != [] {
      StepTailFree(h, ops[0]);
      DisciplinedIsSafe(Step(h, ops[0]), ops[1..]);
    }
  }
}
