/** Three small requests and one kfree that break the only page of the kernel heap; the exact
    condition is `HeapRuns.RunWhole`. */
module HeapScenarios {
  import opened Words
  import opened HeapBlocks
  import opened HeapTiling
  import opened HeapFree
  import opened HeapLists
  import opened KernelHeap
  import opened HeapRuns

  function One(bs: seq<Blk>): Heap { Heap([Whole(bs)], []) }

  const P := HEAP_START

  /** The heap right after heap_init: its first page, and no frame left for another. */
  function Begun(): Heap { One([Blk(P + 24, 4048, true)]) }

  lemma FirstGet()
    ensures HeapOk(Begun()) && Possible(Begun(), Get(8)) && Begun() == Grow(Heap([], [0x90_0000]))
    ensures Step(Begun(), Get(8)) == One([Blk(P + 24, 8, false), Blk(P + 56, 4016, true)])
  {
    AddrOk(1, 0);
    var bs := [Blk(P + 24, 4048, true)];
    assert Grow(Heap([], [0x90_0000])) == One(bs);
    assert FirstFit(bs, 8, 0) == 0;
    var r := [Blk(P + 24, 8, false), Blk(P + 56, 4016, true)];
    assert Allot(P, bs, 8) == r;
    assert Carved(P, bs, 8) == Whole(r);
    assert [Whole(bs)][0 := Whole(r)] == [Whole(r)];
  }

  lemma SecondGet(bs: seq<Blk>)
    requires bs == [Blk(P + 24, 8, false), Blk(P + 56, 4016, true)] && HeapOk(One(bs))
    ensures Step(One(bs), Get(8)) == One([Blk(P + 24, 8, false), Blk(P + 56, 8, false), Blk(P + 88, 3984, true)])
  {
    AddrOk(1, 0);
    assert FirstFit(bs, 8, 0) == 1;
    var r := [Blk(P + 24, 8, false), Blk(P + 56, 8, false), Blk(P + 88, 3984, true)];
    assert Allot(P, bs, 8) == r;
    assert Carved(P, bs, 8) == Whole(r);
    assert [Whole(bs)][0 := Whole(r)] == [Whole(r)];
  }

  lemma FirstGive(bs: seq<Blk>)
    requires bs == [Blk(P + 24, 8, false), Blk(P + 56, 8, false), Blk(P + 88, 3984, true)] && HeapOk(One(bs))
    ensures Step(One(bs), Give(0, 0)) == One([Blk(P + 24, 8, true), Blk(P + 56, 8, false), Blk(P + 88, 3984, true)])
  {
    AddrOk(1, 0);
    var r := [Blk(P + 24, 8, true), Blk(P + 56, 8, false), Blk(P + 88, 3984, true)];
    assert Freed(bs, 0) == r;
    assert [Whole(bs)][0 := Whole(r)] == [Whole(r)];
  }

  lemma ThirdGet(bs: seq<Blk>)
    requires bs == [Blk(P + 24, 8, true), Blk(P + 56, 8, false), Blk(P + 88, 3984, true)] && HeapOk(One(bs))
    ensures var r := Alloc(One(bs), 8);
      !Safe(One(bs), 8) && r.ptr == P + 48 && |r.heap.pages| == 1 && r.heap.pages[0].Broken?
  {
    AddrOk(1, 0);
    assert FirstFit(bs, 8, 0) == 0;
  }

  const Four := [Get(8), Get(8), Give(0, 0), Get(8)]

  /** Two requests of 8 bytes, the first given back, and a third: it is served, breaks the page, and
      every request after it returns NULL. */
  lemma SplitRun(n: u32)
    requires n > 0 && Mul8(n)
    ensures HeapOk(Begun()) && PossibleRun(Begun(), Four) && !SafeRun(Begun(), Four)
    ensures var h := Run(Begun(), Four); !AllWhole(h) && Alloc(h, n) == Got(h, 0)
  {
    hide Alloc, Safe, HeapOk, Mul8, PossibleRun, Run, SafeRun;
    var c := One([Blk(P + 24, 8, true), Blk(P + 56, 8, false), Blk(P + 88, 3984, true)]);
    ThreeSteps(c);
    ThirdGet(c.pages[0].blocks);
    BrokenStops(Alloc(c, 8).heap, n, 0);
  }

  lemma ThreeSteps(c: Heap)
    requires c == One([Blk(P + 24, 8, true), Blk(P + 56, 8, false), Blk(P + 88, 3984, true)])
    ensures HeapOk(Begun()) && HeapOk(c) && Mul8(8) && PossibleRun(Begun(), Four) && !SafeRun(Begun(), Four)
    ensures Run(Begun(), Four) == Alloc(c, 8).heap
  {
    hide Step, Alloc, Safe, HeapOk, Mul8, PossibleRun, Run, SafeRun;
    EightIsMul8();
    FirstGet();
    var a := One([Blk(P + 24, 8, false), Blk(P + 56, 4016, true)]);
    SecondGet(a.pages[0].blocks);
    var b := One([Blk(P + 24, 8, false), Blk(P + 56, 8, false), Blk(P + 88, 3984, true)]);
    FirstGive(b.pages[0].blocks);
    ThirdGet(c.pages[0].blocks);
    LastGet(c);
    assert [Give(0, 0)] + [Get(8)] == [Give(0, 0), Get(8)];
    assert [Get(8)] + [Give(0, 0), Get(8)] == [Get(8), Give(0, 0), Get(8)];
    assert [Get(8)] + [Get(8), Give(0, 0), Get(8)] == Four;
    Before(b, Give(0, 0), c, [Get(8)]);
    Before(a, Get(8), b, [Give(0, 0), Get(8)]);
    Before(Begun(), Get(8), a, [Get(8), Give(0, 0), Get(8)]);
  }

  lemma LastGet(h: Heap)
    requires HeapOk(h) && !Safe(h, 8)
    ensures Possible(h, Get(8)) && PossibleRun(h, [Get(8)]) && !SafeRun(h, [Get(8)])
    ensures Run(h, [Get(8)]) == Step(h, Get(8)) && Step(h, Get(8)) == Alloc(h, 8).heap
  {
    hide Alloc, Safe, HeapOk;
    assert [Get(8)][1..] == [];
  }

  lemma Before(h: Heap, op: HeapOp, next: Heap, ops: seq<HeapOp>)
    requires HeapOk(h) && Possible(h, op) && Step(h, op) == next && PossibleRun(next, ops) && !SafeRun(next, ops)
    ensures PossibleRun(h, [op] + ops) && !SafeRun(h, [op] + ops) && Run(h, [op] + ops) == Run(next, ops)
  {
    hide Step, Safe, HeapOk;
    assert ([op] + ops)[1..] == ops;
  }

  lemma EightIsMul8()
    ensures Mul8(8)
  {
  }
}
