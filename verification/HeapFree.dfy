/** kfree: marking a block free and coalescing it with its neighbours (kernel/kernel.c:581-630). */
module HeapFree {
  import opened Words
  import opened HeapBlocks
  import opened HeapTiling

  /** Absorb the block `c`, linked after `b`, into `b`. */
  function JoinWords(w: Ram, b: nat, c: nat): Ram {
    var w1 := Put(w, b + 4, Wrap32(Size(w, b) + HEADER + Size(w, c)));
    var w2 := Put(w1, b + 8, Next(w1, c));
    if Next(w2, b) != 0 then Put(w2, Next(w2, b) + 12, Wrap32(b)) else w2
  }

  /** The stores of kfree after its checks. */
  function Unite(w: Ram, b: nat): Ram {
    var w1 := Put(w, b + 16, 1);
    var w2 := if Next(w1, b) != 0 && Free(w1, Next(w1, b)) != 0 then JoinWords(w1, b, Next(w1, b)) else w1;
    if Prev(w2, b) != 0 && Free(w2, Prev(w2, b)) != 0 then JoinWords(w2, Prev(w2, b), b) else w2
  }

  predicate Frees(w: Ram, ptr: u32) {
    && HEAP_START + HEADER <= ptr < HEAP_END
    && var b := ptr - HEADER; var page := PageOf(w, b);
       && Magic(w, b) == BLOCK_MAGIC
       && page != 0 && Magic(w, page) == PAGE_MAGIC && ValidPage(w, page)
       && PageVirt(w, page) <= b && b + HEADER <= Wrap32(PageVirt(w, page) + PAGE_SIZE)
       && (Next(w, b) != 0 ==> Next(w, b) == Wrap32(b + HEADER + Size(w, b)))
       && Free(w, b) == 0
  }

  function Kfree(w: Ram, ptr: u32): Ram {
    if Frees(w, ptr) then Unite(w, ptr - HEADER) else w
  }

  // ---- The same on lists ----

  function Join(bs: seq<Blk>, i: nat): (r: seq<Blk>)
    requires i + 1 < |bs| && EndOf(bs[i + 1]) < 0x1_0000_0000
    ensures |r| == |bs| - 1 && r[i].addr == bs[i].addr && r[i].free
    ensures r[i].size == Wrap32(bs[i].size + HEADER + bs[i + 1].size)
    ensures (forall j | 0 <= j < i :: r[j] == bs[j]) && (forall j | i < j < |r| :: r[j] == bs[j + 1])
  {
    var size := bs[i].size + HEADER + bs[i + 1].size;
    bs[..i] + [Blk(bs[i].addr, Wrap32(size), true)] + bs[i + 2..]
  }

  predicate Short(bs: seq<Blk>) { forall i | 0 <= i < |bs| :: EndOf(bs[i]) < 0x1_0000_0000 }

  predicate JoinsPrev(bs: seq<Blk>, k: nat) { 0 < k < |bs| && bs[k - 1].free }
  predicate JoinsNext(bs: seq<Blk>, k: nat) { k + 1 < |bs| && bs[k + 1].free }

  /** The list after freeing block `k`: it and its free neighbours become one free block. */
  function Freed(bs: seq<Blk>, k: nat): (r: seq<Blk>)
    requires k < |bs|
  {
    var lo := if JoinsPrev(bs, k) then k - 1 else k;
    var hi := if JoinsNext(bs, k) then k + 2 else k + 1;
    bs[..lo] + [Blk(bs[lo].addr, Wrap32(EndOf(bs[hi - 1]) - HEADER - bs[lo].addr), true)] + bs[hi..]
  }

  lemma TilesShort(p: nat, bs: seq<Blk>)
    requires PageOk(p) && Tiles(p, bs)
    ensures Short(bs)
  {
    forall i | 0 <= i < |bs| ensures EndOf(bs[i]) < 0x1_0000_0000 { Placed(p, bs, i); }
  }

  lemma JoinTiles(p: nat, bs: seq<Blk>, i: nat)
    requires PageOk(p) && Tiles(p, bs) && i + 1 < |bs|
    ensures EndOf(bs[i + 1]) < 0x1_0000_0000 && Tiles(p, Join(bs, i))
    ensures Join(bs, i)[i].addr == bs[i].addr && Join(bs, i)[i].size == bs[i].size + HEADER + bs[i + 1].size
    ensures Join(bs, i)[i].free
  {
    hide Mul8, PageAligned;
    Placed(p, bs, i + 1);
    Placed(p, bs, i);
    var r := Join(bs, i);
    assert Abuts(bs, i + 1);
    Sum8(bs[i].size, bs[i + 1].size);
    forall j | 0 < j < |r| ensures Abuts(r, j) {
      if j <= i { assert Abuts(bs, j); }
      else if j == i + 1 { assert Abuts(bs, i + 2); }
      else { assert Abuts(bs, j + 1); }
    }
    assert i + 2 < |bs| ==> r[|r| - 1] == bs[|bs| - 1];
  }

  lemma Sum8(a: nat, b: nat)
    requires Mul8(a) && Mul8(b)
    ensures Mul8(a + HEADER + b)
  {
  }

  lemma JoinWordsSpec(w: Ram, b: nat, c: nat, next: nat)
    requires b + HEADER <= c && Next(w, c) == next && (next == 0 || c + HEADER <= next)
    requires Size(w, b) + HEADER + Size(w, c) < 0x1_0000_0000 && b < 0x1_0000_0000
    ensures var r := JoinWords(w, b, c);
      && Size(r, b) == Size(w, b) + HEADER + Size(w, c) && Next(r, b) == next
      && (next != 0 ==> Prev(r, next) == b)
      && (forall a: nat | a != b + 4 && a != b + 8 && (next == 0 || a != next + 12) :: Rd(r, a) == Rd(w, a))
  {
  }

  /** Joining two neighbours of a tiled page gives a tiled page. */
  lemma JoinStored(w: Ram, p: nat, bs: seq<Blk>, i: nat)
    requires Tiled(w, p, bs) && i + 1 < |bs| && bs[i].free
    ensures EndOf(bs[i + 1]) < 0x1_0000_0000
    ensures Tiled(JoinWords(w, bs[i].addr, bs[i + 1].addr), p, Join(bs, i))
  {
    hide JoinWords, Rd, Mul8, PageAligned;
    var b, c := bs[i], bs[i + 1];
    JoinTiles(p, bs, i);
    Placed(p, bs, i);
    Placed(p, bs, i + 1);
    assert Abuts(bs, i + 1) && HdrAt(w, p, bs, i) && HdrAt(w, p, bs, i + 1);
    var next := NextOf(bs, i + 1);
    if next != 0 { Ordered(p, bs, i + 1, i + 2); }
    JoinWordsSpec(w, b.addr, c.addr, next);
    var r := JoinWords(w, b.addr, c.addr);
    PageHdrSame(w, r, p);
    var out := Join(bs, i);
    forall j | 0 <= j < |out| ensures HdrAt(r, p, out, j) {
      JoinHdr(w, r, p, bs, i, j);
    }
  }

  lemma JoinHdr(w: Ram, r: Ram, p: nat, bs: seq<Blk>, i: nat, j: nat)
    requires Tiled(w, p, bs) && i + 1 < |bs| && bs[i].free && EndOf(bs[i + 1]) < 0x1_0000_0000 && j < |Join(bs, i)|
    requires Join(bs, i)[i].addr == bs[i].addr && Join(bs, i)[i].size == bs[i].size + HEADER + bs[i + 1].size
    requires Join(bs, i)[i].free
    requires var b, next := bs[i].addr, NextOf(bs, i + 1);
      && Size(r, b) == bs[i].size + HEADER + bs[i + 1].size && Next(r, b) == next
      && (next != 0 ==> Prev(r, next) == b)
      && (forall a: nat | a != b + 4 && a != b + 8 && (next == 0 || a != next + 12) :: Rd(r, a) == Rd(w, a))
    ensures HdrAt(r, p, Join(bs, i), j)
  {
    hide Rd, Mul8, PageAligned, Tiles;
    var was := if j <= i then j else j + 1;
    assert HdrAt(w, p, bs, was);
    Placed(p, bs, was);
    Placed(p, bs, i);
    if j < i {
      Ordered(p, bs, j, i);
      if i + 2 < |bs| { Ordered(p, bs, i, i + 2); }
      HdrSame(w, r, p, bs[j], NextOf(bs, j), PrevOf(bs, j));
    } else if j == i {
      if i + 2 < |bs| { Ordered(p, bs, i, i + 2); }
    } else {
      Ordered(p, bs, i, was);
      if j > i + 1 {
        Ordered(p, bs, i + 2, was);
        HdrSame(w, r, p, bs[was], NextOf(bs, was), PrevOf(bs, was));
      }
    }
  }

  lemma MarkStored(w: Ram, p: nat, bs: seq<Blk>, k: nat)
    requires Tiled(w, p, bs) && k < |bs|
    ensures Tiled(Put(w, bs[k].addr + 16, 1), p, bs[k := bs[k].(free := true)])
  {
    hide Mul8, PageAligned;
    var r := Put(w, bs[k].addr + 16, 1);
    var out := bs[k := bs[k].(free := true)];
    Placed(p, bs, k);
    forall i | 0 < i < |out| ensures Abuts(out, i) { assert Abuts(bs, i); }
    PageHdrSame(w, r, p);
    forall i | 0 <= i < |bs| ensures HdrAt(r, p, out, i) {
      assert HdrAt(w, p, bs, i);
      if i < k {
        Ordered(p, bs, i, k);
        HdrSame(w, r, p, bs[i], NextOf(bs, i), PrevOf(bs, i));
      } else if k < i {
        Ordered(p, bs, k, i);
        HdrSame(w, r, p, bs[i], NextOf(bs, i), PrevOf(bs, i));
      }
    }
  }

  /** kfree of any live block of a tiled page: the page stays tiled and becomes `Freed`. */
  lemma KfreeTiled(w: Ram, p: nat, bs: seq<Blk>, k: nat)
    requires Tiled(w, p, bs) && k < |bs| && !bs[k].free
    ensures Short(bs) && bs[k].addr + HEADER < 0x1_0000_0000
    ensures Tiled(Kfree(w, bs[k].addr + HEADER), p, Freed(bs, k))
  {
    hide JoinWords, Rd, Mul8, PageAligned, Chain, ValidBlock, Unite, Freed;
    TilesShort(p, bs);
    TiledValid(w, p, bs);
    Placed(p, bs, k);
    assert HdrAt(w, p, bs, k);
    NextIsEnd(p, bs, k);
    var b := bs[k].addr;
    assert Frees(w, b + HEADER);
    UniteTiled(w, p, bs, k);
  }

  lemma NextIsEnd(p: nat, bs: seq<Blk>, k: nat)
    requires Tiles(p, bs) && k < |bs|
    ensures NextOf(bs, k) == 0 || NextOf(bs, k) == EndOf(bs[k])
  {
    if k + 1 < |bs| { assert Abuts(bs, k + 1); }
  }

  lemma UniteTiled(w: Ram, p: nat, bs: seq<Blk>, k: nat)
    requires Tiled(w, p, bs) && k < |bs|
    ensures Tiled(Unite(w, bs[k].addr), p, Freed(bs, k))
  {
    hide JoinWords, Rd, Mul8, PageAligned, Tiles, Put, Hdr, Freed;
    var b: nat := bs[k].addr;
    MarkStored(w, p, bs, k);
    var w1 := Put(w, b + 16, 1);
    var a := bs[k := bs[k].(free := true)];
    Neighbours(w1, p, a, k);
    var c := AfterNext(p, bs, k);
    if JoinsNext(bs, k) { JoinStored(w1, p, a, k); }
    var w2 := if Next(w1, b) != 0 && Free(w1, Next(w1, b)) != 0 then JoinWords(w1, b, Next(w1, b)) else w1;
    assert Tiled(w2, p, c) && c[k].addr == b && (k > 0 ==> c[k - 1] == bs[k - 1]);
    Neighbours(w2, p, c, k);
    if JoinsPrev(bs, k) { JoinStored(w2, p, c, k - 1); }
    JoinTwice(p, bs, k);
  }

  /** The list between the two joins of kfree. */
  function AfterNext(p: nat, bs: seq<Blk>, k: nat): (c: seq<Blk>)
    requires PageOk(p) && Tiles(p, bs) && k < |bs|
    ensures k < |c|
  {
    var a := bs[k := bs[k].(free := true)];
    TilesShort(p, bs);
    if JoinsNext(bs, k) then Join(a, k) else a
  }

  /** What the link and free fields say about the neighbours of block `k`. */
  lemma Neighbours(w: Ram, p: nat, bs: seq<Blk>, k: nat)
    requires Tiled(w, p, bs) && k < |bs|
    ensures Next(w, bs[k].addr) == NextOf(bs, k) && Prev(w, bs[k].addr) == PrevOf(bs, k)
    ensures k + 1 < |bs| ==> NextOf(bs, k) != 0 && (Free(w, bs[k + 1].addr) != 0 <==> bs[k + 1].free)
    ensures k > 0 ==> PrevOf(bs, k) != 0 && (Free(w, bs[k - 1].addr) != 0 <==> bs[k - 1].free)
  {
    hide Rd, Mul8, PageAligned, Tiles;
    assert HdrAt(w, p, bs, k);
    if k + 1 < |bs| { assert HdrAt(w, p, bs, k + 1); Placed(p, bs, k + 1); }
    if k > 0 { assert HdrAt(w, p, bs, k - 1); Placed(p, bs, k - 1); }
  }

  /** The two joins together give the list that `Freed` describes. */
  lemma JoinTwice(p: nat, bs: seq<Blk>, k: nat)
    requires PageOk(p) && Tiles(p, bs) && k < |bs|
    ensures var c := AfterNext(p, bs, k);
      && EndOf(c[k]) < 0x1_0000_0000
      && Freed(bs, k) == if JoinsPrev(bs, k) then Join(c, k - 1) else c
  {
    hide Mul8, PageAligned, Tiles;
    MergedNext(p, bs, k);
    var c := AfterNext(p, bs, k);
    var hi := if JoinsNext(bs, k) then k + 2 else k + 1;
    assert c[..k] == bs[..k] && c[k + 1..] == bs[hi..];
    if JoinsPrev(bs, k) {
      Placed(p, bs, k - 1);
      AbutsAt(p, bs, k);
      assert c[..k - 1] == bs[..k - 1];
    }
  }

  /** Block `k` with its free successor, as one block. */
  lemma MergedNext(p: nat, bs: seq<Blk>, k: nat)
    requires PageOk(p) && Tiles(p, bs) && k < |bs|
    ensures var c := AfterNext(p, bs, k); var hi := if JoinsNext(bs, k) then k + 2 else k + 1;
      && |c| == |bs| - (hi - k - 1) && c[k].addr == bs[k].addr && c[k].free
      && EndOf(c[k]) == EndOf(bs[hi - 1]) < 0x1_0000_0000
      && (forall j | 0 <= j < k :: c[j] == bs[j]) && (forall j | k < j < |c| :: c[j] == bs[j + hi - k - 1])
  {
    hide Mul8, PageAligned, Tiles, Join;
    TilesShort(p, bs);
    Placed(p, bs, k);
    if JoinsNext(bs, k) {
      Placed(p, bs, k + 1);
      AbutsAt(p, bs, k + 1);
    }
  }

  lemma AbutsAt(p: nat, bs: seq<Blk>, i: nat)
    requires Tiles(p, bs) && 0 < i < |bs|
    ensures Abuts(bs, i)
  {
  }
}
