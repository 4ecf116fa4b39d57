/** One heap page as a list of blocks: what kmalloc and kfree do to it (kernel/kernel.c:446-630). */
module HeapLists {
  import opened Words
  import opened HeapBlocks
  import opened HeapTiling
  import opened HeapFree

  const MAX_HEAP_PAGES := 0x1_0000      // KERNEL_HEAP_SIZE in pages
  const FRESH := 4048                   // payload of a new page's single block

  function AddrOf(count: nat, i: nat): (p: nat)
    requires i < count
    ensures HEAP_START <= p
  {
    HEAP_START + 4096 * (count - 1 - i)
  }

  lemma AddrOk(count: nat, i: nat)
    requires i < count <= MAX_HEAP_PAGES
    ensures PageOk(AddrOf(count, i))
  {
    assert AddrOf(count, i) == 4096 * (786432 + count - 1 - i);
  }

  lemma AddrApart(count: nat, i: nat, j: nat)
    requires i < j < count
    ensures AddrOf(count, j) + PAGE_SIZE <= AddrOf(count, i)
  {
  }

  function Fresh(p: nat): (bs: seq<Blk>)
    requires p + PAGE_SIZE <= HEAP_END
    ensures PageOk(p) ==> Tiles(p, bs)
  {
    [Blk(p + HEADER, FRESH, true)]
  }

  /** The chosen block of a page can be carved without breaking the page. */
  predicate SafeIn(p: nat, bs: seq<Blk>, n: nat) {
    var k := FirstFit(bs, n, 0);
    k >= |bs| - 1 || !Splits(p, bs[k].addr, n)
  }

  function Allot(p: nat, bs: seq<Blk>, n: nat): seq<Blk>
    requires PageOk(p) && Tiles(p, bs) && FirstFit(bs, n, 0) < |bs| && SafeIn(p, bs, n) && n > 0 && Mul8(n)
  {
    var k := FirstFit(bs, n, 0);
    if Splits(p, bs[k].addr, n) then SplitLastTiles(p, bs, n); SplitLast(bs, n) else Take(bs, k)
  }

  lemma AllotTiles(p: nat, bs: seq<Blk>, n: nat)
    requires PageOk(p) && Tiles(p, bs) && FirstFit(bs, n, 0) < |bs| && SafeIn(p, bs, n) && n > 0 && Mul8(n)
    ensures Tiles(p, Allot(p, bs, n))
  {
    hide Mul8, PageAligned, Splits, Tiles, SplitLast, Take;
    var k := FirstFit(bs, n, 0);
    if Splits(p, bs[k].addr, n) { SplitLastTiles(p, bs, n); } else { TakeKeepsTiles(p, bs, k); }
  }

  lemma TakeKeepsTiles(p: nat, bs: seq<Blk>, k: nat)
    requires Tiles(p, bs) && k < |bs|
    ensures Tiles(p, Take(bs, k))
  {
    hide Mul8;
    var out := Take(bs, k);
    forall i | 0 < i < |out| ensures Abuts(out, i) { assert Abuts(bs, i); }
  }

  // ---- Live blocks of a page ----

  ghost function LiveIn(bs: seq<Blk>): set<Blk> { set i | 0 <= i < |bs| && !bs[i].free :: bs[i] }

  /** Inside a page, Allot turns one free block into a live one at the same address. */
  lemma AllotLive(p: nat, bs: seq<Blk>, n: nat)
    requires PageOk(p) && Tiles(p, bs) && FirstFit(bs, n, 0) < |bs| && SafeIn(p, bs, n) && n > 0 && Mul8(n)
    ensures var k := FirstFit(bs, n, 0); var out := Allot(p, bs, n);
      && k < |out| && out[k].addr == bs[k].addr && out[k].size >= n && !out[k].free
      && LiveIn(out) == LiveIn(bs) + {out[k]}
  {
    hide Mul8, PageAligned;
    var k := FirstFit(bs, n, 0);
    var out := Allot(p, bs, n);
    if Splits(p, bs[k].addr, n) { SplitLastTiles(p, bs, n); }
    assert forall j | 0 <= j < |bs| && j != k :: out[j] == bs[j];
    assert |out| == |bs| || (|out| == |bs| + 1 && out[|bs|].free);
    forall b | b in LiveIn(bs) ensures b in LiveIn(out) {
      var j :| 0 <= j < |bs| && !bs[j].free && bs[j] == b;
      assert out[j] == b;
    }
  }

  // ---- kfree ----

  lemma FreedTiles(p: nat, bs: seq<Blk>, k: nat)
    requires PageOk(p) && Tiles(p, bs) && k < |bs|
    ensures Tiles(p, Freed(bs, k))
  {
    hide Mul8, PageAligned, Freed, Join;
    TilesShort(p, bs);
    var a := bs[k := bs[k].(free := true)];
    forall i | 0 < i < |a| ensures Abuts(a, i) { assert Abuts(bs, i); }
    assert Tiles(p, a);
    var c := AfterNext(p, bs, k);
    if JoinsNext(bs, k) { JoinTiles(p, a, k); }
    if JoinsPrev(bs, k) { JoinTiles(p, c, k - 1); }
    JoinTwice(p, bs, k);
  }

  // ---- Conservation ----

  function Total(bs: seq<Blk>): nat {
    if bs == [] then 0 else Total(bs[..|bs| - 1]) + HEADER + bs[|bs| - 1].size
  }

  lemma {:induction false} TotalTo(p: nat, bs: seq<Blk>, n: nat)
    requires Tiles(p, bs) && n < |bs|
    ensures p + HEADER + Total(bs[..n]) == bs[n].addr
    decreases n
  {
    if n > 0 {
      assert Abuts(bs, n);
      TotalTo(p, bs, n - 1);
      assert bs[..n][..n - 1] == bs[..n - 1];
    }
  }

  /** Every tiling of a page accounts for all bytes after the page header. */
  lemma TotalConserved(p: nat, bs: seq<Blk>)
    requires Tiles(p, bs)
    ensures Total(bs) == PAGE_SIZE - HEADER
  {
    TotalTo(p, bs, |bs| - 1);
  }

  // ---- No two neighbours free ----

  predicate Apart(bs: seq<Blk>, i: nat)
    requires 0 < i < |bs|
  {
    !(bs[i - 1].free && bs[i].free)
  }

  predicate Coalesced(bs: seq<Blk>) { forall i | 0 < i < |bs| :: Apart(bs, i) }

  /** Freeing block `k` replaces it and its free neighbours by one free block at index `q`. */
  lemma FreedShape(bs: seq<Blk>, k: nat)
    requires k < |bs|
    ensures var r := Freed(bs, k);
      var q := if JoinsPrev(bs, k) then k - 1 else k;
      var d := (if JoinsPrev(bs, k) then 1 else 0) + (if JoinsNext(bs, k) then 1 else 0);
      && |r| == |bs| - d && q < |r| && r[q].free
      && (forall j | 0 <= j < q :: r[j] == bs[j])
      && (forall j | q < j < |r| :: r[j] == bs[j + d])
  {
  }

  lemma FreedCoalesced(bs: seq<Blk>, k: nat)
    requires k < |bs| && !bs[k].free && Coalesced(bs)
    ensures Coalesced(Freed(bs, k))
  {
    hide Freed;
    FreedShape(bs, k);
    var r := Freed(bs, k);
    var q := if JoinsPrev(bs, k) then k - 1 else k;
    var d := (if JoinsPrev(bs, k) then 1 else 0) + (if JoinsNext(bs, k) then 1 else 0);
    forall i | 0 < i < |r| ensures Apart(r, i) {
      if i < q { assert Apart(bs, i); }
      else if i == q { if q < k { assert Apart(bs, q); } }
      else if i > q + 1 { assert Apart(bs, i + d); }
      else if JoinsNext(bs, k) { assert Apart(bs, k + 2); }
    }
  }

  lemma AllotCoalesced(p: nat, bs: seq<Blk>, n: nat)
    requires PageOk(p) && Tiles(p, bs) && FirstFit(bs, n, 0) < |bs| && SafeIn(p, bs, n) && n > 0 && Mul8(n)
    requires Coalesced(bs)
    ensures Coalesced(Allot(p, bs, n))
  {
    hide Mul8, PageAligned;
    var k := FirstFit(bs, n, 0);
    if Splits(p, bs[k].addr, n) { SplitLastTiles(p, bs, n); }
    var r := Allot(p, bs, n);
    forall i | 0 < i < |r| ensures Apart(r, i) {
      if i < |bs| { assert Apart(bs, i); }
    }
  }

  lemma FreedLive(bs: seq<Blk>, k: nat)
    requires k < |bs| && !bs[k].free
    ensures LiveIn(bs) == LiveIn(Freed(bs, k)) + {bs[k]}
  {
    hide Freed;
    FreedShape(bs, k);
    var r := Freed(bs, k);
    var q := if JoinsPrev(bs, k) then k - 1 else k;
    var d := (if JoinsPrev(bs, k) then 1 else 0) + (if JoinsNext(bs, k) then 1 else 0);
    forall b | b in LiveIn(bs) && b != bs[k] ensures b in LiveIn(r) {
      var j :| 0 <= j < |bs| && !bs[j].free && bs[j] == b;
      if j < q { assert r[j] == b; } else { assert r[j - d] == b; }
    }
  }
}
