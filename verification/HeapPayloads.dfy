/** Live payloads under runs of kmalloc, kfree and stores by their owners: neither call changes a word
    of a live payload, and stores inside live payloads never harm the heap (kernel/kernel.c:520-630). */
module HeapPayloads {
  import opened Words
  import opened HeapBlocks
  import opened HeapTiling
  import opened HeapFree
  import opened HeapLists
  import opened KernelHeap
  import opened HeapRuns
  import opened HeapWords
  import opened HeapObject

  /** Where the payload of block `j` ends: for the block that broke the page, after the bytes asked for. */
  function PayloadEnd(page: Page, j: nat): nat
    requires j < |page.blocks|
  {
    if page.Broken? && j == page.cut then page.blocks[j].addr + HEADER + page.asked else EndOf(page.blocks[j])
  }

  /** `a` is a word of the payload of the live block `j`. */
  predicate InPayload(page: Page, j: nat, a: nat) {
    && j < |page.blocks| && !page.blocks[j].free
    && page.blocks[j].addr + HEADER <= a < PayloadEnd(page, j)
  }

  // ---- Stores by the owner ----

  lemma OffHeaders(p: nat, bs: seq<Blk>, j: nat, a: nat)
    requires Tiles(p, bs) && j < |bs| && bs[j].addr + HEADER <= a < EndOf(bs[j])
    ensures !InHeader(bs, a)
  {
    hide Mul8;
    forall i | 0 <= i < |bs| ensures !(bs[i].addr <= a < bs[i].addr + HEADER) {
      if i < j { Ordered(p, bs, i, j); } else if j < i { Ordered(p, bs, j, i); }
    }
  }

  lemma TiledPut(w: Ram, p: u32, bs: seq<Blk>, a: nat, x: u32)
    requires Tiled(w, p, bs) && !InHeader(bs, a) && p + HEADER <= a
    ensures Tiled(Put(w, a, x), p, bs)
  {
    hide Mul8, PageAligned, Tiles;
    var r := Put(w, a, x);
    PutKeeps(w, a, x);
    forall i | 0 <= i < |bs| ensures HdrAt(r, p, bs, i) {
      assert HdrAt(w, p, bs, i);
      HeaderAt(bs, i);
      hide Rd, Put;
      HdrSame(w, r, p, bs[i], NextOf(bs, i), PrevOf(bs, i));
    }
  }

  lemma PutKeeps(w: Ram, a: nat, x: u32)
    ensures forall b: nat | b != a :: Rd(Put(w, a, x), b) == Rd(w, b)
  {
  }

  /** A store inside a live payload keeps its page, whole or broken. */
  lemma PagePut(w: Ram, p: u32, page: Page, j: nat, a: nat, x: u32)
    requires PageHolds(w, p, page) && InPayload(page, j, a)
    ensures PageHolds(Put(w, a, x), p, page) && p + HEADER <= a < p + PAGE_SIZE
  {
    hide Mul8, PageAligned, Rd, Put, Wrap32, Tiles, Severed;
    HoldsTiles(w, p, page);
    var bs := page.blocks;
    Placed(p, bs, j);
    PayloadInside(w, p, page, j);
    OffHeaders(p, bs, j, a);
    PutKeeps(w, a, x);
    match page
    case Whole(_) => TiledPut(w, p, bs, a, x);
    case Broken(_, k, n) =>
      CutPlace(p, bs, k, n, j, a);
      BrokenWords(w, Put(w, a, x), p, bs, k, n);
  }

  lemma HoldsTiles(w: Ram, p: u32, page: Page)
    requires PageHolds(w, p, page)
    ensures PageOk(p) && Tiles(p, page.blocks) && PageHdr(w, p)
    ensures page.Broken? ==> CutOk(p, page.blocks, page.cut, page.asked)
  {
    hide Tiles, Severed;
  }

  lemma PayloadInside(w: Ram, p: u32, page: Page, j: nat)
    requires PageHolds(w, p, page) && j < |page.blocks|
    ensures PayloadEnd(page, j) <= EndOf(page.blocks[j])
  {
    hide Tiles, Severed, Mul8;
  }

  /** A live payload keeps clear of the header at the end of the request that broke the page. */
  lemma CutPlace(p: nat, bs: seq<Blk>, k: nat, n: nat, j: nat, a: nat)
    requires PageOk(p) && Tiles(p, bs) && CutOk(p, bs, k, n) && j < |bs| && bs[j].addr + HEADER <= a
    requires a < if j == k then bs[k].addr + HEADER + n else EndOf(bs[j])
    ensures !(bs[k].addr + HEADER + n <= a < bs[k].addr + HEADER + n + HEADER)
  {
    hide Mul8, PageAligned;
    assert Abuts(bs, k + 1);
    if j < k { Ordered(p, bs, j, k); }
    if j > k + 1 { Ordered(p, bs, k + 1, j); }
  }

  /** Main result: a store inside a live payload keeps every page of the heap as stored. */
  lemma StoreKeeps(w: Ram, h: Heap, i: nat, j: nat, a: nat, x: u32)
    requires HeapOk(h) && HeapStored(w, h.pages) && i < |h.pages| && InPayload(h.pages[i], j, a)
    ensures HeapStored(Put(w, a, x), h.pages)
  {
    hide PageHolds, Rd, Put, Tiles;
    assert PageStored(w, h.pages, i);
    AddrOk(|h.pages|, i);
    var p := AddrOf(|h.pages|, i);
    PagePut(w, p, h.pages[i], j, a, x);
    PutKeeps(w, a, x);
    UpdateStored(w, Put(w, a, x), h, i, h.pages[i]);
    assert h.pages[i := h.pages[i]] == h.pages;
  }

  // ---- kmalloc and kfree spare live payloads ----

  /** Only header words and words of the chosen block change. */
  lemma CarveSafeWords(w: Ram, p: u32, bs: seq<Blk>, k: nat, n: u32, j: nat, a: nat)
    requires Tiled(w, p, bs) && k < |bs| && 0 < n <= bs[k].size && Mul8(n)
    requires (k == |bs| - 1 || !Splits(p, bs[k].addr, n))
    requires j < |bs| && j != k && bs[j].addr + HEADER <= a < EndOf(bs[j])
    ensures Rd(Carve(w, p, bs[k].addr, n), a) == Rd(w, a)
  {
    hide Carve, Rd, Mul8, PageAligned, Tiles;
    Placed(p, bs, k);
    assert HdrAt(w, p, bs, k);
    PageMul8(p);
    if j < k { Ordered(p, bs, j, k); } else { Ordered(p, bs, k, j); }
    if Splits(p, bs[k].addr, n) { CarveLast(w, p, bs[k].addr, n); } else { CarveWhole(w, p, bs[k].addr, n); }
  }

  lemma CarveSparesOthers(w: Ram, p: u32, bs: seq<Blk>, n: u32, j: nat, a: nat)
    requires Tiled(w, p, bs) && n > 0 && Mul8(n) && FirstFit(bs, n, 0) < |bs|
    requires j < |bs| && !bs[j].free && bs[j].addr + HEADER <= a < EndOf(bs[j])
    ensures Rd(Carve(w, p, bs[FirstFit(bs, n, 0)].addr, n), a) == Rd(w, a)
  {
    hide Carve, Rd, Mul8, Tiles, PageAligned;
    var k := FirstFit(bs, n, 0);
    if k == |bs| - 1 || !Splits(p, bs[k].addr, n) {
      CarveSafeWords(w, p, bs, k, n, j, a);
    } else {
      CarveSpares(w, p, bs, k, n, j, a);
    }
  }

  /** The two memories agree on every word that is in no header of the list. */
  ghost predicate HeadersOnly(w: Ram, r: Ram, bs: seq<Blk>) {
    forall a: nat | !InHeader(bs, a) :: Rd(r, a) == Rd(w, a)
  }

  lemma HeadersPut(w: Ram, bs: seq<Blk>, i: nat, a: nat, x: u32)
    requires i < |bs| && bs[i].addr <= a < bs[i].addr + HEADER
    ensures HeadersOnly(w, Put(w, a, x), bs)
  {
    HeaderAt(bs, i);
  }

  lemma HeadersTrans(w: Ram, r: Ram, s: Ram, bs: seq<Blk>)
    requires HeadersOnly(w, r, bs) && HeadersOnly(r, s, bs)
    ensures HeadersOnly(w, s, bs)
  {
  }

  predicate Among(bs: seq<Blk>, x: nat) { exists q :: 0 <= q < |bs| && bs[q].addr == x }

  predicate AllAmong(cs: seq<Blk>, bs: seq<Blk>) { forall m | 0 <= m < |cs| :: Among(bs, cs[m].addr) }

  /** Absorbing a block writes headers of the list it was in. */
  lemma JoinHeaders(w: Ram, p: u32, cs: seq<Blk>, i: nat, bs: seq<Blk>)
    requires Tiled(w, p, cs) && i + 1 < |cs|
    requires AllAmong(cs, bs)
    ensures HeadersOnly(w, JoinWords(w, cs[i].addr, cs[i + 1].addr), bs)
  {
    hide Rd, Mul8, PageAligned, Tiles, Put, HeadersOnly;
    var b: nat, c: nat := cs[i].addr, cs[i + 1].addr;
    assert HdrAt(w, p, cs, i) && HdrAt(w, p, cs, i + 1);
    assert Among(bs, b);
    Ordered(p, cs, i, i + 1);
    var q :| 0 <= q < |bs| && bs[q].addr == b;
    var size := Wrap32(Size(w, b) + HEADER + Size(w, c));
    HeadersPut(w, bs, q, b + 4, size);
    var w1 := Put(w, b + 4, size);
    PutRead(w, b + 4, size, c + 8);
    HeadersPut(w1, bs, q, b + 8, Next(w1, c));
    var w2 := Put(w1, b + 8, Next(w1, c));
    PutRead(w1, b + 8, Next(w1, c), b + 8);
    HeadersTrans(w, w1, w2, bs);
    if i + 2 < |cs| {
      assert Among(bs, cs[i + 2].addr);
      var t :| 0 <= t < |bs| && bs[t].addr == cs[i + 2].addr;
      Placed(p, cs, i);
      HeadersPut(w2, bs, t, cs[i + 2].addr + 12, b);
      HeadersTrans(w, w2, Put(w2, cs[i + 2].addr + 12, b), bs);
    }
  }

  lemma PutRead(w: Ram, a: nat, x: u32, b: nat)
    ensures Rd(Put(w, a, x), b) == if a == b then x else Rd(w, b)
  {
  }

  /** kfree writes headers only. */
  lemma UniteHeaders(w: Ram, p: u32, bs: seq<Blk>, k: nat)
    requires Tiled(w, p, bs) && k < |bs|
    ensures HeadersOnly(w, Unite(w, bs[k].addr), bs)
  {
    hide JoinWords, Rd, Mul8, PageAligned, Tiles, Hdr, Put, Join, HeadersOnly, AllAmong, AfterNext;
    var b: nat := bs[k].addr;
    var w2 := NextPart(w, b);
    NextHeaders(w, p, bs, k);
    TiledOk(w, p, bs);
    var c := AfterNext(p, bs, k);
    Neighbours(w2, p, c, k);
    if JoinsPrev(bs, k) {
      AfterAmong(p, bs, k);
      JoinHeaders(w2, p, c, k - 1, bs);
      HeadersTrans(w, w2, JoinWords(w2, c[k - 1].addr, b), bs);
    }
  }

  lemma TiledOk(w: Ram, p: u32, bs: seq<Blk>)
    requires Tiled(w, p, bs)
    ensures PageOk(p) && Tiles(p, bs)
  {
  }

  /** Marking the block free and joining it with its successor. */
  function NextPart(w: Ram, b: nat): Ram {
    var w1 := Put(w, b + 16, 1);
    if Next(w1, b) != 0 && Free(w1, Next(w1, b)) != 0 then JoinWords(w1, b, Next(w1, b)) else w1
  }

  lemma NextHeaders(w: Ram, p: u32, bs: seq<Blk>, k: nat)
    requires Tiled(w, p, bs) && k < |bs|
    ensures PageOk(p) && Tiles(p, bs)
    ensures var w2 := NextPart(w, bs[k].addr); var c := AfterNext(p, bs, k);
      && HeadersOnly(w, w2, bs) && Tiled(w2, p, c) && c[k].addr == bs[k].addr && (k > 0 ==> c[k - 1] == bs[k - 1])
  {
    hide JoinWords, Rd, Mul8, PageAligned, Tiles, Hdr, Put, Join, HeadersOnly, AllAmong;
    var b: nat := bs[k].addr;
    Placed(p, bs, k);
    HeadersPut(w, bs, k, b + 16, 1);
    MarkStored(w, p, bs, k);
    var w1 := Put(w, b + 16, 1);
    var a := bs[k := bs[k].(free := true)];
    Neighbours(w1, p, a, k);
    if JoinsNext(bs, k) {
      JoinStored(w1, p, a, k);
      SameAmong(bs, a);
      JoinHeaders(w1, p, a, k, bs);
      JoinKeeps(a, k);
      HeadersTrans(w, w1, JoinWords(w1, b, a[k + 1].addr), bs);
    }
  }

  lemma SameAmong(bs: seq<Blk>, a: seq<Blk>)
    requires |a| == |bs| && forall m | 0 <= m < |bs| :: a[m].addr == bs[m].addr
    ensures AllAmong(a, bs)
  {
    forall m | 0 <= m < |a| ensures Among(bs, a[m].addr) { assert bs[m].addr == a[m].addr; }
  }

  lemma AfterAmong(p: nat, bs: seq<Blk>, k: nat)
    requires PageOk(p) && Tiles(p, bs) && k < |bs|
    ensures AllAmong(AfterNext(p, bs, k), bs)
  {
    hide Mul8, PageAligned, Tiles;
    var c := AfterNext(p, bs, k);
    forall m | 0 <= m < |c| ensures Among(bs, c[m].addr) {
      var q := if JoinsNext(bs, k) && m > k then m + 1 else m;
      assert bs[q].addr == c[m].addr;
    }
  }

  // ---- Whole runs ----

  /** `a` is a word of some live payload. */
  ghost predicate LiveWord(h: Heap, a: nat) { exists i, j :: LiveAt(h, i, j, a) }

  predicate LiveAt(h: Heap, i: nat, j: nat, a: nat) { i < |h.pages| && InPayload(h.pages[i], j, a) }

  /** A live payload word lies inside its page, off all headers. */
  lemma LivePlace(w: Ram, h: Heap, i: nat, j: nat, a: nat)
    requires HeapOk(h) && HeapStored(w, h.pages) && LiveAt(h, i, j, a)
    ensures var p, bs := AddrOf(|h.pages|, i), h.pages[i].blocks;
      && PageOk(p) && p + HEADER <= a < p + PAGE_SIZE && bs[j].addr + HEADER <= a < EndOf(bs[j]) && !InHeader(bs, a)
  {
    hide PageHolds, Tiles, Rd;
    AddrOk(|h.pages|, i);
    var p := AddrOf(|h.pages|, i);
    assert PageStored(w, h.pages, i);
    PageTiles(h, i);
    Placed(p, h.pages[i].blocks, j);
    PayloadInside(w, p, h.pages[i], j);
    OffHeaders(p, h.pages[i].blocks, j, a);
  }

  /** kmalloc changes no word of a live payload. */
  lemma {:induction false} GetSpares(w: Ram, h: Heap, n: u32, i: nat, j: nat, a: nat)
    requires HeapOk(h) && HeapStored(w, h.pages) && n > 0 && Mul8(n) && LiveAt(h, i, j, a)
    ensures Rd(GetWords(w, h, n), a) == Rd(w, a)
    decreases MAX_HEAP_PAGES - |h.pages|
  {
    hide HeapStored, Tiles, Mul8, Carve, NewPage, Rd, InPayload, PageAligned;
    LivePlace(w, h, i, j, a);
    var s := Stop(h.pages, n, 0);
    if s < |h.pages| {
      if h.pages[s].Whole? { CarveHere(w, h, n, s, i, j, a); }
    } else if CanGrow(h) {
      GrowStored(w, h, h.frames[0]);
      var r := NewPage(w, HEAP_START + 4096 * |h.pages|, h.frames[0], Link(|h.pages|, 0));
      NewPageSpares(w, h, i, a);
      assert Grow(h).pages[i + 1] == h.pages[i];
      GetSpares(r, Grow(h), n, i + 1, j, a);
    }
  }

  lemma NewPageSpares(w: Ram, h: Heap, i: nat, a: nat)
    requires HeapOk(h) && CanGrow(h) && i < |h.pages|
    requires AddrOf(|h.pages|, i) + HEADER <= a < AddrOf(|h.pages|, i) + PAGE_SIZE
    ensures Rd(NewPage(w, HEAP_START + 4096 * |h.pages|, h.frames[0], Link(|h.pages|, 0)), a) == Rd(w, a)
  {
    hide NewPage, Tiles, Rd, PageAligned;
    var n := |h.pages|;
    AddrOk(n + 1, 0);
    AddrApart(n + 1, 0, 1);
    if i > 0 { AddrApart(n, 0, i); }
    NewPageSpec(w, HEAP_START + 4096 * n, h.frames[0], Link(n, 0));
  }

  lemma CarveHere(w: Ram, h: Heap, n: u32, s: nat, i: nat, j: nat, a: nat)
    requires HeapOk(h) && HeapStored(w, h.pages) && n > 0 && Mul8(n) && LiveAt(h, i, j, a)
    requires s == Stop(h.pages, n, 0) < |h.pages| && h.pages[s].Whole?
    ensures var bs := h.pages[s].blocks;
      Rd(Carve(w, AddrOf(|h.pages|, s), bs[FirstFit(bs, n, 0)].addr, n), a) == Rd(w, a)
  {
    hide Tiles, Mul8, Carve, Rd, PageAligned, Splits;
    LivePlace(w, h, i, j, a);
    AddrOk(|h.pages|, s);
    var p, bs := AddrOf(|h.pages|, s), h.pages[s].blocks;
    assert PageStored(w, h.pages, s);
    var k := FirstFit(bs, n, 0);
    if i == s {
      CarveSparesOthers(w, p, bs, n, j, a);
    } else {
      if i < s { AddrApart(|h.pages|, i, s); } else { AddrApart(|h.pages|, s, i); }
      if SafeIn(p, bs, n) { CarveLocal(w, p, bs, k, n); } else { CarveBreaks(w, p, bs, k, n); }
    }
  }

  /** kfree changes no word of a live payload, the freed one included. */
  lemma GiveSpares(w: Ram, h: Heap, f: nat, k: nat, i: nat, j: nat, a: nat)
    requires HeapOk(h) && HeapStored(w, h.pages) && LiveAt(h, i, j, a) && f < |h.pages| && k < |h.pages[f].blocks|
    ensures h.pages[f].blocks[k].addr + HEADER < 0x1_0000_0000
    ensures Rd(Kfree(w, h.pages[f].blocks[k].addr + HEADER), a) == Rd(w, a)
  {
    hide Tiles, Mul8, Rd, PageAligned, ValidPage, Unite;
    LivePlace(w, h, i, j, a);
    AddrOk(|h.pages|, f);
    PageTiles(h, f);
    var p, bs := AddrOf(|h.pages|, f), h.pages[f].blocks;
    Placed(p, bs, k);
    assert PageStored(w, h.pages, f);
    if h.pages[f].Broken? {
      KfreeBroken(w, p, bs, h.pages[f].cut, h.pages[f].asked, k);
    } else if i == f {
      UniteHeaders(w, p, bs, k);
    } else {
      if i < f { AddrApart(|h.pages|, i, f); } else { AddrApart(|h.pages|, f, i); }
      UniteLocal(w, p, bs, k);
    }
  }

  datatype Act = Call(op: HeapOp) | Store(page: nat, block: nat, at: nat, word: u32)

  datatype State = State(w: Ram, h: Heap)

  ghost predicate Sound(s: State) { HeapOk(s.h) && HeapStored(s.w, s.h.pages) }

  /** kfree gets a payload; a store stays inside a live payload. */
  predicate Fair(s: State, act: Act) {
    match act
    case Call(op) => Possible(s.h, op)
    case Store(i, j, a, _) => LiveAt(s.h, i, j, a)
  }

  lemma PayloadFits(h: Heap, i: nat, k: nat)
    requires HeapOk(h) && i < |h.pages| && k < |h.pages[i].blocks|
    ensures h.pages[i].blocks[k].addr + HEADER < 0x1_0000_0000
  {
    hide Tiles, Mul8, PageAligned;
    AddrOk(|h.pages|, i);
    PageTiles(h, i);
    Placed(AddrOf(|h.pages|, i), h.pages[i].blocks, k);
  }

  function Do(s: State, act: Act): State
    requires HeapOk(s.h) && Fair(s, act)
  {
    match act
    case Call(Get(n)) => State(GetWords(s.w, s.h, n), Alloc(s.h, n).heap)
    case Call(Give(i, k)) =>
      PayloadFits(s.h, i, k);
      State(Kfree(s.w, s.h.pages[i].blocks[k].addr + HEADER), Release(s.h, i, k))
    case Store(_, _, a, x) => State(Put(s.w, a, x), s.h)
  }

  /** Every act keeps the heap stored, and a word of a live payload unless it is the one stored to. */
  lemma DoSound(s: State, act: Act, a: nat)
    requires Sound(s) && Fair(s, act)
    ensures Sound(Do(s, act))
    ensures LiveWord(s.h, a) && !(act.Store? && act.at == a) ==> Rd(Do(s, act).w, a) == Rd(s.w, a)
  {
    hide HeapStored, Tiles, Mul8, Carve, GetWords, Alloc, Kfree, Rd, Put, InPayload;
    match act
    case Call(Get(n)) =>
      GetStored(s.w, s.h, n);
      if LiveWord(s.h, a) {
        var i, j :| LiveAt(s.h, i, j, a);
        GetSpares(s.w, s.h, n, i, j, a);
      }
    case Call(Give(f, k)) =>
      PayloadFits(s.h, f, k);
      FreeStored(s.w, s.h, f, k);
      if LiveWord(s.h, a) {
        var i, j :| LiveAt(s.h, i, j, a);
        GiveSpares(s.w, s.h, f, k, i, j, a);
      }
    case Store(i, j, at, x) =>
      StoreKeeps(s.w, s.h, i, j, at, x);
      PutKeeps(s.w, at, x);
  }

  ghost predicate FairRun(s: State, acts: seq<Act>)
    requires HeapOk(s.h)
    decreases |acts|
  {
    acts == [] || (Fair(s, acts[0]) && HeapOk(Do(s, acts[0]).h) && FairRun(Do(s, acts[0]), acts[1..]))
  }

  ghost function RunActs(s: State, acts: seq<Act>): State
    requires HeapOk(s.h) && FairRun(s, acts)
    decreases |acts|
  {
    if acts == [] then s else RunActs(Do(s, acts[0]), acts[1..])
  }

  /** The word stays in a live payload, and its owner does not store to it. */
  ghost predicate LeftAlone(s: State, acts: seq<Act>, a: nat)
    requires HeapOk(s.h) && FairRun(s, acts)
    decreases |acts|
  {
    acts == [] ||
      (LiveWord(s.h, a) && !(acts[0].Store? && acts[0].at == a) && LeftAlone(Do(s, acts[0]), acts[1..], a))
  }

  /** Main result: over every run of kmalloc, kfree and stores inside live payloads the heap stays stored,
      and a live word that its owner does not store to never changes. */
  lemma {:induction false} PayloadRun(s: State, acts: seq<Act>, a: nat)
    requires Sound(s) && FairRun(s, acts)
    ensures Sound(RunActs(s, acts))
    ensures LeftAlone(s, acts, a) ==> Rd(RunActs(s, acts).w, a) == Rd(s.w, a)
    decreases |acts|
  {
    hide HeapStored, Do, Fair, LiveWord, Rd, Tiles;
    if acts != [] {
      DoSound(s, acts[0], a);
      PayloadRun(Do(s, acts[0]), acts[1..], a);
    }
  }
}
