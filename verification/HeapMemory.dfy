/** The kernel heap's words in physical memory: what kmalloc and kfree store goes through the page
    tables, and nothing else the kernel does changes it (kernel/kernel.c:446-630). */
module HeapMemory {
  import opened Words
  import opened Frames
  import opened Paging
  import opened Memory
  import opened Ownership
  import opened Access
  import opened Loader
  import opened System
  import opened Reserved
  import opened Isolation
  import opened HeapBlocks
  import opened HeapTiling
  import opened HeapFree
  import HeapLists
  import HeapWords

  // ---- Words through translation ----

  function PeekWord(u: Mmu, a: u32): u32
    requires a + 4 <= 0x1_0000_0000
  {
    Word32(Peek(u, a), Peek(u, a + 1), Peek(u, a + 2), Peek(u, a + 3))
  }

  /** A word of a mapped heap page. */
  predicate InHeap(u: Mmu, a: nat) { a % 4 == 0 && a < HEAP_END && HeapPage(a / 4096) && Mapped(u, a / 4096) }

  predicate WordThere(w: Ram, u: Mmu, a: nat)
    requires a in w
  {
    InHeap(u, a) && PeekWord(u, a) == w[a]
  }

  /** Every word the heap has stored is in memory, at its virtual address. */
  ghost predicate Mirrors(w: Ram, u: Mmu) { forall a: nat | a in w :: WordThere(w, u, a) }

  lemma SamePageBytes(a: nat)
    requires a % 4 == 0
    ensures (a + 1) / 4096 == a / 4096 && (a + 2) / 4096 == a / 4096 && (a + 3) / 4096 == a / 4096
  {
  }

  /** Over every run of loads, break calls, stack, buffer and heap page allocation, every heap word
      stays where it was. */
  lemma RunMirrors(s: Sys, ops: seq<Op>, w: Ram, image: nat)
    requires SysInv(s) && NextFree(s) && Mirrors(w, s.mem.mmu) && VitalPinned(s.mem, image)
    ensures Mirrors(w, Run(s, ops).mem.mmu)
  {
    hide Run, SysInv, NextFree, Pte, Peek, Present, VitalPinned;
    HeapIsolated(s, ops, image);
    var r := Run(s, ops).mem.mmu;
    forall a: nat | a in w ensures WordThere(w, r, a) {
      assert WordThere(w, s.mem.mmu, a);
      SamePageBytes(a);
    }
  }

  // ---- Stores ----

  datatype Store = Store(at: nat, word: u32)

  predicate Inside(ss: seq<Store>, lo: nat, hi: nat) { forall s | s in ss :: s.at % 4 == 0 && lo <= s.at < hi }

  function Puts(w: Ram, ss: seq<Store>): Ram
    decreases |ss|
  {
    if ss == [] then w else Puts(Put(w, ss[0].at, ss[0].word), ss[1..])
  }

  predicate HeapStores(u: Mmu, ss: seq<Store>) { forall s | s in ss :: InHeap(u, s.at) }

  /** The same stores through the page tables. */
  function Pokes(u: Mmu, ss: seq<Store>): Mmu
    requires forall s | s in ss :: s.at < HEAP_END
    decreases |ss|
  {
    if ss == [] then u
    else
      assert ss[0] in ss && forall s | s in ss[1..] :: s in ss;
      Pokes(Write(u, ss[0].at, Le32(ss[0].word)), ss[1..])
  }

  lemma StoreMirrors(m: Mem, w: Ram, a: nat, x: u32)
    requires Inv(m) && Mirrors(w, m.mmu) && InHeap(m.mmu, a)
    ensures var r := Write(m.mmu, a, Le32(x));
      Inv(Mem(m.pmm, r)) && SameView(m.mmu, r) && Mirrors(Put(w, a, x), r) && SameBeyond(m.mmu, r, a, a + 4)
  {
    hide Pde, Pte, Peek, Present, Write, Inv, FrameOf, InHeap, WordThere, Occupied;
    InvSeparate(m);
    AlignedIn(m.mmu, a);
    HeapWordBacked(m.mmu, a);
    WriteSpec(m.mmu, a, Le32(x));
    var r := Write(m.mmu, a, Le32(x));
    SameViewInv(m, r);
    assert Put(w, a, x)[a] == x;
    forall b: nat | b in Put(w, a, x) ensures WordThere(Put(w, a, x), r, b) {
      if b != a {
        assert WordThere(w, m.mmu, b);
        OtherWord(w, m.mmu, r, a, b, x);
      } else {
        ThisWord(w, m.mmu, r, a, x);
      }
    }
  }

  lemma AlignedIn(u: Mmu, a: nat)
    requires InHeap(u, a)
    ensures a % 4 == 0
  {
  }

  lemma HeapWordBacked(u: Mmu, a: nat)
    requires InHeap(u, a)
    ensures a + 4 <= 0x1_0000_0000 && Backed(u, a, 4)
  {
    hide Mapped;
    SamePageBytes(a);
    forall y: u32 | a <= y < a + 4 ensures Occupied(u, y / 4096) {
      assert y == a || y == a + 1 || y == a + 2 || y == a + 3;
    }
  }

  lemma OtherWord(w: Ram, u: Mmu, r: Mmu, a: nat, b: nat, x: u32)
    requires b in w && b != a && a % 4 == 0 && WordThere(w, u, b) && SameView(u, r)
    requires forall y: u32 | Occupied(u, y / 4096) && !(a <= y < a + 4) :: Peek(r, y) == Peek(u, y)
    ensures WordThere(Put(w, a, x), r, b)
  {
    hide Pde, Pte, Peek, Present;
    SamePageBytes(b);
    assert Occupied(u, b / 4096) && (b + 4 <= a || a + 4 <= b);
    assert Peek(r, b) == Peek(u, b) && Peek(r, b + 1) == Peek(u, b + 1) && Peek(r, b + 2) == Peek(u, b + 2);
    assert Peek(r, b + 3) == Peek(u, b + 3);
  }

  lemma ThisWord(w: Ram, u: Mmu, r: Mmu, a: nat, x: u32)
    requires InHeap(u, a) && SameView(u, r)
    requires forall y: u32 | Occupied(u, y / 4096) && a <= y < a + 4 :: Peek(r, y) == Le32(x)[y - a]
    ensures WordThere(Put(w, a, x), r, a)
  {
    hide Pde, Pte, Peek, Present;
    SamePageBytes(a);
    FourBytes(x);
    assert Occupied(u, a / 4096);
    assert Peek(r, a) == Le32(x)[0] && Peek(r, a + 1) == Le32(x)[1] && Peek(r, a + 2) == Le32(x)[2];
    assert Peek(r, a + 3) == Le32(x)[3];
  }

  /** Every mapped byte of the tracked pages outside lo..hi reads the same. */
  ghost predicate SameBeyond(u: Mmu, r: Mmu, lo: nat, hi: nat) {
    forall y: u32 | Occupied(u, y / 4096) && !(lo <= y < hi) :: Peek(r, y) == Peek(u, y)
  }

  lemma BeyondTrans(u: Mmu, v: Mmu, r: Mmu, a: nat, lo: nat, hi: nat)
    requires SameView(u, v) && SameBeyond(u, v, a, a + 4) && SameBeyond(v, r, lo, hi)
    requires a % 4 == 0 && lo <= a < hi && hi % 4 == 0
    ensures SameBeyond(u, r, lo, hi)
  {
    hide Pde, Pte, Peek, Present;
    forall y: u32 | Occupied(u, y / 4096) && !(lo <= y < hi) ensures Peek(r, y) == Peek(u, y) {
      assert Occupied(v, y / 4096) && !(a <= y < a + 4);
    }
  }

  lemma SameStores(u: Mmu, r: Mmu, ss: seq<Store>)
    requires HeapStores(u, ss) && SameView(u, r) && ss != []
    ensures HeapStores(r, ss[1..])
  {
    hide Pde, Pte, Present;
    forall t | t in ss[1..] ensures InHeap(r, t.at) { assert t in ss && InHeap(u, t.at); }
  }

  lemma {:induction false} StoresMirror(m: Mem, w: Ram, ss: seq<Store>, lo: nat, hi: nat)
    requires Inv(m) && Mirrors(w, m.mmu) && HeapStores(m.mmu, ss) && Inside(ss, lo, hi) && hi % 4 == 0
    ensures (forall s | s in ss :: s.at < HEAP_END)
    ensures var r := Pokes(m.mmu, ss);
      Inv(Mem(m.pmm, r)) && SameView(m.mmu, r) && Mirrors(Puts(w, ss), r) && SameBeyond(m.mmu, r, lo, hi)
    decreases |ss|
  {
    hide Pde, Pte, Peek, Present, Write, Inv, Put, Mirrors, SameBeyond, HeapStores;
    StoresBelow(m.mmu, ss);
    if ss == [] {
      BeyondRefl(m.mmu, lo, hi);
    } else {
      var s := ss[0];
      assert s in ss && forall t | t in ss[1..] :: t in ss;
      FirstStore(m.mmu, ss);
      StoreMirrors(m, w, s.at, s.word);
      var u := Write(m.mmu, s.at, Le32(s.word));
      SameStores(m.mmu, u, ss);
      StoresMirror(Mem(m.pmm, u), Put(w, s.at, s.word), ss[1..], lo, hi);
      BeyondTrans(m.mmu, u, Pokes(m.mmu, ss), s.at, lo, hi);
    }
  }

  lemma StoresBelow(u: Mmu, ss: seq<Store>)
    requires HeapStores(u, ss)
    ensures forall s | s in ss :: s.at < HEAP_END
  {
    hide Mapped;
    forall s | s in ss ensures s.at < HEAP_END { assert InHeap(u, s.at); }
  }

  lemma FirstStore(u: Mmu, ss: seq<Store>)
    requires HeapStores(u, ss) && ss != []
    ensures InHeap(u, ss[0].at)
  {
    assert ss[0] in ss;
  }

  lemma BeyondRefl(u: Mmu, lo: nat, hi: nat)
    ensures SameBeyond(u, u, lo, hi) && SameView(u, u)
  {
  }

  /** `r` comes from `w` by word stores inside lo..hi. */
  ghost predicate ByStores(w: Ram, r: Ram, lo: nat, hi: nat) { exists ss :: Puts(w, ss) == r && Inside(ss, lo, hi) }

  /** The pages of lo..hi are mapped heap pages. */
  ghost predicate HeapMapped(u: Mmu, lo: nat, hi: nat) {
    hi <= HEAP_END && forall a: nat | lo <= a < hi :: HeapPage(a / 4096) && Mapped(u, a / 4096)
  }

  /** Main result: whatever kmalloc or kfree does to the heap's words, the same stores done through the
      page tables leave memory with those words, no translation changed and no other mapped byte. */
  lemma HeapInMemory(m: Mem, w: Ram, r: Ram, lo: nat, hi: nat) returns (u: Mmu)
    requires Inv(m) && Mirrors(w, m.mmu) && ByStores(w, r, lo, hi) && HeapMapped(m.mmu, lo, hi) && hi % 4 == 0
    ensures Inv(Mem(m.pmm, u)) && SameView(m.mmu, u) && Mirrors(r, u) && SameBeyond(m.mmu, u, lo, hi)
  {
    hide Pde, Pte, Peek, Present, Inv, Mirrors, Puts, SameBeyond;
    var ss :| Puts(w, ss) == r && Inside(ss, lo, hi);
    assert HeapStores(m.mmu, ss);
    StoresMirror(m, w, ss, lo, hi);
    u := Pokes(m.mmu, ss);
  }

  // ---- kmalloc, kfree and heap_alloc_page are such stores ----

  lemma OneStore(w: Ram, a: nat, x: u32, lo: nat, hi: nat)
    requires a % 4 == 0 && lo <= a < hi
    ensures ByStores(w, Put(w, a, x), lo, hi)
  {
    var ss := [Store(a, x)];
    assert ss[1..] == [];
    assert Puts(w, ss) == Put(w, a, x) && Inside(ss, lo, hi);
  }

  lemma {:induction false} PutsAppend(w: Ram, a: seq<Store>, b: seq<Store>)
    ensures Puts(w, a + b) == Puts(Puts(w, a), b)
    decreases |a|
  {
    if a == [] {
      assert a + b == b;
    } else {
      assert (a + b)[1..] == a[1..] + b;
      PutsAppend(Put(w, a[0].at, a[0].word), a[1..], b);
    }
  }

  lemma ThenStores(w: Ram, r: Ram, s: Ram, lo: nat, hi: nat)
    requires ByStores(w, r, lo, hi) && ByStores(r, s, lo, hi)
    ensures ByStores(w, s, lo, hi)
  {
    hide Puts;
    var a :| Puts(w, a) == r && Inside(a, lo, hi);
    var b :| Puts(r, b) == s && Inside(b, lo, hi);
    PutsAppend(w, a, b);
    assert Puts(w, a + b) == s && Inside(a + b, lo, hi);
  }

  lemma ThenOne(w: Ram, r: Ram, a: nat, x: u32, lo: nat, hi: nat)
    requires ByStores(w, r, lo, hi) && a % 4 == 0 && lo <= a < hi
    ensures ByStores(w, Put(r, a, x), lo, hi)
  {
    hide ByStores, Put;
    OneStore(r, a, x, lo, hi);
    ThenStores(w, r, Put(r, a, x), lo, hi);
  }

  lemma By4(a: nat)
    requires Mul8(a)
    ensures a % 4 == 0 && (a + 4) % 4 == 0 && (a + 8) % 4 == 0 && (a + 12) % 4 == 0 && (a + 16) % 4 == 0
    ensures (a + 20) % 4 == 0
  {
  }

  lemma HeaderStores(w: Ram, a: nat, size: u32, next: u32, prev: u32, free: u32, page: u32, lo: nat, hi: nat)
    requires Mul8(a) && lo <= a && a + HEADER <= hi
    ensures ByStores(w, PutHeader(w, a, size, next, prev, free, page), lo, hi)
  {
    hide ByStores, Put, Mul8;
    By4(a);
    OneStore(w, a, BLOCK_MAGIC, lo, hi);
    var w1 := Put(w, a, BLOCK_MAGIC);
    ThenOne(w, w1, a + 4, size, lo, hi);
    var w2 := Put(w1, a + 4, size);
    ThenOne(w, w2, a + 8, next, lo, hi);
    var w3 := Put(w2, a + 8, next);
    ThenOne(w, w3, a + 12, prev, lo, hi);
    var w4 := Put(w3, a + 12, prev);
    ThenOne(w, w4, a + 16, free, lo, hi);
    ThenOne(w, Put(w4, a + 16, free), a + 20, page, lo, hi);
  }

  /** The stores of kmalloc stay inside the chosen page, whichever block it is. */
  lemma CarveStores(w: Ram, p: u32, bs: seq<Blk>, k: nat, size: u32)
    requires Tiled(w, p, bs) && k < |bs| && 0 < size <= bs[k].size && Mul8(size)
    ensures ByStores(w, Carve(w, p, bs[k].addr, size), p, p + PAGE_SIZE)
  {
    hide ByStores, Put, Mul8, PageAligned, PutHeader, Rd, Tiles;
    var b := bs[k].addr;
    var lo, hi := p, p + PAGE_SIZE;
    Placed(p, bs, k);
    By4(b);
    assert HdrAt(w, p, bs, k);
    if Splits(p, b, size) {
      Mod8(b, size);
      var rest := b + HEADER + size;
      var left := Wrap32((hi - rest - HEADER) / 8 * 8);
      HeaderStores(w, rest, left, Next(w, b), b, 1, p, lo, hi);
      PutHeaderSpec(w, rest, left, Next(w, b), b, 1, p);
      var n := PutHeader(w, rest, left, Next(w, b), b, 1, p);
      if k + 1 < |bs| {
        Placed(p, bs, k + 1);
        By4(bs[k + 1].addr);
        ThenOne(w, n, bs[k + 1].addr + 12, rest, lo, hi);
      }
      var m := if Next(n, b) != 0 then Put(n, Next(n, b) + 12, rest) else n;
      ThenOne(w, m, b + 8, rest, lo, hi);
      ThenOne(w, Put(m, b + 8, rest), b + 4, size, lo, hi);
      ThenOne(w, Put(Put(m, b + 8, rest), b + 4, size), b + 16, 0, lo, hi);
    } else {
      OneStore(w, b + 16, 0, lo, hi);
    }
  }

  lemma JoinStores(w: Ram, p: u32, bs: seq<Blk>, i: nat)
    requires Tiled(w, p, bs) && i + 1 < |bs|
    ensures ByStores(w, JoinWords(w, bs[i].addr, bs[i + 1].addr), p, p + PAGE_SIZE)
  {
    hide ByStores, Put, Mul8, PageAligned, Rd, Tiles;
    var b, c := bs[i].addr, bs[i + 1].addr;
    var lo, hi := p, p + PAGE_SIZE;
    Placed(p, bs, i);
    Placed(p, bs, i + 1);
    Ordered(p, bs, i, i + 1);
    By4(b);
    assert HdrAt(w, p, bs, i) && HdrAt(w, p, bs, i + 1);
    var size := Wrap32(Size(w, b) + HEADER + Size(w, c));
    OneStore(w, b + 4, size, lo, hi);
    var w1 := Put(w, b + 4, size);
    PutElsewhere(w, b + 4, size, c + 8);
    ThenOne(w, w1, b + 8, Next(w1, c), lo, hi);
    var w2 := Put(w1, b + 8, Next(w1, c));
    PutThere(w1, b + 8, Next(w1, c));
    if i + 2 < |bs| {
      Placed(p, bs, i + 2);
      By4(bs[i + 2].addr);
      ThenOne(w, w2, bs[i + 2].addr + 12, b, lo, hi);
    }
  }

  lemma PutElsewhere(w: Ram, a: nat, x: u32, b: nat)
    requires a != b
    ensures Rd(Put(w, a, x), b) == Rd(w, b)
  {
  }

  lemma PutThere(w: Ram, a: nat, x: u32)
    ensures Rd(Put(w, a, x), a) == x
  {
  }

  /** The stores of kfree stay inside the block's page. */
  lemma UniteStores(w: Ram, p: u32, bs: seq<Blk>, k: nat)
    requires Tiled(w, p, bs) && k < |bs|
    ensures ByStores(w, Unite(w, bs[k].addr), p, p + PAGE_SIZE)
  {
    hide ByStores, JoinWords, Rd, Mul8, PageAligned, Tiles, Hdr, Put, Join;
    var b: nat := bs[k].addr;
    var lo, hi := p, p + PAGE_SIZE;
    Placed(p, bs, k);
    By4(b);
    OneStore(w, b + 16, 1, lo, hi);
    MarkStored(w, p, bs, k);
    var w1 := Put(w, b + 16, 1);
    var a := bs[k := bs[k].(free := true)];
    Neighbours(w1, p, a, k);
    var c := AfterNext(p, bs, k);
    if JoinsNext(bs, k) {
      JoinStored(w1, p, a, k);
      JoinStores(w1, p, a, k);
      HeapWords.JoinKeeps(a, k);
      ThenStores(w, w1, JoinWords(w1, b, a[k + 1].addr), lo, hi);
    }
    var w2 := if Next(w1, b) != 0 && Free(w1, Next(w1, b)) != 0 then JoinWords(w1, b, Next(w1, b)) else w1;
    assert Tiled(w2, p, c) && c[k].addr == b && (k > 0 ==> c[k - 1] == bs[k - 1]);
    assert ByStores(w, w2, lo, hi);
    Neighbours(w2, p, c, k);
    if JoinsPrev(bs, k) {
      JoinStores(w2, p, c, k - 1);
      ThenStores(w, w2, JoinWords(w2, c[k - 1].addr, b), lo, hi);
    }
  }

  /** The stores of heap_alloc_page stay inside the new page and the old head's header. */
  lemma NewPageStores(w: Ram, p: u32, phys: u32, head: u32)
    requires PageOk(p) && (head == 0 || (Mul8(head) && HEAP_START <= head && head + PAGE_SIZE <= p))
    ensures ByStores(w, HeapWords.NewPage(w, p, phys, head), HEAP_START, p + PAGE_SIZE)
  {
    hide ByStores, Put, Mul8, PageAligned, PutHeader;
    var lo, hi := HEAP_START, p + PAGE_SIZE;
    PageMul8(p);
    By4(p);
    OneStore(w, p, PAGE_MAGIC, lo, hi);
    var w1 := Put(w, p, PAGE_MAGIC);
    ThenOne(w, w1, p + 4, phys, lo, hi);
    var w2 := Put(w1, p + 4, phys);
    ThenOne(w, w2, p + 8, p, lo, hi);
    var w3 := Put(w2, p + 8, p);
    ThenOne(w, w3, p + 12, head, lo, hi);
    var w4 := Put(w3, p + 12, head);
    ThenOne(w, w4, p + 16, 0, lo, hi);
    var w5 := Put(w4, p + 16, 0);
    ThenOne(w, w5, p + 20, p + HEADER, lo, hi);
    var w6 := Put(w5, p + 20, p + HEADER);
    assert w6 == HeapWords.PutPage(w, p, phys, head);
    Header8(p);
    HeaderStores(w6, p + HEADER, HeapLists.FRESH, 0, 0, 1, p, lo, hi);
    var r := PutHeader(w6, p + HEADER, HeapLists.FRESH, 0, 0, 1, p);
    ThenStores(w, w6, r, lo, hi);
    if head != 0 {
      By4(head);
      ThenOne(w, r, head + 16, p, lo, hi);
    }
  }

  lemma Header8(p: nat)
    requires Mul8(p)
    ensures Mul8(p + HEADER)
  {
  }
}
