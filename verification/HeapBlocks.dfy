/** Block headers of the kernel heap in memory words (kernel/kernel.c:329-507). */
module HeapBlocks {
  import opened Words

  const HEAP_START := 0xC000_0000
  const HEAP_END := 0xD000_0000
  const HEADER := 24                 // sizeof(heap_block_t) == sizeof(heap_page_t)
  const PAGE_MAGIC := 0xC0FF_EE42
  const BLOCK_MAGIC := 0xA110_CA7E
  const MIN_SPLIT := 16

  predicate Mul8(x: nat) { x % 8 == 0 }

  /** 32-bit words by address; a word never written reads as 0. */
  type Ram = map<nat, u32>

  function Rd(w: Ram, a: nat): u32 { if a in w then w[a] else 0 }

  function Put(w: Ram, a: nat, x: u32): Ram { w[a := x] }

  function Magic(w: Ram, b: nat): u32 { Rd(w, b) }
  function Size(w: Ram, b: nat): u32 { Rd(w, b + 4) }
  function Next(w: Ram, b: nat): u32 { Rd(w, b + 8) }
  function Prev(w: Ram, b: nat): u32 { Rd(w, b + 12) }
  function Free(w: Ram, b: nat): u32 { Rd(w, b + 16) }
  function PageOf(w: Ram, b: nat): u32 { Rd(w, b + 20) }
  function PageVirt(w: Ram, p: nat): u32 { Rd(w, p + 8) }
  function PageNext(w: Ram, p: nat): u32 { Rd(w, p + 12) }
  function FirstBlock(w: Ram, p: nat): u32 { Rd(w, p + 20) }

  /** heap_validate_block, with the wrap-around of its 32-bit sums. */
  predicate ValidBlock(w: Ram, page: u32, b: u32) {
    var start := PageVirt(w, page);
    var end := Wrap32(start + PAGE_SIZE);
    var blockEnd := Wrap32(b + HEADER);
    && page != 0 && b != 0
    && Magic(w, b) == BLOCK_MAGIC && PageOf(w, b) == page
    && b >= start && blockEnd <= end
    && Mul8(b)
    && Size(w, b) != 0 && Mul8(Size(w, b))
    && Size(w, b) <= end - blockEnd
    && (Next(w, b) != 0 ==>
          && start <= Next(w, b) <= end && Wrap32(Next(w, b) + HEADER) <= end
          && Next(w, b) == Wrap32(blockEnd + Size(w, b))
          && Magic(w, Next(w, b)) == BLOCK_MAGIC && Prev(w, Next(w, b)) == b)
  }

  /** The page header checks of heap_validate_page. */
  predicate ValidHeader(w: Ram, page: u32) {
    && page != 0 && Magic(w, page) == PAGE_MAGIC
    && VirtOk(w, page)
    && FirstBlock(w, page) != 0
    && PageOf(w, FirstBlock(w, page)) == page
  }

  /** Distance left to walk: a block inside its page is at most a page away from the end. */
  function Left(w: Ram, page: u32, b: u32): nat {
    var start := PageVirt(w, page);
    if start <= b <= start + PAGE_SIZE then start + PAGE_SIZE - b else 2 * PAGE_SIZE
  }

  /** The range check on the page address, which the walks rely on. */
  predicate VirtOk(w: Ram, page: u32) {
    PageVirt(w, page) >= HEAP_START && Wrap32(PageVirt(w, page) + PAGE_SIZE) <= HEAP_END
  }

  /** Every accepted link climbs by a header and at least eight bytes, whatever the page holds. */
  lemma Climbs(w: Ram, page: u32, b: u32)
    requires VirtOk(w, page) && ValidBlock(w, page, b) && Next(w, b) != 0
    ensures Left(w, page, Next(w, b)) < Left(w, page, b)
    ensures PageVirt(w, page) <= b <= PageVirt(w, page) + PAGE_SIZE ==> Next(w, b) >= b + 32
  {
    var start := PageVirt(w, page);
    if start <= b <= start + PAGE_SIZE {
      assert Wrap32(b + HEADER) == b + HEADER;
    }
  }

  /** The walk of heap_validate_page from block `b`. */
  predicate Chain(w: Ram, page: u32, b: u32)
    requires VirtOk(w, page)
    decreases Left(w, page, b)
  {
    b == 0 || (ValidBlock(w, page, b) && (Next(w, b) == 0 || (Climbs(w, page, b); Chain(w, page, Next(w, b)))))
  }

  predicate ValidPage(w: Ram, page: u32) {
    ValidHeader(w, page) && Chain(w, page, FirstBlock(w, page))
  }

  /** The walk of heap_find_free_block from block `b`: 0 when nothing fits or the walk stops. */
  function FindFrom(w: Ram, page: u32, size: u32, b: u32): u32
    requires VirtOk(w, page)
    decreases Left(w, page, b)
  {
    if b == 0 || !ValidBlock(w, page, b) then 0
    else if Free(w, b) != 0 && Size(w, b) >= size then b
    else if Next(w, b) == 0 then 0
    else Climbs(w, page, b); FindFrom(w, page, size, Next(w, b))
  }

  function FindFree(w: Ram, page: u32, size: u32): u32 {
    if ValidPage(w, page) then FindFrom(w, page, size, FirstBlock(w, page)) else 0
  }

  /** heap_validate_page as a loop: it halts on arbitrary contents. */
  method ValidatePage(w: Ram, page: u32) returns (ok: bool)
    ensures ok == ValidPage(w, page)
  {
    if page == 0 || Magic(w, page) != PAGE_MAGIC { return false; }
    if PageVirt(w, page) < HEAP_START || Wrap32(PageVirt(w, page) + PAGE_SIZE) > HEAP_END { return false; }
    if FirstBlock(w, page) == 0 { return false; }
    if PageOf(w, FirstBlock(w, page)) != page { return false; }
    var current := FirstBlock(w, page);
    while current != 0
      invariant Chain(w, page, current) == Chain(w, page, FirstBlock(w, page))
      decreases if current == 0 then 0 else 1 + Left(w, page, current)
    {
      if !ValidBlock(w, page, current) { return false; }
      if Next(w, current) != 0 { Climbs(w, page, current); }
      current := Next(w, current);
    }
    return true;
  }
}
