/** Exactly which pages heap_validate_page accepts: those whose words are a chain of blocks, each starting
    where the one before it ends and pointing back to it (kernel/kernel.c:368-444). */
module HeapValidity {
  import opened Words
  import opened HeapBlocks
  import opened HeapTiling

  /** A block header at its address: magic number, owner, and a positive size, a multiple of 8, inside the
      page. */
  predicate BlockHere(w: Ram, p: nat, b: Blk) {
    && Rd(w, b.addr) == 0xA110_CA7E && Rd(w, b.addr + 20) == p && Rd(w, b.addr + 4) == b.size
    && p <= b.addr && b.addr + 24 + b.size <= p + 4096
    && b.addr % 8 == 0 && b.size > 0 && b.size % 8 == 0
    && (b.free <==> Rd(w, b.addr + 16) != 0)
  }

  /** From `b` on the words are these blocks. */
  predicate Follows(w: Ram, p: nat, b: nat, bs: seq<Blk>)
    decreases |bs|
  {
    && bs != [] && bs[0].addr == b && BlockHere(w, p, bs[0])
    && if |bs| == 1 then Rd(w, b + 8) == 0
       else
         var next := b + 24 + bs[0].size;
         Rd(w, b + 8) == next && Rd(w, next + 12) == b && Follows(w, p, next, bs[1..])
  }

  /** What the checks on one block say when its header does not wrap around the address space. */
  lemma BlockIs(w: Ram, p: u32, b: u32)
    requires PageOk(p) && PageVirt(w, p) == p && b + 24 <= 0xFFFF_FFFF
    requires ValidBlock(w, p, b)
    ensures BlockHere(w, p, Blk(b, Size(w, b), Free(w, b) != 0))
    ensures Next(w, b) != 0 ==> Next(w, b) == b + 24 + Size(w, b) && Prev(w, Next(w, b)) == b
  {
    hide Rd;
  }

  /** A valid chain is a list of blocks. */
  lemma {:induction false} ChainFollows(w: Ram, p: u32, b: u32) returns (bs: seq<Blk>)
    requires PageOk(p) && PageVirt(w, p) == p && VirtOk(w, p) && b != 0 && b + 24 <= 0xFFFF_FFFF && Chain(w, p, b)
    ensures Follows(w, p, b, bs)
    decreases Left(w, p, b)
  {
    hide Rd, ValidBlock, BlockHere;
    BlockIs(w, p, b);
    var first := Blk(b, Size(w, b), Free(w, b) != 0);
    if Next(w, b) == 0 {
      bs := [first];
    } else {
      Climbs(w, p, b);
      Ends(w, p, first);
      var rest := ChainFollows(w, p, Next(w, b));
      bs := [first] + rest;
      assert bs[1..] == rest;
    }
  }

  lemma Ends(w: Ram, p: nat, b: Blk)
    requires PageOk(p) && BlockHere(w, p, b)
    ensures b.addr + 24 + b.size <= HEAP_END
  {
  }

  /** A list of blocks is a valid chain. */
  lemma {:induction false} FollowsChain(w: Ram, p: u32, b: u32, bs: seq<Blk>)
    requires PageOk(p) && PageVirt(w, p) == p && VirtOk(w, p) && Follows(w, p, b, bs)
    ensures b != 0 && Chain(w, p, b)
    decreases |bs|
  {
    hide Rd, Chain;
    if |bs| == 1 {
      assert ValidBlock(w, p, b);
      LastChain(w, p, b);
    } else {
      var next := b + 24 + bs[0].size;
      FollowsChain(w, p, next, bs[1..]);
      assert bs[1..][0] == bs[1] && BlockHere(w, p, bs[1]);
      assert ValidBlock(w, p, b);
      LinkChain(w, p, b);
    }
  }

  lemma LastChain(w: Ram, p: u32, b: u32)
    requires VirtOk(w, p) && ValidBlock(w, p, b) && Next(w, b) == 0
    ensures Chain(w, p, b)
  {
    hide Rd, ValidBlock;
  }

  lemma LinkChain(w: Ram, p: u32, b: u32)
    requires VirtOk(w, p) && ValidBlock(w, p, b) && Next(w, b) != 0 && Chain(w, p, Next(w, b))
    ensures Chain(w, p, b)
  {
    hide Rd, ValidBlock;
    Climbs(w, p, b);
  }

  ghost predicate IsList(w: Ram, p: nat, first: nat) { exists bs :: Follows(w, p, first, bs) }

  /** Main result: a heap page that knows its own address validates if and only if it carries the page
      magic number and its words, from the first block on, are such a list. */
  lemma ValidExact(w: Ram, p: u32)
    requires PageOk(p) && Rd(w, p + 8) == p && Rd(w, p + 20) + 24 <= 0xFFFF_FFFF
    ensures ValidPage(w, p) <==> Rd(w, p) == 0xC0FF_EE42 && IsList(w, p, Rd(w, p + 20))
  {
    hide Follows, Chain, Rd;
    assert VirtOk(w, p);
    var b := FirstBlock(w, p);
    if ValidPage(w, p) {
      var bs := ChainFollows(w, p, b);
    }
    if IsList(w, p, b) {
      var bs :| Follows(w, p, b, bs);
      FollowsChain(w, p, b, bs);
      FirstOwned(w, p, b, bs);
    }
  }

  lemma FirstOwned(w: Ram, p: nat, b: nat, bs: seq<Blk>)
    requires Follows(w, p, b, bs)
    ensures Rd(w, b + 20) == p
  {
  }
}
