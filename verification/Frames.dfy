/** The physical page allocator seen as one bit per page (kernel/kernel.c, pmm_*). */
module Frames {
  import opened Words

  /** `base` is the first managed frame number, `used[i]` the bit of frame `base + i`,
      `avail` the 32-bit counter of free pages. */
  datatype Bits = Bits(base: nat, used: seq<bool>, avail: u32)

  /** Frame numbers are 20 bits wide and frame 0 is never managed, so 0 can stand for NULL. */
  type Pmm = p: Bits | 1 <= p.base && p.base + |p.used| <= PAGES witness Bits(1, [], 0)

  predicate Managed(p: Pmm, f: nat) {
    p.base <= f < p.base + |p.used|
  }

  predicate Used(p: Pmm, f: nat) {
    Managed(p, f) && p.used[f - p.base]
  }

  ghost function UsedSet(p: Pmm): set<nat> {
    set f: nat | p.base <= f < p.base + |p.used| && Used(p, f)
  }

  /** Number of clear bits. */
  function Clear(used: seq<bool>): nat {
    if used == [] then 0 else Clear(used[..|used| - 1]) + (if used[|used| - 1] then 0 else 1)
  }

  lemma {:induction false} ClearUpdate(used: seq<bool>, i: nat, b: bool)
    requires i < |used|
    ensures Clear(used[i := b]) == Clear(used) + (if used[i] then 1 else 0) - (if b then 1 else 0)
  {
    var n := |used| - 1;
    if i == n {
      assert used[i := b][..n] == used[..n];
    } else {
      ClearUpdate(used[..n], i, b);
      assert used[i := b][..n] == used[..n][i := b];
    }
  }

  lemma {:induction false} ClearZero(used: seq<bool>)
    ensures Clear(used) == 0 <==> forall i | 0 <= i < |used| :: used[i]
  {
    if used != [] {
      var n := |used| - 1;
      ClearZero(used[..n]);
      assert forall i | 0 <= i < n :: used[..n][i] == used[i];
    }
  }

  /** The lowest clear bit at or above `i`, or the length when there is none. */
  function FirstClear(used: seq<bool>, i: nat): (j: nat)
    requires i <= |used|
    ensures i <= j <= |used|
    ensures j < |used| ==> !used[j]
    ensures forall k | i <= k < j :: used[k]
    decreases |used| - i
  {
    if i == |used| || !used[i] then i else FirstClear(used, i + 1)
  }

  datatype Got = Got(pmm: Pmm, frame: nat)

  /** pmm_alloc_page: the lowest clear page, or 0. */
  function AllocFrame(p: Pmm): (g: Got)
    ensures g.pmm.base == p.base && |g.pmm.used| == |p.used|
    ensures g.frame == 0 || (Managed(p, g.frame) && !Used(p, g.frame) && UsedSet(g.pmm) == UsedSet(p) + {g.frame})
  {
    var i := FirstClear(p.used, 0);
    if i == |p.used| then Got(p, 0)
    else
      var q := p.(used := p.used[i := true], avail := Wrap32(p.avail - 1));
      assert UsedSet(q) == UsedSet(p) + {p.base + i};
      Got(q, p.base + i)
  }

  /** pmm_free_page on the address of frame `f`: clears a set bit of a managed page, ignores everything else. */
  function FreeFrame(p: Pmm, f: nat): (q: Pmm)
    ensures q.base == p.base && |q.used| == |p.used|
    ensures UsedSet(q) == UsedSet(p) - {f}
  {
    if Used(p, f) then
      var q := p.(used := p.used[f - p.base := false], avail := Wrap32(p.avail + 1));
      assert UsedSet(q) == UsedSet(p) - {f};
      q
    else
      p
  }

  /** Allocation fails exactly when every bit is set. */
  lemma AllocFails(p: Pmm)
    ensures AllocFrame(p).frame == 0 <==> Clear(p.used) == 0
    ensures AllocFrame(p).frame == 0 ==> AllocFrame(p).pmm == p
    ensures AllocFrame(p).frame != 0 ==> Clear(AllocFrame(p).pmm.used) == Clear(p.used) - 1
  {
    ClearZero(p.used);
    var i := FirstClear(p.used, 0);
    if i < |p.used| {
      ClearUpdate(p.used, i, true);
    }
  }

  // ---- Runs of pages ----

  /** pmm_alloc_page takes the lowest free page and counts it. */
  lemma AllocSpec(p: Pmm)
    ensures var g := AllocFrame(p);
      && (g.frame == 0 <==> forall f: nat | Managed(p, f) :: Used(p, f))
      && (g.frame == 0 ==> g.pmm == p)
      && (g.frame != 0 ==>
            && Managed(p, g.frame) && !Used(p, g.frame) && (forall f: nat | Managed(p, f) && f < g.frame :: Used(p, f))
            && (forall f: nat :: Used(g.pmm, f) <==> Used(p, f) || f == g.frame)
            && g.pmm.avail == Wrap32(p.avail - 1))
  {
    var i := FirstClear(p.used, 0);
    if i == |p.used| {
      forall f: nat | Managed(p, f) ensures Used(p, f) { assert p.used[f - p.base]; }
    } else {
      assert Managed(p, p.base + i) && !Used(p, p.base + i);
      forall f: nat | Managed(p, f) && f < p.base + i ensures Used(p, f) { assert p.used[f - p.base]; }
    }
  }

  /** pmm_free_page clears and counts a set bit of a managed page and ignores everything else. */
  lemma FreeSpec(p: Pmm, f: nat)
    ensures var q := FreeFrame(p, f);
      && (forall g: nat :: Used(q, g) <==> Used(p, g) && g != f)
      && q.avail == (if Used(p, f) then Wrap32(p.avail + 1) else p.avail)
      && (!Used(p, f) ==> q == p)
  {
  }

  predicate RunAt(used: seq<bool>, s: nat, n: nat) {
    s + n <= |used| && forall k | s <= k < s + n :: !used[k]
  }

  /** The lowest start at or above `s` of `n` clear pages, or the length when there is none. */
  function FindRun(used: seq<bool>, n: nat, s: nat): (r: nat)
    requires s <= |used|
    ensures s <= r <= |used|
    ensures r < |used| ==> RunAt(used, r, n)
    ensures forall t | s <= t < r :: !RunAt(used, t, n)
    decreases |used| - s
  {
    if s == |used| || RunAt(used, s, n) then s else FindRun(used, n, s + 1)
  }

  function SetRange(used: seq<bool>, s: nat, n: nat): (r: seq<bool>)
    requires s + n <= |used|
    ensures |r| == |used|
    ensures forall k | 0 <= k < |used| :: r[k] == (used[k] || s <= k < s + n)
    decreases n
  {
    if n == 0 then used else SetRange(used[s := true], s + 1, n - 1)
  }

  /** pmm_alloc_blocks: the lowest run of `count` clear pages, or 0. */
  function AllocBlocks(p: Pmm, count: u32): (g: Got)
    ensures g.pmm.base == p.base && |g.pmm.used| == |p.used|
  {
    var s := FindRun(p.used, count, 0);
    if count == 0 || count > p.avail || s == |p.used| then Got(p, 0)
    else Got(p.(used := SetRange(p.used, s, count), avail := Wrap32(p.avail - count)), p.base + s)
  }

  /** The free loop: page indices wrap at 32 bits, unmanaged and clear pages are skipped. */
  function FreeBits(p: Pmm, start: nat, i: nat, n: nat): (q: Pmm)
    requires i <= n
    ensures q.base == p.base && |q.used| == |p.used|
    decreases n - i
  {
    if i == n then p else FreeBits(FreeFrame(p, p.base + Wrap32(start + i)), start, i + 1, n)
  }

  /** pmm_free_blocks on a physical address. */
  function FreeBlocks(p: Pmm, addr: u32, count: u32): Pmm {
    if addr == 0 || count == 0 || addr < p.base * 4096 || addr >= (p.base + |p.used|) * 4096 then p
    else
      var start := (addr - p.base * 4096) / 4096;
      var n := if Wrap32(start + count) > |p.used| then |p.used| - start else count;
      FreeBits(p, start, 0, n)
  }

  /** Index `j` is among the `n` that the free loop visits from `start` on, counting at 32 bits. */
  predicate Visited(start: nat, n: nat, j: nat) { start <= j < start + n || j + 0x1_0000_0000 < start + n }

  lemma {:induction false} FreeBitsSpec(p: Pmm, start: nat, i: nat, n: nat, f: nat)
    requires start < PAGES && i <= n <= 0x1_0000_0000 && p.base <= f < p.base + |p.used|
    ensures Used(FreeBits(p, start, i, n), f) <==>
      Used(p, f) && !(Visited(start, n, f - p.base) && !Visited(start, i, f - p.base))
    decreases n - i
  {
    hide FreeFrame, Wrap32;
    if i < n {
      var g := p.base + Wrap32(start + i);
      FreeSpec(p, g);
      WrapOnce(start + i);
      FreeBitsSpec(FreeFrame(p, g), start, i + 1, n, f);
    }
  }

  lemma WrapOnce(x: nat)
    requires x < 0x2_0000_0000
    ensures Wrap32(x) == if x < 0x1_0000_0000 then x else x - 0x1_0000_0000
  {
  }

  /** pmm_free_blocks: an address outside the region, NULL or a zero count change nothing. Otherwise exactly
      the pages from that of the address on become free, `count` of them as far as the region goes; a
      count that wraps past 2^32 reaches the region's first pages too. The counter follows the bits. */
  lemma FreeBlocksSpec(p: Pmm, addr: u32, count: u32, f: nat)
    ensures var q := FreeBlocks(p, addr, count); var start := addr / 4096;
      && q.base == p.base && |q.used| == |p.used|
      && (count == 0 || !Managed(p, start) ==> q == p)
      && (count != 0 && Managed(p, start) ==>
            (Used(q, f) <==> Used(p, f) && !(start <= f < start + count) && !(f + 0x1_0000_0000 < start + count)))
      && q.avail == Wrap32(p.avail + Clear(q.used) - Clear(p.used))
  {
    hide FreeBits, Wrap32, Clear;
    var q := FreeBlocks(p, addr, count);
    GiveBlocksDrift(p, addr, count);
    CounterFollows(p, q);
    if count != 0 && Managed(p, addr / 4096) {
      var start := (addr - p.base * 4096) / 4096;
      assert start == addr / 4096 - p.base;
      var n := if Wrap32(start + count) > |p.used| then |p.used| - start else count;
      WrapOnce(start + count);
      if Managed(p, f) { FreeBitsSpec(p, start, 0, n, f); }
    }
  }

  lemma CounterFollows(p: Pmm, q: Pmm)
    requires Drift(p) == Drift(q)
    ensures q.avail == Wrap32(p.avail + Clear(q.used) - Clear(p.used))
  {
  }

  // ---- The counter ----

  /** Difference between clear bits and the counter, modulo the counter's width. */
  function Drift(p: Pmm): u32 { Wrap32(Clear(p.used) - p.avail) }

  lemma DriftShift(clear: int, avail: u32, d: int)
    ensures Wrap32(clear + d - Wrap32(avail + d)) == Wrap32(clear - avail)
  {
    var x := avail + d;
    assert Wrap32(x) == x - 0x1_0000_0000 * (x / 0x1_0000_0000);
    WrapPeriod(clear - avail, x / 0x1_0000_0000);
  }

  lemma WrapPeriod(x: int, k: int)
    ensures Wrap32(x + 0x1_0000_0000 * k) == Wrap32(x)
  {
  }

  lemma {:induction false} ClearSetRange(used: seq<bool>, s: nat, n: nat)
    requires RunAt(used, s, n)
    ensures Clear(SetRange(used, s, n)) == Clear(used) - n
    decreases n
  {
    if n > 0 {
      ClearUpdate(used, s, true);
      ClearSetRange(used[s := true], s + 1, n - 1);
    }
  }

  datatype PmmOp = TakePage | GivePage(frame: nat) | TakeBlocks(count: u32) | GiveBlocks(addr: u32, n: u32)

  function PmmStep(p: Pmm, op: PmmOp): Pmm {
    match op
    case TakePage => AllocFrame(p).pmm
    case GivePage(f) => FreeFrame(p, f)
    case TakeBlocks(count) => AllocBlocks(p, count).pmm
    case GiveBlocks(addr, n) => FreeBlocks(p, addr, n)
  }

  function PmmRun(p: Pmm, ops: seq<PmmOp>): Pmm
    decreases |ops|
  {
    if ops == [] then p else PmmRun(PmmStep(p, ops[0]), ops[1..])
  }

  lemma FreeFrameDrift(p: Pmm, f: nat)
    ensures Drift(FreeFrame(p, f)) == Drift(p)
  {
    if Used(p, f) {
      ClearUpdate(p.used, f - p.base, false);
      DriftShift(Clear(p.used), p.avail, 1);
    }
  }

  lemma {:induction false} FreeBitsDrift(p: Pmm, start: nat, i: nat, n: nat)
    requires i <= n
    ensures Drift(FreeBits(p, start, i, n)) == Drift(p)
    decreases n - i
  {
    hide Drift, FreeFrame, Wrap32;
    if i < n {
      FreeFrameDrift(p, p.base + Wrap32(start + i));
      FreeBitsDrift(FreeFrame(p, p.base + Wrap32(start + i)), start, i + 1, n);
    }
  }

  lemma TakePageDrift(p: Pmm)
    ensures Drift(AllocFrame(p).pmm) == Drift(p)
  {
    hide Wrap32;
    var i := FirstClear(p.used, 0);
    if i < |p.used| {
      ClearUpdate(p.used, i, true);
      DriftShift(Clear(p.used), p.avail, -1);
    }
  }

  lemma TakeBlocksDrift(p: Pmm, count: u32)
    ensures Drift(AllocBlocks(p, count).pmm) == Drift(p)
  {
    hide Wrap32;
    var s := FindRun(p.used, count, 0);
    if s < |p.used| {
      ClearSetRange(p.used, s, count);
      DriftShift(Clear(p.used), p.avail, 0 - count);
    }
  }

  lemma GiveBlocksDrift(p: Pmm, addr: u32, n: u32)
    ensures Drift(FreeBlocks(p, addr, n)) == Drift(p)
  {
    hide Wrap32, Drift, FreeBits;
    if addr != 0 && n != 0 && p.base * 4096 <= addr < (p.base + |p.used|) * 4096 {
      var start := (addr - p.base * 4096) / 4096;
      FreeBitsDrift(p, start, 0, if Wrap32(start + n) > |p.used| then |p.used| - start else n);
    }
  }

  lemma StepDrift(p: Pmm, op: PmmOp)
    ensures Drift(PmmStep(p, op)) == Drift(p)
  {
    hide Drift, AllocFrame, AllocBlocks, FreeBlocks, FreeFrame;
    match op
    case TakePage => TakePageDrift(p);
    case GivePage(f) => FreeFrameDrift(p, f);
    case TakeBlocks(count) => TakeBlocksDrift(p, count);
    case GiveBlocks(addr, n) => GiveBlocksDrift(p, addr, n);
  }

  /** Conservation over whole runs, double frees and clamped or wrapped ranges included. */
  lemma {:induction false} RunDrift(p: Pmm, ops: seq<PmmOp>)
    ensures Drift(PmmRun(p, ops)) == Drift(p)
    decreases |ops|
  {
    if ops != [] {
      StepDrift(p, ops[0]);
      RunDrift(PmmStep(p, ops[0]), ops[1..]);
    }
  }

  lemma {:induction false} RunNeedsClear(used: seq<bool>, s: nat, n: nat)
    requires RunAt(used, s, n)
    ensures n <= Clear(used)
  {
    ClearSetRange(used, s, n);
  }

  /** When the counter is right, a nonzero request fails only if no run of that length exists. */
  lemma BlocksComplete(p: Pmm, count: u32)
    requires p.avail == Clear(p.used) && count != 0
    ensures AllocBlocks(p, count).frame == 0 <==> forall s: nat :: !RunAt(p.used, s, count)
    ensures AllocBlocks(p, count).frame != 0 ==>
      var s := AllocBlocks(p, count).frame - p.base;
      && s >= 0 && RunAt(p.used, s, count) && (forall t: nat | t < s :: !RunAt(p.used, t, count))
      && forall f: nat :: Used(AllocBlocks(p, count).pmm, f) <==> Used(p, f) || p.base + s <= f < p.base + s + count
  {
    forall s: nat | RunAt(p.used, s, count) ensures count <= Clear(p.used) && FindRun(p.used, count, 0) < |p.used| {
      RunNeedsClear(p.used, s, count);
    }
  }

  /** pmm_alloc_blocks in every state, its counter right or wrong: NULL, changing nothing, exactly for a
      zero count, more than the counter admits, or no run; otherwise the lowest run, which becomes used
      and is counted. */
  lemma BlocksSpec(p: Pmm, count: u32, f: nat)
    ensures var g := AllocBlocks(p, count);
      && (g.frame == 0 <==> count == 0 || count > p.avail || forall s: nat :: !RunAt(p.used, s, count))
      && (g.frame == 0 ==> g.pmm == p)
      && (g.frame != 0 ==>
            && p.base <= g.frame && RunAt(p.used, g.frame - p.base, count)
            && (forall s: nat | s < g.frame - p.base :: !RunAt(p.used, s, count))
            && (Used(g.pmm, f) <==> Used(p, f) || g.frame <= f < g.frame + count)
            && g.pmm.avail == p.avail - count)
  {
    if count > 0 {
      forall s: nat | RunAt(p.used, s, count) ensures FindRun(p.used, count, 0) < |p.used| { }
    }
  }

  lemma BlocksUsed(p: Pmm, count: u32)
    ensures forall f: nat | Used(p, f) :: Used(AllocBlocks(p, count).pmm, f)
  {
  }

  // ---- Start-up ----

  /** The end of pmm_init: count the clear pages, then reserve the first 2048, decrementing the
      counter for every one of them. */
  function Reserve(base: nat, used: seq<bool>): Pmm
    requires 1 <= base && base + |used| <= PAGES
  {
    var n := if |used| < 2048 then |used| else 2048;
    Bits(base, SetRange(used, 0, n), Wrap32(Clear(used) - n))
  }

  lemma {:induction false} ClearSetAny(used: seq<bool>, s: nat, n: nat)
    requires s + n <= |used|
    ensures Clear(SetRange(used, s, n)) >= Clear(used) - n
    ensures Clear(SetRange(used, s, n)) == Clear(used) - n <==> RunAt(used, s, n)
    decreases n
  {
    if n > 0 {
      ClearUpdate(used, s, true);
      ClearSetAny(used[s := true], s + 1, n - 1);
      var rest := used[s := true];
      assert forall k | s + 1 <= k < s + n :: rest[k] == used[k];
      if RunAt(rest, s + 1, n - 1) && !used[s] {
        assert forall k | s <= k < s + n :: k == s || !rest[k];
      }
    }
  }

  /** The counter starts right if and only if none of the reserved pages was reserved before. */
  lemma ReserveExact(base: nat, used: seq<bool>)
    requires 1 <= base && base + |used| <= PAGES
    ensures var n := if |used| < 2048 then |used| else 2048;
      Drift(Reserve(base, used)) == 0 <==> RunAt(used, 0, n)
  {
    var n := if |used| < 2048 then |used| else 2048;
    ClearSetAny(used, 0, n);
    ClearBound(used);
    ClearBound(SetRange(used, 0, n));
    var c := Clear(SetRange(used, 0, n));
    DriftShift(c - (Clear(used) - n), 0, Clear(used) - n);
  }

  lemma {:induction false} ClearBound(used: seq<bool>)
    ensures Clear(used) <= |used|
  {
    if used != [] { ClearBound(used[..|used| - 1]); }
  }

  /** pmm_init without a memory map: 1024 pages from 1 MB. The page marked is number 512 of the region, at
      3 MB; the bitmap itself lies at 2 MB, which is page 256. */
  function Fallback(): Pmm {
    Bits(256, seq(1024, i => i == 512), 1023)
  }

  lemma {:induction false} ClearOneUsed(n: nat, k: nat)
    ensures Clear(seq(n, i => i == k)) == if k < n then n - 1 else n
    decreases n
  {
    if n > 0 {
      assert seq(n, i => i == k)[..n - 1] == seq(n - 1, i => i == k);
      ClearOneUsed(n - 1, k);
    }
  }

  lemma FallbackExact()
    ensures Drift(Fallback()) == 0
  {
    ClearOneUsed(1024, 512);
  }
}
