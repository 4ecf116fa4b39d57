/** The executable format on the bytes of the file: which files elf_validate accepts, where a load
    jumps to and where it puts the break, stated with offsets and unbounded integers only
    (kernel/elf.c:122-292). */
module ElfBytes {
  import opened Words
  import opened Frames
  import opened Paging
  import opened Memory
  import opened Ownership
  import opened UserHeap
  import opened Access
  import opened Break
  import opened Loader
  import opened Image
  import opened Rollback
  import opened Elf

  /** The unsigned number in `n` bytes from `o` on, lowest byte first. */
  function Le(d: seq<byte>, o: nat, n: nat): (r: nat)
    requires o + n <= |d|
    decreases n
  {
    if n == 0 then 0 else d[o] as int + 256 * Le(d, o + 1, n - 1)
  }

  lemma LeWord(d: seq<byte>, o: nat)
    requires o + 4 <= |d|
    ensures U32(d, o) == Le(d, o, 4)
    ensures Le(d, o, 4) == d[o] as int + 0x100 * d[o + 1] as int
      + 0x1_0000 * d[o + 2] as int + 0x100_0000 * d[o + 3] as int
  {
    assert Le(d, o + 3, 1) == d[o + 3] as int;
    assert Le(d, o + 2, 2) == d[o + 2] as int + 256 * Le(d, o + 3, 1);
    assert Le(d, o + 1, 3) == d[o + 1] as int + 256 * Le(d, o + 2, 2);
  }

  lemma LeHalf(d: seq<byte>, o: nat)
    requires o + 2 <= |d|
    ensures U16(d, o) == Le(d, o, 2) == d[o] as int + 0x100 * d[o + 1] as int
  {
    assert Le(d, o + 1, 1) == d[o + 1] as int;
  }

  /** Where a relocatable file goes. */
  function Shift(d: seq<byte>): nat
    requires |d| >= 52
  {
    if Le(d, 16, 2) == 3 then 0x0804_8000 else 0
  }

  predicate TableInFile(off: nat, n: nat, size: nat, len: nat) { off + n * size <= len }

  /** A 32-bit little-endian executable or shared object for the 386, with a program header table inside
      the file and an entry point in user space. */
  predicate GoodHeader(d: seq<byte>) {
    && |d| >= 52
    && d[0] == 0x7F && d[1] as int == 'E' as int && d[2] as int == 'L' as int && d[3] as int == 'F' as int
    && (Le(d, 16, 2) == 2 || Le(d, 16, 2) == 3)
    && Le(d, 18, 2) == 3 && Le(d, 20, 4) == 1
    && Le(d, 28, 4) > 0 && Le(d, 44, 2) > 0 && Le(d, 42, 2) >= 32
    && TableInFile(Le(d, 28, 4), Le(d, 44, 2), Le(d, 42, 2), |d|)
    && Le(d, 24, 4) > 0
    && 0x0804_8000 <= Le(d, 24, 4) + Shift(d) < 0xC000_0000
  }

  lemma WrapIn(a: u32, b: nat)
    requires b == 0 || b == USER_BASE
    ensures USER_BASE <= Wrap32(a + b) <= USER_TOP <==> USER_BASE <= a + b < 0xC000_0000
    ensures USER_BASE <= Wrap32(a + b) ==> Wrap32(a + b) == a + b
  {
    if a + b >= 0x1_0000_0000 { assert Wrap32(a + b) == a + b - 0x1_0000_0000; }
  }

  lemma HeaderExact(d: seq<byte>)
    ensures HeaderOk(d) <==> GoodHeader(d)
    ensures |d| >= 52 ==> Bias(d) == Shift(d)
  {
    hide U16, U32, Le, Wrap32;
    if |d| >= 52 {
      LeWord(d, 0);
      MagicBytes(d);
      LeHalf(d, 16);
      LeHalf(d, 18);
      LeWord(d, 20);
      LeWord(d, 24);
      LeWord(d, 28);
      LeHalf(d, 42);
      LeHalf(d, 44);
      WrapIn(EEntry(d), Bias(d));
      assert TableFits(PhOff(d), PhNum(d), PhEntSize(d), |d|) == TableInFile(PhOff(d), PhNum(d), PhEntSize(d), |d|);
    }
  }

  lemma MagicBytes(d: seq<byte>)
    requires |d| >= 4
    ensures U32(d, 0) == 0x464C_457F <==> d[0] == 0x7F && d[1] == 0x45 && d[2] == 0x4C && d[3] == 0x46
  {
    LeWord(d, 0);
  }

  /** The program header at file offset `o`: a loadable segment fits into the file and, shifted, into user
      space, and its address and file offset agree modulo its alignment. */
  predicate GoodSegment(d: seq<byte>, o: nat, shift: nat)
    requires o + 32 <= |d|
  {
    var offset, vaddr, align := Le(d, o + 4, 4), Le(d, o + 8, 4), Le(d, o + 28, 4);
    var filesz, memsz := Le(d, o + 16, 4), Le(d, o + 20, 4);
    Le(d, o, 4) == 1 ==>
      && filesz <= memsz && offset + filesz <= |d| && Le(d, o + 24, 4) < 8
      && 0x0804_8000 <= vaddr + shift && vaddr + shift + memsz <= 0xC000_0000
      && (align == 0 || (vaddr - offset) % align == 0)
  }

  lemma SameRest(a: nat, b: nat, n: nat)
    requires n > 0
    ensures a % n == b % n <==> (a - b) % n == 0
  {
    var q := a / n - b / n;
    assert a - b == n * q + (a % n - b % n);
    if a % n == b % n {
      Multiple(q, n);
    } else {
      NoMultiple(q, n, a % n - b % n);
    }
  }

  lemma Multiple(q: int, n: nat)
    requires n > 0
    ensures n * q % n == 0
  {
    Quotients(n * q, n, q, 0);
  }

  lemma NoMultiple(q: int, n: nat, r: int)
    requires 0 - n < r < n && r != 0
    ensures (n * q + r) % n != 0
  {
    if r > 0 {
      Quotients(n * q + r, n, q, r);
    } else {
      assert n * q + r == n * (q - 1) + (n + r);
      Quotients(n * q + r, n, q - 1, n + r);
    }
  }

  lemma Small(n: nat, d: int)
    requires 0 - n < n * d < n
    ensures d == 0
  {
  }

  /** Quotient and remainder are unique. */
  lemma Quotients(x: int, n: nat, q: int, r: nat)
    requires n > 0 && x == n * q + r && r < n
    ensures x % n == r
  {
    var d := x / n - q;
    assert n * d == r - x % n;
    Small(n, d);
  }

  /** The fields of a program header, by their place in the file. */
  lemma PhdrBytes(d: seq<byte>, i: nat)
    requires HeaderOk(d) && i < PhNum(d)
    ensures GoodHeader(d) && i < Le(d, 44, 2) && PhAt(d, i) == Le(d, 28, 4) + i * Le(d, 42, 2)
    ensures var o := PhAt(d, i); var p := PhdrOf(d, i);
      && o + 32 <= |d| && p.kind == Le(d, o, 4) && p.offset == Le(d, o + 4, 4) && p.vaddr == Le(d, o + 8, 4)
      && p.filesz == Le(d, o + 16, 4) && p.memsz == Le(d, o + 20, 4) && p.flags == Le(d, o + 24, 4)
      && p.align == Le(d, o + 28, 4)
  {
    HeaderExact(d);
    LeWord(d, 28);
    LeHalf(d, 42);
    LeHalf(d, 44);
    var o := PhAt(d, i);
    hide Le, U32, U16, GoodHeader, HeaderOk;
    LeWord(d, o); LeWord(d, o + 4); LeWord(d, o + 8); LeWord(d, o + 16);
    LeWord(d, o + 20); LeWord(d, o + 24); LeWord(d, o + 28);
  }

  lemma SegmentExact(d: seq<byte>, i: nat)
    requires HeaderOk(d) && i < PhNum(d)
    ensures GoodHeader(d) && PhAt(d, i) + 32 <= |d|
    ensures PhdrAccepted(PhdrOf(d, i), |d|, Bias(d)) <==> GoodSegment(d, PhAt(d, i), Shift(d))
  {
    hide Le, PhdrOf, PhAt, HeaderOk, GoodHeader, RangeAccepted;
    HeaderExact(d);
    PhdrBytes(d, i);
    var p := PhdrOf(d, i);
    CountIs(d);
    ShiftIs(d);
    RangeExact(p, Bias(d));
    if p.align != 0 { SameRest(p.vaddr, p.offset, p.align); }
  }

  lemma ShiftIs(d: seq<byte>)
    requires |d| >= 52
    ensures Bias(d) == 0 || Bias(d) == USER_BASE
  {
  }

  /** The file offset of program header `i`. */
  function HeaderAt(d: seq<byte>, i: nat): nat
    requires |d| >= 52
  {
    Row(Le(d, 28, 4), Le(d, 42, 2), i)
  }

  function Row(base: nat, size: nat, i: nat): nat { base + i * size }

  /** Every program header of the table is a good one. */
  predicate GoodSegments(d: seq<byte>)
    requires |d| >= 52
  {
    forall i | 0 <= i < Le(d, 44, 2) :: HeaderAt(d, i) + 32 <= |d| && GoodSegment(d, HeaderAt(d, i), Shift(d))
  }

  /** Main result: the files that elf_validate accepts, on their bytes. */
  lemma AcceptedExact(d: seq<byte>)
    ensures Accepted(d) <==> GoodHeader(d) && GoodSegments(d)
  {
    hide Le, PhdrOf, PhAt, HeaderOk, GoodHeader, GoodSegment, PhdrAccepted, PhNum;
    HeaderExact(d);
    if HeaderOk(d) {
      CountIs(d);
      forall i | 0 <= i < PhNum(d)
        ensures HeaderAt(d, i) == PhAt(d, i)
        ensures PhdrAccepted(PhdrOf(d, i), |d|, Bias(d)) <==> GoodSegment(d, HeaderAt(d, i), Shift(d))
      {
        PhdrBytes(d, i);
        SegmentExact(d, i);
      }
    }
  }

  lemma CountIs(d: seq<byte>)
    requires HeaderOk(d)
    ensures |d| >= 52 && PhNum(d) == Le(d, 44, 2)
  {
    LeHalf(d, 44);
  }

  /** Main result: a load that succeeds jumps to the entry point the file names, shifted by USER_BASE for a
      shared object; the sum never wraps. */
  lemma EntryIs(m: Mem, h: Heap, d: seq<byte>)
    requires ElfLoad(m, h, d).entry != 0
    ensures |d| >= 52
    ensures ElfLoad(m, h, d).entry ==
      d[24] as int + 0x100 * d[25] as int + 0x1_0000 * d[26] as int + 0x100_0000 * d[27] as int
      + (if d[16] == 3 then 0x0804_8000 else 0)
  {
    hide LoadSegs, Segments, MaxEnd, Wrap32, TableFits, U16, U32, PhdrOf;
    assert HeaderOk(d);
    LeWord(d, 24);
    LeHalf(d, 16);
    WrapIn(EEntry(d), Bias(d));
  }

  // ---- The break a load sets ----

  /** Program header `i` is a loadable segment that takes at least one page. */
  predicate Takes(d: seq<byte>, i: nat)
    requires |d| >= 52
  {
    && i < Le(d, 44, 2) && HeaderAt(d, i) + 32 <= |d| && Le(d, HeaderAt(d, i), 4) == 1
    && (Le(d, HeaderAt(d, i) + 20, 4) > 0 || (Le(d, HeaderAt(d, i) + 8, 4) + Shift(d)) % 4096 != 0)
  }

  /** One past the last address of segment `i`. */
  function EndAt(d: seq<byte>, i: nat): nat
    requires |d| >= 52 && HeaderAt(d, i) + 32 <= |d|
  {
    Le(d, HeaderAt(d, i) + 8, 4) + Shift(d) + Le(d, HeaderAt(d, i) + 20, 4)
  }

  /** The highest segment end so far comes from one of the segments. */
  lemma {:induction false} MaxEndFrom(d: seq<byte>, n: nat)
    requires Accepted(d) && n <= PhNum(d)
    ensures var r := MaxEnd(Segments(d, n));
      r == USER_BASE || exists i :: 0 <= i < n && PhdrOf(d, i).kind == PT_LOAD && EndsAt(d, i, r)
    decreases n
  {
    hide PhdrOf, U16, U32, TableFits, SegOf, HeaderOk;
    if n == 0 {
      assert Segments(d, n) == [];
    } else {
      MaxEndFrom(d, n - 1);
      if PhdrOf(d, n - 1).kind == PT_LOAD {
        var s := SegOf(d, n - 1);
        assert Segments(d, n) == Segments(d, n - 1) + [s];
        assert Segments(d, n)[..n - 1 - (n - 1 - |Segments(d, n - 1)|)] == Segments(d, n - 1);
        if MaxEnd(Segments(d, n)) != MaxEnd(Segments(d, n - 1)) { assert EndsAt(d, n - 1, MaxEnd(Segments(d, n))); }
      } else {
        assert Segments(d, n) == Segments(d, n - 1);
      }
    }
  }

  predicate EndsAt(d: seq<byte>, i: nat, r: nat)
    requires Accepted(d) && i < PhNum(d) && PhdrOf(d, i).kind == PT_LOAD
  {
    var s := SegOf(d, i);
    FirstPage(s) < EndPage(s) && EndPage(s) * 4096 == r
  }

  /** Main result: after a successful load the break is at its base, a page boundary in user space at or
      above the end of every segment that takes a page; and it is the lowest such boundary. */
  lemma BreakIs(m: Mem, h: Heap, d: seq<byte>)
    requires ElfLoad(m, h, d).entry != 0
    ensures |d| >= 52
    ensures var r := ElfLoad(m, h, d).heap;
      && r.ready && r.brk == r.base && r.base % 4096 == 0 && 0x0804_8000 <= r.base <= 0xC000_0000
      && (forall i: nat | Takes(d, i) :: EndAt(d, i) <= r.base)
      && (r.base == 0x0804_8000 || exists i: nat :: Takes(d, i) && r.base < EndAt(d, i) + 4096)
  {
    hide LoadSegs, Segments, MaxEnd, Wrap32, TableFits, U16, U32, PhdrOf, Le, SegOf, HeaderOk, HeaderAt, Init, EEntry;
    assert Accepted(d);
    CountIs(d);
    var segs := Segments(d, PhNum(d));
    InitAt(MaxEnd(segs));
    InitBreak(MaxEnd(segs));
    var r := ElfLoad(m, h, d).heap;
    assert r == Init(MaxEnd(segs));
    forall i: nat | Takes(d, i) ensures EndAt(d, i) <= r.base { TakesBelow(d, i); }
    MaxEndFrom(d, PhNum(d));
    if r.base != USER_BASE {
      var i: nat :| i < PhNum(d) && PhdrOf(d, i).kind == PT_LOAD && EndsAt(d, i, r.base);
      EndsTakes(d, i, r.base);
    }
  }

  lemma InitBreak(top: u32)
    ensures Init(top).ready && Init(top).brk == Init(top).base
  {
  }

  lemma TakesBelow(d: seq<byte>, i: nat)
    requires Accepted(d) && Takes(d, i)
    ensures EndAt(d, i) <= MaxEnd(Segments(d, PhNum(d)))
  {
    hide Segments, MaxEnd, Wrap32, TableFits, U16, U32, PhdrOf, Le, SegOf, HeaderOk, PhAt, FirstPage, EndPage;
    CountIs(d);
    HeaderExact(d);
    PhdrBytes(d, i);
    SegFields(d, i);
    SegmentsHas(d, PhNum(d), i);
    TakesPage(SegOf(d, i));
  }

  lemma EndsTakes(d: seq<byte>, i: nat, r: nat)
    requires Accepted(d) && i < PhNum(d) && PhdrOf(d, i).kind == PT_LOAD && EndsAt(d, i, r)
    ensures |d| >= 52 && Takes(d, i) && r < EndAt(d, i) + 4096
  {
    hide Wrap32, TableFits, U16, U32, PhdrOf, Le, SegOf, HeaderOk, PhAt, FirstPage;
    CountIs(d);
    HeaderExact(d);
    PhdrBytes(d, i);
    SegFields(d, i);
    TakesPage(SegOf(d, i));
  }
}
