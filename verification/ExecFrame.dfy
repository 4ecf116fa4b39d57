/** The argument frame k_exec builds on the user stack page for crt0
    (kernel/fs.c:189-237, usr/crt0.asm:8-13). The copy of the strings is checked against the page;
    the pointer cells pushed below them are not, so the model also has the page under the stack. */
module ExecFrame {
  import opened Words

  const STACK_BASE := 0xBFFF_F000     // virtual address of the stack page
  const REGION_BASE := 0xBFFF_E000    // and of the page below it
  const REGION := 8192

  type Region = s: seq<byte> | |s| == REGION witness seq(REGION, _ => 0)

  const MAX_ARGS := 15

  type CString = s: seq<byte> | forall i | 0 <= i < |s| :: s[i] != 0

  // ---- What crt0 and main see ----

  /** A 32-bit cell, little endian. */
  function Cell(mem: Region, o: nat): u32
    requires o + 4 <= REGION
  {
    Word32(mem[o], mem[o + 1], mem[o + 2], mem[o + 3])
  }

  /** The bytes from `o` up to the first NUL. */
  function StringAt(mem: Region, o: nat): seq<byte>
    requires o <= REGION
    decreases REGION - o
  {
    if o == REGION || mem[o] == 0 then [] else [mem[o]] + StringAt(mem, o + 1)
  }

  /** argv[i] of the frame at `o`. */
  function Argv(mem: Region, o: nat, i: nat): u32 {
    if o + 8 + 4 * i <= REGION then Cell(mem, o + 4 + 4 * i) else 0
  }

  /** argc at esp, argv from esp + 4, NULL after the last pointer. */
  ghost predicate Decodes(mem: Region, esp: nat, args: seq<CString>) {
    && REGION_BASE <= esp && esp + 4 * (|args| + 2) <= REGION_BASE + REGION
    && var o := esp - REGION_BASE;
       && Cell(mem, o) == |args|
       && Cell(mem, o + 4 + 4 * |args|) == 0
       && forall i | 0 <= i < |args| :: ArgAt(mem, o, |args|, args, i)
  }

  /** argv[i] points above the frame, into the page, at the bytes of argument `i` and a NUL. */
  ghost predicate ArgAt(mem: Region, o: nat, argc: nat, args: seq<CString>, i: nat)
    requires i < argc == |args| && o + 4 * (argc + 2) <= REGION
  {
    var p := Argv(mem, o, i);
    REGION_BASE + o + 4 * (argc + 2) <= p < REGION_BASE + REGION && StringAt(mem, p - REGION_BASE) == args[i]
  }

  /** The strings lie one below the other: later arguments end before earlier ones start. */
  ghost predicate Apart(mem: Region, esp: nat, args: seq<CString>)
    requires REGION_BASE <= esp && esp + 4 * (|args| + 2) <= REGION_BASE + REGION
  {
    var o := esp - REGION_BASE;
    forall i: nat, j: nat | i < j < |args| :: Argv(mem, o, j) + |args[j]| + 1 <= Argv(mem, o, i)
  }

  // ---- Building it ----

  datatype Outcome = TooMany | Overflow | Ready(esp: u32)

  /** Bytes the strings take, terminators included. */
  function Bytes(args: seq<CString>): nat {
    if args == [] then 0 else Bytes(args[..|args| - 1]) + |args[|args| - 1]| + 1
  }

  lemma {:induction false} BytesPrefix(args: seq<CString>, n: nat)
    requires n < |args|
    ensures Bytes(args[..n + 1]) == Bytes(args[..n]) + |args[n]| + 1
    ensures Bytes(args[..n + 1]) <= Bytes(args)
    decreases |args|
  {
    assert args[..n + 1][..n] == args[..n];
    if n + 1 < |args| {
      BytesPrefix(args[..|args| - 1], n);
      assert args[..|args| - 1][..n + 1] == args[..n + 1] && args[..|args| - 1][..n] == args[..n];
    } else {
      assert args[..n + 1] == args;
    }
  }

  lemma CellRoundTrip(mem: Region, o: nat, w: u32)
    requires o + 4 <= REGION && mem[o..o + 4] == Le32(w)
    ensures Cell(mem, o) == w
  {
    FourBytes(w);
    assert mem[o] == mem[o..o + 4][0] && mem[o + 1] == mem[o..o + 4][1];
    assert mem[o + 2] == mem[o..o + 4][2] && mem[o + 3] == mem[o..o + 4][3];
  }

  /** A NUL-terminated copy reads back. */
  lemma {:induction false} StringRoundTrip(mem: Region, o: nat, s: CString)
    requires o + |s| + 1 <= REGION && mem[o..o + |s|] == s && mem[o + |s|] == 0
    ensures StringAt(mem, o) == s
    decreases |s|
  {
    if s != [] {
      assert mem[o] == mem[o..o + |s|][0] == s[0];
      assert mem[o + 1..o + 1 + |s[1..]|] == mem[o..o + |s|][1..] == s[1..];
      StringRoundTrip(mem, o + 1, s[1..]);
      assert s == [s[0]] + s[1..];
    }
  }

  method CopyBytes(page: array<byte>, o: nat, bs: seq<byte>)
    requires page.Length == REGION && o + |bs| <= REGION
    modifies page
    ensures forall i | 0 <= i < REGION :: page[i] == if o <= i < o + |bs| then bs[i - o] else old(page[i])
  {
    for k := 0 to |bs|
      invariant forall i | 0 <= i < REGION :: page[i] == if o <= i < o + k then bs[i - o] else old(page[i])
    {
      page[o + k] := bs[k];
    }
  }

  /** Argument `i` lies NUL-terminated at `o`. */
  ghost predicate Placed(mem: Region, o: nat, s: CString) {
    o + |s| + 1 <= REGION && mem[o..o + |s|] == s && mem[o + |s|] == 0
  }

  lemma PlacedKept(mem: Region, after: Region, o: nat, s: CString, lo: nat)
    requires Placed(mem, o, s) && lo <= o && forall i | lo <= i < REGION :: after[i] == mem[i]
    ensures Placed(after, o, s)
  {
    assert after[o..o + |s|] == mem[o..o + |s|];
  }

  /** Copy one string and its NUL to just below `sp`. */
  method PushString(page: array<byte>, sp: nat, s: CString) returns (o: nat)
    requires page.Length == REGION && |s| + 1 <= sp <= REGION
    modifies page
    ensures o == sp - |s| - 1 && Placed(page[..], o, s)
    ensures forall i | 0 <= i < REGION && !(o <= i < sp) :: page[i] == old(page[i])
  {
    o := sp - |s| - 1;
    CopyBytes(page, o, s + [0]);
    assert page[..][o..o + |s|] == s;
  }

  /** What the copy loop stops with; Ready(0) stands for a completed copy. */
  function CopyOutcome(args: seq<CString>): Outcome {
    if |args| <= MAX_ARGS then if Bytes(args) <= PAGE_SIZE then Ready(0) else Overflow
    else if Bytes(args[..MAX_ARGS]) <= PAGE_SIZE then TooMany else Overflow
  }

  lemma OverflowAt(args: seq<CString>, n: nat)
    requires n < |args| && n < MAX_ARGS && Bytes(args[..n]) + |args[n]| + 1 > PAGE_SIZE
    ensures CopyOutcome(args) == Overflow
  {
    BytesPrefix(args, n);
    if |args| > MAX_ARGS {
      BytesPrefix(args[..MAX_ARGS], n);
      assert args[..MAX_ARGS][..n + 1] == args[..n + 1] && args[..MAX_ARGS][..n] == args[..n];
    }
  }

  /** The strings copied so far, each below the one before. */
  ghost predicate Stacked(mem: Region, args: seq<CString>, ptrs: seq<nat>, sp: nat) {
    && |ptrs| <= |args|
    && (forall i | 0 <= i < |ptrs| :: sp <= ptrs[i] && Placed(mem, ptrs[i], args[i]))
    && (forall i, j | 0 <= i < j < |ptrs| :: ptrs[j] + |args[j]| + 1 <= ptrs[i])
  }

  lemma StackedPush(mem: Region, after: Region, args: seq<CString>, ptrs: seq<nat>, sp: nat, o: nat)
    requires Stacked(mem, args, ptrs, sp) && |ptrs| < |args| && o == sp - |args[|ptrs|]| - 1
    requires Placed(after, o, args[|ptrs|]) && forall i | sp <= i < REGION :: after[i] == mem[i]
    ensures Stacked(after, args, ptrs + [o], o)
  {
    forall i | 0 <= i < |ptrs| ensures Placed(after, ptrs[i], args[i]) {
      PlacedKept(mem, after, ptrs[i], args[i], sp);
    }
  }

  /** The string copies, walking down from the top of the page. */
  method CopyStrings(page: array<byte>, args: seq<CString>) returns (sp: nat, ptrs: seq<nat>, stop: Outcome)
    requires page.Length == REGION
    modifies page
    ensures stop == CopyOutcome(args)
    ensures forall i | 0 <= i < REGION - PAGE_SIZE :: page[i] == old(page[i])
    ensures stop.Ready? ==>
      |ptrs| == |args| <= MAX_ARGS && sp == REGION - Bytes(args) && Stacked(page[..], args, ptrs, sp)
  {
    hide Bytes, Placed;
    sp, ptrs := REGION, [];
    NoBytes(args);
    while |ptrs| < |args|
      invariant |ptrs| <= MAX_ARGS && |ptrs| <= |args| && sp == REGION - Bytes(args[..|ptrs|])
      invariant Stacked(page[..], args, ptrs, sp)
      invariant REGION - PAGE_SIZE <= sp && forall i | 0 <= i < REGION - PAGE_SIZE :: page[i] == old(page[i])
      decreases |args| - |ptrs|
    {
      var argc := |ptrs|;
      if argc >= MAX_ARGS { return sp, ptrs, TooMany; }
      var len := |args[argc]| + 1;
      if sp - len < REGION - PAGE_SIZE {
        OverflowAt(args, argc);
        return sp, ptrs, Overflow;
      }
      ghost var before := page[..];
      BytesPrefix(args, argc);
      var o := PushString(page, sp, args[argc]);
      StackedPush(before, page[..], args, ptrs, sp, o);
      sp, ptrs := o, ptrs + [o];
    }
    assert args[..|ptrs|] == args;
    stop := Ready(0);
  }

  lemma NoBytes(args: seq<CString>)
    ensures Bytes(args[..0]) == 0
  {
  }

  /** Where the frame starts: argc, the pointers and NULL below the strings. */
  function FrameAt(args: seq<CString>): int { STACK_BASE + PAGE_SIZE - Bytes(args) - 4 * (|args| + 2) }

  /** The strings fit into the stack page, the cells below them do not. */
  predicate Spills(args: seq<CString>) {
    |args| <= MAX_ARGS && Bytes(args) <= PAGE_SIZE < Bytes(args) + 4 * (|args| + 2)
  }

  /** The frame of k_exec: built exactly when at most 15 strings fit into the stack page, and then
      crt0 decodes exactly the given arguments. The page below the stack is left alone if and only
      if the cells fit too; otherwise argc is stored there. */
  method BuildFrame(page: array<byte>, args: seq<CString>) returns (r: Outcome)
    requires page.Length == REGION
    modifies page
    ensures r.Ready? <==> |args| <= MAX_ARGS && Bytes(args) <= PAGE_SIZE
    ensures r.Ready? ==> r.esp == FrameAt(args) && Decodes(page[..], r.esp, args) && Apart(page[..], r.esp, args)
    ensures r.Ready? ==> (r.esp < STACK_BASE <==> Spills(args))
    ensures !(r.Ready? && Spills(args)) ==> forall i | 0 <= i < REGION - PAGE_SIZE :: page[i] == old(page[i])
    ensures r.Ready? && Spills(args) ==> forall i | 0 <= i < r.esp - REGION_BASE :: page[i] == old(page[i])
  {
    hide Bytes, Decodes, Placed, Cell, StringAt, Apart;
    var sp, ptrs, stop := CopyStrings(page, args);
    if !stop.Ready? { return stop; }
    ghost var before := page[..];
    assert forall k | 0 <= k < |ptrs| :: ptrs[k] < REGION by { PlacedInside(before, args, ptrs, sp); }
    var f := PushCells(page, sp, ptrs);
    FrameDecodes(before, page[..], args, ptrs, sp, f);
    return Ready(REGION_BASE + f);
  }

  /** One argument of 4090 bytes spills. */
  lemma LongArgumentSpills()
    ensures Spills([seq(4090, _ => 'a' as int)])
  {
    var s: CString := seq(4090, _ => 'a' as int);
    assert [s][..0] == [];
    assert Bytes([s]) == 4091;
  }

  lemma PlacedInside(mem: Region, args: seq<CString>, ptrs: seq<nat>, sp: nat)
    requires Stacked(mem, args, ptrs, sp)
    ensures forall k | 0 <= k < |ptrs| :: ptrs[k] < REGION
  {
  }

  lemma FrameDecodes(mem: Region, after: Region, args: seq<CString>, ptrs: seq<nat>, sp: nat, f: nat)
    requires Stacked(mem, args, ptrs, sp) && |ptrs| == |args| <= MAX_ARGS && f + 4 * (|args| + 2) == sp <= REGION
    requires forall i | sp <= i < REGION :: after[i] == mem[i]
    requires forall k | 0 <= k < |ptrs| :: ptrs[k] < REGION
    requires forall i: nat | i <= |ptrs| + 1 :: CellIs(after, f, i, CellValue(ptrs, i))
    ensures Decodes(after, REGION_BASE + f, args) && Apart(after, REGION_BASE + f, args)
  {
    hide Cell, StringAt;
    assert CellIs(after, f, 0, CellValue(ptrs, 0)) && CellIs(after, f, |ptrs| + 1, CellValue(ptrs, |ptrs| + 1));
    forall i | 0 <= i < |args| ensures ArgAt(after, f, |args|, args, i) {
      assert CellIs(after, f, i + 1, CellValue(ptrs, i + 1));
      PlacedKept(mem, after, ptrs[i], args[i], sp);
      StringRoundTrip(after, ptrs[i], args[i]);
    }
    forall i: nat, j: nat | i < j < |args| ensures Argv(after, f, j) + |args[j]| + 1 <= Argv(after, f, i) {
      assert CellIs(after, f, i + 1, CellValue(ptrs, i + 1)) && CellIs(after, f, j + 1, CellValue(ptrs, j + 1));
    }
  }

  /** Cells 0..n of the frame at `o`: argc, the pointers, NULL. */
  function CellValue(ptrs: seq<nat>, i: nat): (w: u32)
    requires i <= |ptrs| + 1 && |ptrs| <= MAX_ARGS && forall k | 0 <= k < |ptrs| :: ptrs[k] < REGION
  {
    if i == 0 then |ptrs| else if i <= |ptrs| then REGION_BASE + ptrs[i - 1] else 0
  }

  /** NULL, then the pointers from last to first, then argc, each pushed below the previous cell. */
  method PushCells(page: array<byte>, sp: nat, ptrs: seq<nat>) returns (f: nat)
    requires page.Length == REGION && |ptrs| <= MAX_ARGS && 4 * (|ptrs| + 2) <= sp <= REGION
    requires forall k | 0 <= k < |ptrs| :: ptrs[k] < REGION
    modifies page
    ensures f == sp - 4 * (|ptrs| + 2)
    ensures forall i | 0 <= i < REGION && !(f <= i < sp) :: page[i] == old(page[i])
    ensures forall i: nat | i <= |ptrs| + 1 :: CellIs(page[..], f, i, CellValue(ptrs, i))
  {
    var n := |ptrs| + 2;
    f := sp - 4 * n;
    var i := n;
    while i > 0
      invariant 0 <= i <= n
      invariant forall k | 0 <= k < REGION && !(f <= k < sp) :: page[k] == old(page[k])
      invariant forall j: nat | i <= j < n :: CellIs(page[..], f, j, CellValue(ptrs, j))
    {
      ghost var before := page[..];
      i := i - 1;
      CopyBytes(page, f + 4 * i, Le32(CellValue(ptrs, i)));
      forall j: nat | i <= j < n ensures CellIs(page[..], f, j, CellValue(ptrs, j)) {
        if j == i {
          assert page[..][f + 4 * i..f + 4 * i + 4] == Le32(CellValue(ptrs, i));
          CellRoundTrip(page[..], f + 4 * i, CellValue(ptrs, i));
        } else {
          CellKept(before, page[..], f, i, j, CellValue(ptrs, j));
        }
      }
    }
  }

  ghost predicate CellIs(mem: Region, f: nat, i: nat, w: u32) {
    f + 4 * i + 4 <= REGION && Cell(mem, f + 4 * i) == w
  }

  lemma CellKept(mem: Region, after: Region, f: nat, i: nat, j: nat, w: u32)
    requires CellIs(mem, f, j, w) && i < j
    requires forall k | 0 <= k < REGION && !(f + 4 * i <= k < f + 4 * i + 4) :: after[k] == mem[k]
    ensures CellIs(after, f, j, w)
  {
  }
}
