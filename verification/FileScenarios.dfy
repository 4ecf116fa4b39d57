/** Two runs from the initial file system in which a promise about contents fails; the exact
    conditions are `Files.ReadContents` and `Files.WriteContents`. */
module FileScenarios {
  import opened Words
  import opened Vfs
  import opened VfsRuns
  import opened Files

  /** The root with one file "f", and what descriptors 3 and 4 hold. */
  function OneFile(size: nat, content: seq<byte>, three: Fd, four: Fd): Fs {
    var root := Vnode("/", VFS_DIRECTORY, None, [1], 0, None, false);
    Fs([root, Vnode("f", VFS_FILE, Some(0), [], size, Some(content), true)],
       0, Table(three, four))
  }

  function Table(three: Fd, four: Fd): (r: seq<Fd>)
    ensures |r| == MAX_FDS && r[3] == three && r[4] == four
    ensures forall i | 0 <= i < MAX_FDS && i != 3 && i != 4 :: r[i] == FreeFd
  {
    seq(MAX_FDS, i requires 0 <= i < MAX_FDS => if i == 3 then three else if i == 4 then four else FreeFd)
  }

  function On(off: nat): Fd { Fd(true, Some(1), off) }

  lemma FindsFile(size: nat, content: seq<byte>, a: Fd, b: Fd)
    ensures var fs := OneFile(size, content, a, b); Lookup(fs, "f") == Some(1)
  {
    var fs := OneFile(size, content, a, b);
    assert "f" != "/" && "f" != "." && "f"[0] == 'f' && |"f"| == 1;
    assert fs.pool[0].children == [1] && fs.pool[1].name == "f";
    assert FindChild(fs.pool, [1], "f") == Some(1);
  }

  lemma TouchStep()
    ensures Touch(Init(), "f", true).fs == OneFile(0, Zeros(BUFFER), FreeFd, FreeFd)
  {
    assert |"f"| == 1 && "f"[0] == 'f';
    assert Lookup(Init(), "f") == FindChild(Init().pool, [], "f");
    assert Init().fds == Table(FreeFd, FreeFd);
    assert [] + [1] == [1];
  }

  lemma OpenThree(size: nat, content: seq<byte>)
    ensures Open(OneFile(size, content, FreeFd, FreeFd), "f", 0, true) ==
      Opened(OneFile(size, content, On(0), FreeFd), 3)
  {
    FindsFile(size, content, FreeFd, FreeFd);
    assert Table(FreeFd, FreeFd)[3 := On(0)] == Table(On(0), FreeFd);
  }

  lemma OpenFour(size: nat, content: seq<byte>, off: nat, flags: nat)
    requires |content| == BUFFER
    ensures Open(OneFile(size, content, On(off), FreeFd), "f", flags, true) ==
      Opened(if Bit(flags, O_TRUNC) then OneFile(0, content[0 := 0], On(off), On(0))
        else OneFile(size, content, On(off), On(0)), 4)
  {
    FindsFile(size, content, On(off), FreeFd);
    assert LowestFd(Table(On(off), FreeFd), 3) == 4;
    assert Table(On(off), FreeFd)[4 := On(0)] == Table(On(off), On(0));
    var fs := OneFile(size, content, On(off), FreeFd);
    assert fs.pool[1 := Truncate(fs.pool[1])] == OneFile(0, content[0 := 0], On(off), FreeFd).pool;
  }

  /** The buffer after [1, 2] was written to an empty file. */
  function Written(): (r: seq<byte>)
    ensures |r| == BUFFER && r[0] == 1 && r[1] == 2 && forall i | 2 <= i < BUFFER :: r[i] == 0
  {
    [1, 2] + Zeros(BUFFER - 2)
  }

  lemma WriteTwo()
    ensures Write(OneFile(0, Zeros(BUFFER), On(0), FreeFd), 3, [1, 2], true) ==
      Io(OneFile(2, Written(), On(2), FreeFd), 2, [])
  {
    var fs := OneFile(0, Zeros(BUFFER), On(0), FreeFd);
    assert FileOf(fs, 3) == Some(1);
    assert Writable(fs.pool[1], true).content.value == Zeros(BUFFER);
    var buf := Zeros(BUFFER)[..0] + [1, 2][..2] + [0] + Zeros(BUFFER)[3..];
    assert buf == Written();
    assert fs.fds[3 := On(2)] == Table(On(2), FreeFd);
    assert fs.pool[1 := Vnode("f", VFS_FILE, Some(0), [], 2, Some(Written()), true)] ==
      OneFile(2, Written(), On(2), FreeFd).pool;
  }

  /** Touch, open, write [1, 2] and open again. */
  function Prefix(flags: nat): seq<Op> {
    [OpTouch("f", true)] + ([OpOpen("f", 0, true)] + ([OpWrite(3, [1, 2], true)] + ([OpOpen("f", flags, true)] + [])))
  }

  function After(flags: nat): Fs {
    if Bit(flags, O_TRUNC) then OneFile(0, Written()[0 := 0], On(2), On(0)) else OneFile(2, Written(), On(2), On(0))
  }

  lemma AfterPrefix(flags: nat)
    ensures Tree(Init()) && Run(Init(), Prefix(flags)) == After(flags)
  {
    hide NodeOk, ChildrenOk, Step, OneFile, After, Touch, Open, Write, Init;
    InitTree();
    var a := OneFile(0, Zeros(BUFFER), FreeFd, FreeFd);
    var b := OneFile(0, Zeros(BUFFER), On(0), FreeFd);
    var c := OneFile(2, Written(), On(2), FreeFd);
    var last := OpOpen("f", flags, true);
    FirstStep();
    RunFirst(Init(), OpTouch("f", true), [OpOpen("f", 0, true)] + ([OpWrite(3, [1, 2], true)] + ([last] + [])));
    SecondStep(a);
    RunFirst(a, OpOpen("f", 0, true), [OpWrite(3, [1, 2], true)] + ([last] + []));
    ThirdStep(b);
    RunFirst(b, OpWrite(3, [1, 2], true), [last] + []);
    FourthStep(c, flags);
    RunFirst(c, last, []);
  }

  lemma FirstStep()
    requires Tree(Init())
    ensures Step(Init(), OpTouch("f", true)) == OneFile(0, Zeros(BUFFER), FreeFd, FreeFd)
  {
    hide NodeOk, ChildrenOk, Touch, OneFile;
    TouchStep();
  }

  lemma SecondStep(a: Fs)
    requires Tree(a) && a == OneFile(0, Zeros(BUFFER), FreeFd, FreeFd)
    ensures Step(a, OpOpen("f", 0, true)) == OneFile(0, Zeros(BUFFER), On(0), FreeFd)
  {
    hide NodeOk, ChildrenOk, Open, OneFile;
    OpenThree(0, Zeros(BUFFER));
  }

  lemma ThirdStep(b: Fs)
    requires Tree(b) && b == OneFile(0, Zeros(BUFFER), On(0), FreeFd)
    ensures Step(b, OpWrite(3, [1, 2], true)) == OneFile(2, Written(), On(2), FreeFd)
  {
    hide NodeOk, ChildrenOk, Write, OneFile;
    WriteTwo();
  }

  lemma FourthStep(c: Fs, flags: nat)
    requires Tree(c) && c == OneFile(2, Written(), On(2), FreeFd)
    ensures Step(c, OpOpen("f", flags, true)) == After(flags)
  {
    hide NodeOk, ChildrenOk, Open, OneFile;
    OpenFour(2, Written(), 2, flags);
  }

  /** After one byte has been read through the second descriptor, a read of 0xFFFFFFFF bytes passes
      the length test and copies them all. */
  lemma ReadWraps()
    ensures Tree(Init()) && Run(Init(), Prefix(0)) == After(0)
    ensures var fs := Read(After(0), 4, 1).fs;
      Read(fs, 4, 0xFFFF_FFFF).Overrun? && Read(fs, 4, 0xFFFF_FFFF).ret == 0xFFFF_FFFF
  {
    AfterPrefix(0);
    OneByteIn();
  }

  lemma OneByteIn()
    ensures var fs := Read(After(0), 4, 1).fs;
      Read(fs, 4, 0xFFFF_FFFF).Overrun? && Read(fs, 4, 0xFFFF_FFFF).ret == 0xFFFF_FFFF
  {
    var fs := After(0);
    assert FileOf(fs, 4) == Some(1);
    assert Read(fs, 4, 1).fs.fds == Table(On(2), On(1));
  }

  /** A truncation leaves the rest of the old bytes in the buffer; with no page for a new one, a write
      beyond the end shows them: the file is [0, 2, 9], not [0, 0, 9]. */
  lemma ResidueShows()
    ensures Tree(Init()) && Run(Init(), Prefix(O_TRUNC)) == After(O_TRUNC)
    ensures var fs := After(O_TRUNC);
      && BufferOk(fs.pool[1]) && fs.pool[1].touched && Contents(fs.pool[1]) == [] && fs.fds[3].offset == 2
      && var w := Write(fs, 3, [9], false);
         && w.Io? && w.ret == 1 && BufferOk(w.fs.pool[1]) && w.fs.pool[1].touched
         && Contents(w.fs.pool[1]) == [0, 2, 9]
  {
    AfterPrefix(O_TRUNC);
    NineOver();
  }

  lemma NineOver()
    ensures var fs := After(O_TRUNC);
      && BufferOk(fs.pool[1]) && fs.pool[1].touched && Contents(fs.pool[1]) == [] && fs.fds[3].offset == 2
      && var w := Write(fs, 3, [9], false);
         && w.Io? && w.ret == 1 && BufferOk(w.fs.pool[1]) && w.fs.pool[1].touched
         && Contents(w.fs.pool[1]) == [0, 2, 9]
  {
    assert Bit(O_TRUNC, O_TRUNC);
    var fs := After(O_TRUNC);
    assert FileOf(fs, 3) == Some(1);
    var c := Written()[0 := 0];
    assert (c[..2] + [9][..1] + [0] + c[4..])[..3] == [0, 2, 9];
  }
}
