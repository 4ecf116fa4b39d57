/** Contents over whole runs: the pool and its buffers refine a map from live touched files to byte
    sequences (kernel/fs.c:69-130, kernel/syscall.c:54-70, 118-261). */
module FileRuns {
  import opened Words
  import opened Vfs
  import opened VfsRuns
  import opened VfsNames
  import opened Files

  type Disk = map<nat, seq<byte>>

  predicate LiveFile(fs: Fs, i: nat) { i < |fs.pool| && fs.pool[i].flags == VFS_FILE && fs.pool[i].touched }

  ghost function View(fs: Fs): (d: Disk)
    requires FilesOk(fs)
  {
    map i: nat | i < |fs.pool| && LiveFile(fs, i) :: Contents(fs.pool[i])
  }

  // ---- What each call does to the abstract files; `fs` only resolves paths and descriptors ----

  function Create(d: Disk, fs: Fs, path: string): Disk
    requires fs.cwd < |fs.pool|
  {
    if CanCreate(fs, path) then d[|fs.pool| := []] else d
  }

  function Cut(d: Disk, i: nat): Disk { if i in d then d[i := []] else d }

  function OpenDisk(d: Disk, fs: Fs, path: Name, flags: nat): Disk
    requires fs.cwd < |fs.pool|
  {
    var found := Lookup(fs, path);
    if found.Some? then if Bit(flags, O_TRUNC) then Cut(d, found.value) else d
    else if Bit(flags, O_CREAT) then Create(d, fs, path)
    else d
  }

  function WriteDisk(d: Disk, fs: Fs, fd: int, data: seq<byte>): Disk {
    var f := FileOf(fs, fd);
    if data == [] || f.None? || f.value !in d || fs.fds[fd].offset > 63 then d
    else
      var off := fs.fds[fd].offset;
      d[f.value := Pad(d[f.value], off) + data[..Min(|data|, 63 - off)]]
  }

  function StepDisk(d: Disk, fs: Fs, op: Op): Disk
    requires fs.cwd < |fs.pool| && |fs.fds| == MAX_FDS
  {
    match op
    case OpTouch(path, _) => Create(d, fs, path)
    case OpOpen(path, flags, _) => OpenDisk(d, fs, path, flags)
    case OpWrite(fd, bytes, _) => WriteDisk(d, fs, fd, bytes)
    case OpUnlink(path) => if Unlink(fs, path).ok then d - {Lookup(fs, path).value} else d
    case _ => d
  }

  /** The call is no write, or it gets a fresh buffer, or the old one can be used as it is. */
  predicate Clean(fs: Fs, op: Op) {
    op.OpWrite? && op.bytes != [] && FileOf(fs, op.fd).Some? && fs.pool[FileOf(fs, op.fd).value].touched ==>
      var n := fs.pool[FileOf(fs, op.fd).value];
      op.alloc || (n.content.Some? && NoResidue(n, fs.fds[op.fd].offset))
  }

  // ---- One call ----

  /** Files outside `i` keep their contents and their life. */
  ghost predicate SameBut(fs: Fs, r: Fs, i: nat) {
    && |r.pool| >= |fs.pool|
    && (forall j | 0 <= j < |fs.pool| && j != i ::
      LiveFile(r, j) == LiveFile(fs, j) && r.pool[j].size == fs.pool[j].size && r.pool[j].content == fs.pool[j].content)
    && (forall j | |fs.pool| <= j < |r.pool| && j != i :: !LiveFile(r, j))
  }

  lemma ViewUpdate(fs: Fs, r: Fs, i: nat)
    requires FilesOk(fs) && FilesOk(r) && SameBut(fs, r, i)
    ensures LiveFile(r, i) ==> BufferOk(r.pool[i]) && View(r) == View(fs)[i := Contents(r.pool[i])]
    ensures !LiveFile(r, i) ==> View(r) == View(fs) - {i}
  {
    assert LiveFile(r, i) ==> BufferOk(r.pool[i]);
    forall j: nat | j < |fs.pool| && j != i && LiveFile(fs, j) ensures j in View(r) && View(r)[j] == View(fs)[j] {
      assert LiveFile(r, j) && BufferOk(fs.pool[j]) && BufferOk(r.pool[j]);
    }
    forall j: nat | j in View(r) && j != i ensures j in View(fs) && View(r)[j] == View(fs)[j] {
      assert j < |fs.pool| && BufferOk(fs.pool[j]) && BufferOk(r.pool[j]);
    }
  }

  lemma ViewSame(fs: Fs, r: Fs)
    requires FilesOk(fs) && FilesOk(r) && SameBut(fs, r, |r.pool|)
    ensures View(r) == View(fs)
  {
    hide FilesOk;
    ViewUpdate(fs, r, |r.pool|);
    assert |r.pool| !in View(fs);
  }

  lemma TouchDisk(fs: Fs, path: Name, alloc: bool)
    requires Tree(fs) && FilesOk(fs)
    ensures FilesOk(Touch(fs, path, alloc).fs) && View(Touch(fs, path, alloc).fs) == Create(View(fs), fs, path)
  {
    hide NodeOk, ChildrenOk, Lookup, View;
    TouchFiles(fs, path, alloc);
    var r := Touch(fs, path, alloc).fs;
    if CanCreate(fs, path) {
      assert SameBut(fs, r, |fs.pool|);
      ViewUpdate(fs, r, |fs.pool|);
      assert Contents(r.pool[|fs.pool|]) == [];
    }
  }

  lemma CutDisk(fs: Fs, i: nat, fds: seq<Fd>)
    requires FilesOk(fs) && i < |fs.pool|
    requires var r := Fs(fs.pool[i := Truncate(fs.pool[i])], fs.cwd, fds); FilesOk(r)
    ensures View(Fs(fs.pool[i := Truncate(fs.pool[i])], fs.cwd, fds)) == Cut(View(fs), i)
  {
    hide View;
    var r := Fs(fs.pool[i := Truncate(fs.pool[i])], fs.cwd, fds);
    ViewUpdate(fs, r, i);
    InView(fs, i);
    if LiveFile(fs, i) { assert Contents(r.pool[i]) == []; }
  }

  lemma InView(fs: Fs, i: nat)
    requires FilesOk(fs)
    ensures i in View(fs) <==> LiveFile(fs, i)
    ensures i in View(fs) ==> BufferOk(fs.pool[i]) && View(fs)[i] == Contents(fs.pool[i])
  {
    assert LiveFile(fs, i) ==> BufferOk(fs.pool[i]);
  }

  lemma OpenFound(fs: Fs, path: Name, flags: nat, alloc: bool)
    requires Tree(fs) && FilesOk(fs) && Lookup(fs, path).Some?
    ensures FilesOk(Open(fs, path, flags, alloc).fs)
    ensures View(Open(fs, path, flags, alloc).fs) == OpenDisk(View(fs), fs, path, flags)
  {
    hide NodeOk, ChildrenOk, View, Bit;
    OpenFiles(fs, path, flags, alloc);
    LookupInPool(fs, path);
    var i := Lookup(fs, path).value;
    var r := Open(fs, path, flags, alloc).fs;
    assert path != "";
    if Bit(flags, O_TRUNC) && fs.pool[i].flags == VFS_FILE {
      CutDisk(fs, i, r.fds);
      assert r == Fs(fs.pool[i := Truncate(fs.pool[i])], fs.cwd, r.fds);
    } else {
      ViewSame(fs, r);
      InView(fs, i);
    }
  }

  lemma CreatedIsNew(fs: Fs, path: Name, alloc: bool)
    requires Tree(fs) && CanCreate(fs, path)
    ensures var made := Touch(fs, path, alloc).fs; Lookup(made, path).None? || Lookup(made, path) == Some(|fs.pool|)
  {
    var made := Touch(fs, path, alloc).fs;
    var cs := fs.pool[fs.cwd].children;
    assert ChildrenOk(fs.pool, fs.cwd);
    assert made.pool[fs.cwd].children == cs + [|fs.pool|];
    FindAppended(fs.pool, made.pool, cs, if path[0] == '/' then path[1..] else path);
  }

  lemma OpenMissing(fs: Fs, path: Name, flags: nat, alloc: bool)
    requires Tree(fs) && FilesOk(fs) && Lookup(fs, path).None?
    ensures FilesOk(Open(fs, path, flags, alloc).fs)
    ensures View(Open(fs, path, flags, alloc).fs) == OpenDisk(View(fs), fs, path, flags)
  {
    hide NodeOk, ChildrenOk, View, Bit, Lookup;
    OpenFiles(fs, path, flags, alloc);
    var o := Open(fs, path, flags, alloc);
    var made := if path != "" && Bit(flags, O_CREAT) then Touch(fs, path, alloc).fs else fs;
    TouchDisk(fs, path, alloc);
    TouchTree(fs, path, alloc);
    assert path == "" ==> !CanCreate(fs, path);
    assert View(made) == OpenDisk(View(fs), fs, path, flags);
    if CanCreate(fs, path) && Bit(flags, O_CREAT) {
      CreatedIsNew(fs, path, alloc);
      if Lookup(made, path).Some? {
        OpenFound(made, path, flags, alloc);
        assert o.fs == Open(made, path, flags, alloc).fs;
        InView(made, |fs.pool|);
      }
    }
  }

  lemma WriteOther(fs: Fs, fd: int, data: seq<byte>, alloc: bool)
    requires Tree(fs) && FilesOk(fs) && (FileOf(fs, fd).None? || data == [] || !fs.pool[FileOf(fs, fd).value].touched)
    ensures FilesOk(Write(fs, fd, data, alloc).fs)
    ensures View(Write(fs, fd, data, alloc).fs) == WriteDisk(View(fs), fs, fd, data) == View(fs)
  {
    hide NodeOk, ChildrenOk, View;
    WriteFiles(fs, fd, data, alloc);
    var r := Write(fs, fd, data, alloc).fs;
    var f := FileOf(fs, fd);
    if f.Some? && data != [] {
      WriteLinks(fs, fd, data, alloc);
      ViewUpdate(fs, r, f.value);
      InView(fs, f.value);
    }
  }

  /** A write to a touched file does what the abstract write does if and only if it is clean. */
  lemma WriteTouched(fs: Fs, fd: int, data: seq<byte>, alloc: bool)
    requires Tree(fs) && FilesOk(fs) && FileOf(fs, fd).Some? && data != [] && fs.pool[FileOf(fs, fd).value].touched
    ensures FilesOk(Write(fs, fd, data, alloc).fs)
    ensures View(Write(fs, fd, data, alloc).fs) == WriteDisk(View(fs), fs, fd, data) <==>
      Clean(fs, OpWrite(fd, data, alloc))
  {
    hide NodeOk, ChildrenOk, View, NoResidue;
    WriteFiles(fs, fd, data, alloc);
    var i := FileOf(fs, fd).value;
    var w := Write(fs, fd, data, alloc);
    var off := fs.fds[fd].offset;
    assert BufferOk(fs.pool[i]) && off <= 63;
    var k := Min(|data|, 63 - off);
    var want := Pad(Contents(fs.pool[i]), off) + data[..k];
    WriteLinks(fs, fd, data, alloc);
    ViewUpdate(fs, w.fs, i);
    InView(fs, i);
    InView(w.fs, i);
    assert WriteDisk(View(fs), fs, fd, data) == View(fs)[i := want];
    assert View(w.fs)[i] == want ==> View(w.fs) == View(fs)[i := want];
    if alloc || fs.pool[i].content.Some? {
      WriteContents(fs, fd, data, alloc);
      assert View(w.fs) == View(fs)[i := want] ==> View(w.fs)[i] == want;
    } else {
      assert |want| > 0 && Contents(w.fs.pool[i]) == [];
      assert View(fs)[i := want][i] == want;
    }
  }

  lemma UnlinkDisk(fs: Fs, path: string)
    requires Tree(fs) && FilesOk(fs)
    ensures FilesOk(Unlink(fs, path).fs) && View(Unlink(fs, path).fs) == StepDisk(View(fs), fs, OpUnlink(path))
  {
    hide NodeOk, ChildrenOk, View, Lookup;
    StepFiles(fs, OpUnlink(path));
    var u := Unlink(fs, path);
    if u.ok { ViewUpdate(fs, u.fs, Lookup(fs, path).value); }
  }

  /** One call changes the abstract files as it should if and only if it is clean. */
  lemma StepRefines(fs: Fs, op: Op)
    requires Tree(fs) && FilesOk(fs)
    ensures FilesOk(Step(fs, op)) && (View(Step(fs, op)) == StepDisk(View(fs), fs, op) <==> Clean(fs, op))
  {
    hide NodeOk, ChildrenOk, Lookup, View, Open, Write, Unlink, Touch, OpenDisk, WriteDisk, Create;
    StepFiles(fs, op);
    match op
    case OpMkdir(path) => ViewSame(fs, Step(fs, op));
    case OpTouch(path, alloc) => TouchDisk(fs, path, alloc);
    case OpInstall(name, bytes) => ViewSame(fs, Step(fs, op));
    case OpUnlink(path) => UnlinkDisk(fs, path);
    case OpChdir(path) => ViewSame(fs, Step(fs, op));
    case OpOpen(path, flags, alloc) =>
      if Lookup(fs, path).Some? { OpenFound(fs, path, flags, alloc); } else { OpenMissing(fs, path, flags, alloc); }
    case OpClose(fd) => ViewSame(fs, Step(fs, op));
    case OpRead(fd, count) => ViewSame(fs, Step(fs, op));
    case OpWrite(fd, bytes, alloc) =>
      if FileOf(fs, fd).None? || bytes == [] || !fs.pool[FileOf(fs, fd).value].touched {
        WriteOther(fs, fd, bytes, alloc);
      }
      else { WriteTouched(fs, fd, bytes, alloc); }
  }

  // ---- Runs ----

  predicate CleanRun(fs: Fs, ops: seq<Op>)
    requires Tree(fs)
    decreases |ops|
  {
    ops == [] || (Clean(fs, ops[0]) && (StepTree(fs, ops[0]); CleanRun(Step(fs, ops[0]), ops[1..])))
  }

  function RunDisk(d: Disk, fs: Fs, ops: seq<Op>): Disk
    requires Tree(fs)
    decreases |ops|
  {
    if ops == [] then d else (StepTree(fs, ops[0]); RunDisk(StepDisk(d, fs, ops[0]), Step(fs, ops[0]), ops[1..]))
  }

  /** Main result: after every clean run the contents are those of the abstract files. */
  lemma {:induction false} RunRefines(fs: Fs, ops: seq<Op>)
    requires Tree(fs) && FilesOk(fs) && CleanRun(fs, ops)
    ensures FilesOk(Run(fs, ops)) && View(Run(fs, ops)) == RunDisk(View(fs), fs, ops)
    decreases |ops|
  {
    hide Step, StepDisk, Clean, View, FilesOk, NodeOk, ChildrenOk;
    if ops != [] {
      StepTree(fs, ops[0]);
      StepRefines(fs, ops[0]);
      RunRefines(Step(fs, ops[0]), ops[1..]);
    }
  }

  /** A run whose writes all get their buffer is clean. */
  lemma {:induction false} AllocatingIsClean(fs: Fs, ops: seq<Op>)
    requires Tree(fs) && forall op | op in ops && op.OpWrite? :: op.alloc
    ensures CleanRun(fs, ops)
    decreases |ops|
  {
    hide Step, NodeOk, ChildrenOk;
    if ops != [] {
      assert ops[0] in ops;
      StepTree(fs, ops[0]);
      AllocatingIsClean(Step(fs, ops[0]), ops[1..]);
    }
  }
}
