/** Contents of files made by k_touch under every sequence of calls (kernel/syscall.c:54-70, 118-196, 216-261). */
module Files {
  import opened Words
  import opened Vfs
  import opened VfsRuns

  /** Either no buffer and size 0, or a 64-byte buffer and a size of at most 63. */
  predicate BufferOk(n: Vnode) {
    n.touched ==>
      if n.content.None? then n.size == 0 else |n.content.value| == BUFFER && n.size <= 63
  }

  /** Sizes and offsets of touched files stay at most 63. */
  ghost predicate FilesOk(fs: Fs) {
    && (forall i | 0 <= i < |fs.pool| :: BufferOk(fs.pool[i]))
    && (forall d | 0 <= d < |fs.fds| && fs.fds[d].used && fs.fds[d].node.Some? && fs.fds[d].node.value < |fs.pool| ::
          fs.pool[fs.fds[d].node.value].touched ==> fs.fds[d].offset <= 63)
  }

  /** The bytes of a file. */
  function Contents(n: Vnode): seq<byte>
    requires BufferOk(n) && n.touched
  {
    if n.content.None? then [] else n.content.value[..n.size]
  }

  lemma TouchFiles(fs: Fs, path: Name, alloc: bool)
    requires Tree(fs) && FilesOk(fs)
    ensures FilesOk(Touch(fs, path, alloc).fs)
  {
    hide NodeOk, ChildrenOk, Lookup;
  }

  lemma OpenFiles(fs: Fs, path: Name, flags: nat, alloc: bool)
    requires Tree(fs) && FilesOk(fs)
    ensures FilesOk(Open(fs, path, flags, alloc).fs)
  {
    hide NodeOk, ChildrenOk, Lookup, Bit, Touch;
    TouchFiles(fs, path, alloc);
  }

  lemma WriteFiles(fs: Fs, fd: int, bytes: seq<byte>, alloc: bool)
    requires Tree(fs) && FilesOk(fs)
    ensures FilesOk(Write(fs, fd, bytes, alloc).fs)
  {
    hide NodeOk, ChildrenOk;
    var f := FileOf(fs, fd);
    if f.Some? {
      assert BufferOk(fs.pool[f.value]);
      assert BufferOk(Writable(fs.pool[f.value], alloc));
      assert Writable(fs.pool[f.value], alloc).touched == fs.pool[f.value].touched;
    }
  }

  lemma StepFiles(fs: Fs, op: Op)
    requires Tree(fs) && FilesOk(fs)
    ensures FilesOk(Step(fs, op))
  {
    hide NodeOk, ChildrenOk, Lookup, Open, Write;
    match op
    case OpMkdir(path) =>
    case OpTouch(path, alloc) =>
    case OpInstall(name, bytes) =>
    case OpUnlink(path) =>
    case OpChdir(path) =>
    case OpOpen(path, flags, alloc) => OpenFiles(fs, path, flags, alloc);
    case OpClose(fd) =>
    case OpRead(fd, count) =>
    case OpWrite(fd, bytes, alloc) => WriteFiles(fs, fd, bytes, alloc);
  }

  /** Main result: in every run, sizes and offsets of touched files stay at most 63. */
  lemma {:induction false} RunFiles(fs: Fs, ops: seq<Op>)
    requires Tree(fs) && FilesOk(fs)
    ensures FilesOk(Run(fs, ops))
    decreases |ops|
  {
    hide Step, NodeOk, ChildrenOk, FilesOk;
    if ops != [] {
      StepTree(fs, ops[0]);
      StepFiles(fs, ops[0]);
      RunFiles(Step(fs, ops[0]), ops[1..]);
    }
  }

  /** The first `k` bytes of `c`, filled up with zeros. */
  function Pad(c: seq<byte>, k: nat): seq<byte> {
    if k <= |c| then c[..k] else c + Zeros(k - |c|)
  }

  /** No byte between the end of the file and the offset is left over from earlier contents. */
  predicate NoResidue(n: Vnode, off: nat) {
    n.content.Some? ==> forall k | n.size <= k < off && k < |n.content.value| :: n.content.value[k] == 0
  }

  /** Main result for write: the file becomes the old prefix, zero-padded to the offset, followed by
      the first min(count, 63 - offset) bytes; when no page was left for a fresh buffer this holds
      if and only if no residue lies between the end of the file and the offset. */
  lemma WriteContents(fs: Fs, fd: int, data: seq<byte>, alloc: bool)
    requires Tree(fs) && FilesOk(fs) && data != [] && FileOf(fs, fd).Some? && fs.pool[FileOf(fs, fd).value].touched
    requires alloc || fs.pool[FileOf(fs, fd).value].content.Some?
    ensures var i := FileOf(fs, fd).value; var n, off := fs.pool[i], fs.fds[fd].offset;
      var w := Write(fs, fd, data, alloc);
      var k := Min(|data|, 63 - off);
      && BufferOk(n) && BufferOk(w.fs.pool[i]) && w.fs.pool[i].touched
      && 0 <= k && w.ret == k && w.fs.fds[fd].offset == off + k
      && (Contents(w.fs.pool[i]) == Pad(Contents(n), off) + data[..k] <==> alloc || NoResidue(n, off))
      && (forall j | 0 <= j < |fs.pool| && j != i :: w.fs.pool[j] == fs.pool[j])
  {
    hide NodeOk, ChildrenOk;
    var i := FileOf(fs, fd).value;
    var n, off := fs.pool[i], fs.fds[fd].offset;
    WriteFiles(fs, fd, data, alloc);
    assert BufferOk(n) && off <= 63;
    var buf := Writable(n, alloc).content.value;
    var k := Min(|data|, 63 - off);
    var after := Write(fs, fd, data, alloc).fs.pool[i];
    assert Contents(after) == buf[..off] + data[..k];
    PrefixIsPad(n, off, alloc);
    var pad := Pad(Contents(n), off);
    assert |pad| == off;
    assert (buf[..off] + data[..k])[..off] == buf[..off] && (pad + data[..k])[..off] == pad;
  }

  lemma PrefixIsPad(n: Vnode, off: nat, alloc: bool)
    requires BufferOk(n) && n.touched && off <= 63 && (alloc || n.content.Some?)
    ensures var b := Writable(n, alloc).content; b.Some? && |b.value| == BUFFER
    ensures Writable(n, alloc).content.value[..off] == Pad(Contents(n), off) <==> alloc || NoResidue(n, off)
  {
    var b := Writable(n, alloc).content.value;
    var pad := Pad(Contents(n), off);
    if alloc || NoResidue(n, off) {
      assert forall k | 0 <= k < off :: b[..off][k] == pad[k];
    } else {
      var k :| n.size <= k < off && k < |n.content.value| && n.content.value[k] != 0;
      assert b[..off][k] == b[k] != 0 && pad[k] == 0;
    }
  }

  /** The bytes from `off` on, at most `k` of them. */
  function From(c: seq<byte>, off: nat, k: nat): seq<byte> {
    if off >= |c| then [] else c[off..Min(off + k, |c|)]
  }

  /** The read starts at or after the end of the file, or offset plus count does not wrap. */
  predicate NoWrap(size: nat, off: nat, count: nat) { off >= size || off + count < 0x1_0000_0000 }

  /** A read returns the bytes from the offset on and moves past them if and only if it starts at
      or after the end, or offset plus count stays below 2^32; otherwise nothing clamps the copy. */
  lemma ReadContents(fs: Fs, fd: int, count: u32)
    requires Tree(fs) && FilesOk(fs) && count > 0 && FileOf(fs, fd).Some? && fs.pool[FileOf(fs, fd).value].touched
    ensures var i := FileOf(fs, fd).value; var n, off := fs.pool[i], fs.fds[fd].offset; var r := Read(fs, fd, count);
      && BufferOk(n) && r.fs.pool == fs.pool && FileOf(r.fs, fd) == Some(i)
      && (forall d | 0 <= d < |fs.fds| && d != fd :: r.fs.fds[d] == fs.fds[d])
      && (r.Io? <==> NoWrap(n.size, off, count))
      && (r.Io? ==>
        r.data == From(Contents(n), off, count) && r.ret == |r.data| && r.fs.fds[fd].offset == off + |r.data|)
      && (r.Overrun? ==> r.ret == count > |Contents(n)| - off && r.fs.fds[fd].offset == off + count - 0x1_0000_0000)
  {
    hide NodeOk, ChildrenOk;
    var n, off := fs.pool[FileOf(fs, fd).value], fs.fds[fd].offset;
    assert BufferOk(n) && off <= 63;
    if off < n.size && off + count < 0x1_0000_0000 {
      var k := Min(count, n.size - off);
      SliceOfPrefix(n.content.value, n.size, off, off + k);
    }
  }

  lemma SliceOfPrefix(c: seq<byte>, m: nat, a: nat, b: nat)
    requires a <= b <= m <= |c|
    ensures c[..m][a..b] == c[a..b]
  {
  }

  /** A sequence of reads through one descriptor, stopped by an overrun. */
  function ReadAll(fs: Fs, fd: int, counts: seq<u32>): Io
    decreases |counts|
  {
    if counts == [] then Io(fs, 0, [])
    else
      var r := Read(fs, fd, counts[0]);
      if r.Overrun? then r
      else
        var rest := ReadAll(r.fs, fd, counts[1..]);
        if rest.Overrun? then rest else Io(rest.fs, r.ret + rest.ret, r.data + rest.data)
  }

  function Sum(counts: seq<u32>): nat {
    if counts == [] then 0 else counts[0] + Sum(counts[1..])
  }

  /** No read of the sequence wraps before the end of the file is reached. */
  predicate NoneWraps(size: nat, off: nat, counts: seq<u32>)
    decreases |counts|
  {
    counts == [] || off >= size || (off + counts[0] < 0x1_0000_0000 && NoneWraps(size, off + counts[0], counts[1..]))
  }

  /** Main result for reading back: what comes out is the file from the offset on, as far as the
      counts reach, under every chunking in which no read wraps, and under no other. */
  lemma {:induction false} ReadBack(fs: Fs, fd: int, counts: seq<u32>)
    requires Tree(fs) && FilesOk(fs) && FileOf(fs, fd).Some? && fs.pool[FileOf(fs, fd).value].touched
    requires forall k | 0 <= k < |counts| :: counts[k] > 0
    ensures var n, off := fs.pool[FileOf(fs, fd).value], fs.fds[fd].offset; var r := ReadAll(fs, fd, counts);
      && BufferOk(n)
      && (r.Io? <==> NoneWraps(n.size, off, counts))
      && (r.Io? ==> r.data == From(Contents(n), off, Sum(counts)))
    decreases |counts|
  {
    hide NodeOk, ChildrenOk, Read, BufferOk, Contents, From;
    var i := FileOf(fs, fd).value;
    var n, off := fs.pool[i], fs.fds[fd].offset;
    assert BufferOk(n);
    Onward(Contents(n), off, 0, 0);
    if counts != [] {
      ReadContents(fs, fd, counts[0]);
      StepTree(fs, OpRead(fd, counts[0]));
      StepFiles(fs, OpRead(fd, counts[0]));
      ReadBack(Read(fs, fd, counts[0]).fs, fd, counts[1..]);
      Onward(Contents(n), off, counts[0], Sum(counts[1..]));
      ContentsSize(n);
      FromLength(Contents(n), off, counts[0]);
    }
  }

  lemma FromLength(c: seq<byte>, off: nat, k: nat)
    ensures |From(c, off, k)| == if off >= |c| then 0 else if off + k < |c| then k else |c| - off
  {
  }

  lemma Onward(c: seq<byte>, off: nat, a: nat, b: nat)
    ensures From(c, off, 0) == []
    ensures From(c, off, a) + From(c, off + |From(c, off, a)|, b) == From(c, off, a + b)
  {
  }

  lemma ContentsSize(n: Vnode)
    requires BufferOk(n) && n.touched
    ensures |Contents(n)| == n.size
  {
  }

  // ---- Opening ----

  /** What a descriptor got by opening an existing touched file starts with: offset 0 on that file,
      emptied if truncation was asked for; no other descriptor and no other file changes. */
  lemma OpenExisting(fs: Fs, path: Name, flags: nat, alloc: bool)
    requires Tree(fs) && FilesOk(fs) && Lookup(fs, path).Some? && Open(fs, path, flags, alloc).fd >= 0
    ensures var i := Lookup(fs, path).value; var o := Open(fs, path, flags, alloc);
      && i < |fs.pool| == |o.fs.pool| && o.fd < MAX_FDS && !fs.fds[o.fd].used && o.fs.cwd == fs.cwd
      && o.fs.fds == fs.fds[o.fd := Fd(true, Some(i), 0)]
      && (forall j | 0 <= j < |fs.pool| && j != i :: o.fs.pool[j] == fs.pool[j])
      && (fs.pool[i].flags == VFS_FILE && fs.pool[i].touched ==>
            && BufferOk(fs.pool[i]) && BufferOk(o.fs.pool[i]) && o.fs.pool[i].touched && FileOf(o.fs, o.fd) == Some(i)
            && Contents(o.fs.pool[i]) == if Bit(flags, O_TRUNC) then [] else Contents(fs.pool[i]))
  {
    hide NodeOk, ChildrenOk;
    LookupInPool(fs, path);
    assert path != "";
  }

  /** Main result: a fresh descriptor reads a file back, under exactly the chunkings that do not wrap. */
  lemma OpenReadsBack(fs: Fs, path: Name, flags: nat, alloc: bool, counts: seq<u32>)
    requires Tree(fs) && FilesOk(fs) && Lookup(fs, path).Some? && Lookup(fs, path).value < |fs.pool|
    requires var n := fs.pool[Lookup(fs, path).value]; n.flags == VFS_FILE && n.touched
    requires !Bit(flags, O_TRUNC) && Open(fs, path, flags, alloc).fd >= 0
    requires forall k | 0 <= k < |counts| :: counts[k] > 0
    ensures var n := fs.pool[Lookup(fs, path).value]; var o := Open(fs, path, flags, alloc);
      var r := ReadAll(o.fs, o.fd, counts);
      && BufferOk(n) && (r.Io? <==> NoneWraps(n.size, 0, counts))
      && (r.Io? ==> r.data == Contents(n)[..Min(Sum(counts), n.size)])
  {
    hide NodeOk, ChildrenOk, Open, Lookup, Contents;
    OpenExisting(fs, path, flags, alloc);
    var o := Open(fs, path, flags, alloc);
    OpenTree(fs, path, flags, alloc);
    OpenFiles(fs, path, flags, alloc);
    ReadBack(o.fs, o.fd, counts);
    ContentsSize(o.fs.pool[Lookup(fs, path).value]);
    ContentsSize(fs.pool[Lookup(fs, path).value]);
  }

  /** Main result: what was written from the start of a file is what a fresh descriptor reads,
      under exactly the chunkings that do not wrap. */
  lemma WriteThenRead(fs: Fs, fd: int, data: seq<byte>, path: Name, flags: nat, counts: seq<u32>)
    requires Tree(fs) && FilesOk(fs) && data != [] && FileOf(fs, fd).Some? && fs.pool[FileOf(fs, fd).value].touched
    requires fs.fds[fd].offset == 0 && Lookup(fs, path) == FileOf(fs, fd) && !Bit(flags, O_TRUNC)
    requires var w := Write(fs, fd, data, true).fs;
      w.cwd < |w.pool| && |w.fds| == MAX_FDS && Open(w, path, flags, true).fd >= 0
    requires (forall k | 0 <= k < |counts| :: counts[k] > 0) && Sum(counts) >= 63
    ensures var w := Write(fs, fd, data, true).fs; var o := Open(w, path, flags, true);
      var r := ReadAll(o.fs, o.fd, counts);
      && (r.Io? <==> NoneWraps(Min(|data|, 63), 0, counts))
      && (r.Io? ==> r.data == data[..Min(|data|, 63)])
  {
    hide NodeOk, ChildrenOk, Open, Contents, BufferOk, Lookup, Write, ReadAll, Tree, FilesOk;
    WriteContents(fs, fd, data, true);
    var w := Write(fs, fd, data, true);
    var i := FileOf(fs, fd).value;
    WriteLinks(fs, fd, data, true);
    StepTree(fs, OpWrite(fd, data, true));
    StepFiles(fs, OpWrite(fd, data, true));
    SameLookup(fs, w.fs, path);
    ContentsSize(w.fs.pool[i]);
    OpenReadsBack(w.fs, path, flags, true, counts);
    assert Pad(Contents(fs.pool[i]), 0) + data[..w.ret] == data[..w.ret];
    assert |data[..w.ret]| <= 63;
    assert data[..w.ret][..|data[..w.ret]|] == data[..w.ret];
  }

  lemma WriteLinks(fs: Fs, fd: int, data: seq<byte>, alloc: bool)
    ensures var w := Write(fs, fd, data, alloc).fs;
      && w.cwd == fs.cwd && SameLinks(fs.pool, w.pool)
      && forall i | 0 <= i < |fs.pool| :: w.pool[i].name == fs.pool[i].name && w.pool[i].touched == fs.pool[i].touched
  {
  }

  /** Lookup depends on names and links only. */
  lemma SameLookup(a: Fs, b: Fs, path: string)
    requires a.cwd == b.cwd < |a.pool| == |b.pool| && SameLinks(a.pool, b.pool)
    requires forall i | 0 <= i < |a.pool| :: b.pool[i].name == a.pool[i].name
    ensures Lookup(a, path) == Lookup(b, path)
  {
    SameFind(a.pool, b.pool, a.pool[a.cwd].children, if path != "" && path[0] == '/' then path[1..] else path);
  }

  lemma {:induction false} SameFind(a: seq<Vnode>, b: seq<Vnode>, cs: seq<nat>, name: string)
    requires |a| == |b| && forall i | 0 <= i < |a| :: b[i].name == a[i].name
    ensures FindChild(a, cs, name) == FindChild(b, cs, name)
    decreases |cs|
  {
    if cs != [] { SameFind(a, b, cs[1..], name); }
  }
}
