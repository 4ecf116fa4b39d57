/** What every run of file-system calls keeps. */
module VfsRuns {
  import opened Words
  import opened Vfs

  // ---- The tree ----

  lemma InitTree()
    ensures Tree(Init())
  {
  }

  /** Updates of names, sizes and contents leave the tree alone. */
  ghost predicate SameLinks(a: seq<Vnode>, b: seq<Vnode>) {
    && |a| == |b|
    && forall i | 0 <= i < |a| ::
      b[i].flags == a[i].flags && b[i].parent == a[i].parent && b[i].children == a[i].children
  }

  lemma SameLinksTree(fs: Fs, pool: seq<Vnode>, fds: seq<Fd>)
    requires Tree(fs) && SameLinks(fs.pool, pool) && |fds| == MAX_FDS
    requires forall d | 0 <= d < MAX_FDS && fds[d].used :: d >= 3 && fds[d].node.Some? && fds[d].node.value < |pool|
    ensures Tree(Fs(pool, fs.cwd, fds))
  {
    forall i | 0 <= i < |pool| ensures NodeOk(pool, i) && ChildrenOk(pool, i) {
      assert NodeOk(fs.pool, i) && ChildrenOk(fs.pool, i);
    }
  }

  lemma AddNodeTree(fs: Fs, dir: nat, n: Vnode)
    requires Tree(fs) && dir < |fs.pool| && fs.pool[dir].flags == VFS_DIRECTORY
    requires |fs.pool[dir].children| < MAX_CHILDREN && |fs.pool| < POOL
    requires (n.flags == VFS_FILE || n.flags == VFS_DIRECTORY) && n.parent == Some(dir) && n.children == []
    ensures Tree(AddNode(fs, dir, n))
  {
    var r := AddNode(fs, dir, n);
    var new_ := |fs.pool|;
    assert forall i | 0 <= i < new_ && i != dir :: r.pool[i] == fs.pool[i];
    assert r.pool[dir] == fs.pool[dir].(children := fs.pool[dir].children + [new_]);
    assert r.pool[dir].children[|fs.pool[dir].children|] == new_;
    forall i | 0 <= i < |r.pool| ensures NodeOk(r.pool, i) && ChildrenOk(r.pool, i) {
      if i < new_ {
        assert NodeOk(fs.pool, i) && ChildrenOk(fs.pool, i);
      }
    }
  }

  lemma {:induction false} WithoutSpec(cs: seq<nat>, c: nat)
    requires forall j, k | 0 <= j < k < |cs| :: cs[j] != cs[k]
    ensures var r := Without(cs, c);
      && |r| <= |cs| && (forall x :: x in r <==> x in cs && x != c)
      && (forall j, k | 0 <= j < k < |r| :: r[j] != r[k])
    decreases |cs|
  {
    if cs != [] {
      WithoutSpec(cs[1..], c);
      var r := Without(cs, c);
      assert forall x :: x in cs <==> x == cs[0] || x in cs[1..];
      assert forall k | 0 <= k < |cs[1..]| :: cs[1..][k] == cs[k + 1];
      assert cs[0] !in cs[1..];
      if cs[0] != c {
        var t := Without(cs[1..], c);
        assert r == [cs[0]] + t;
        assert forall x :: x in r <==> x == cs[0] || x in t;
        assert cs[0] !in t;
      }
    }
  }

  /** Detaching the childless node `i` from its parent `p` keeps every node well-formed. */
  lemma DetachNode(pool: seq<Vnode>, r: seq<Vnode>, i: nat, p: nat, j: nat)
    requires i < |pool| && p < |pool| && i != p && j < |pool| == |r|
    requires forall k | 0 <= k < |pool| :: NodeOk(pool, k) && ChildrenOk(pool, k)
    requires pool[i].flags == VFS_FILE && pool[i].parent == Some(p)
    requires r[i] == pool[i].(flags := 0, parent := None, children := [], size := 0, content := None)
    requires r[p] == pool[p].(children := Without(pool[p].children, i))
    requires forall k | 0 <= k < |pool| && k != i && k != p :: r[k] == pool[k]
    ensures NodeOk(r, j) && ChildrenOk(r, j)
  {
    assert NodeOk(pool, j) && ChildrenOk(pool, j) && NodeOk(pool, i) && ChildrenOk(pool, i);
    assert ChildrenOk(pool, p);
    WithoutSpec(pool[p].children, i);
    var cs := Without(pool[p].children, i);
    assert forall k | 0 <= k < |cs| :: cs[k] in pool[p].children && cs[k] != i;
    if j != p && j != i {
      forall k | 0 <= k < |r[j].children| ensures r[j].children[k] != i {
        assert pool[pool[j].children[k]].parent == Some(j);
      }
    }
  }

  lemma UnlinkTree(fs: Fs, path: string)
    requires Tree(fs)
    ensures Tree(Unlink(fs, path).fs)
  {
    hide ChildrenOk, Lookup, Without;
    var u := Unlink(fs, path);
    if u.ok {
      var i := Lookup(fs, path).value;
      var p := fs.pool[i].parent.value;
      assert NodeOk(fs.pool, i) && p < i;
      forall j | 0 <= j < |u.fs.pool| ensures NodeOk(u.fs.pool, j) && ChildrenOk(u.fs.pool, j) {
        DetachNode(fs.pool, u.fs.pool, i, p, j);
      }
    }
  }

  lemma LookupInPool(fs: Fs, path: string)
    requires Tree(fs)
    ensures Lookup(fs, path).Some? ==> Lookup(fs, path).value < |fs.pool|
  {
    assert NodeOk(fs.pool, fs.cwd) && ChildrenOk(fs.pool, fs.cwd);
  }

  lemma TouchTree(fs: Fs, path: Name, alloc: bool)
    requires Tree(fs)
    ensures Tree(Touch(fs, path, alloc).fs) && Touch(fs, path, alloc).fs.fds == fs.fds
  {
    if CanCreate(fs, path) {
      var content := if alloc then Some(Zeros(BUFFER)) else None;
      AddNodeTree(fs, fs.cwd, Vnode(path, VFS_FILE, Some(fs.cwd), [], 0, content, true));
    }
  }

  lemma OpenTree(fs: Fs, path: Name, flags: nat, alloc: bool)
    requires Tree(fs)
    ensures Tree(Open(fs, path, flags, alloc).fs)
  {
    TouchTree(fs, path, alloc);
    var made := if path != "" && Lookup(fs, path).None? && Bit(flags, O_CREAT) then Touch(fs, path, alloc).fs else fs;
    LookupInPool(made, path);
    if path != "" && Lookup(made, path).Some? {
      var i := Lookup(made, path).value;
      var cut := if Bit(flags, O_TRUNC) && made.pool[i].flags == VFS_FILE
                 then made.(pool := made.pool[i := Truncate(made.pool[i])]) else made;
      SameLinksTree(made, cut.pool, made.fds);
      var d := LowestFd(cut.fds, 3);
      if d < |cut.fds| { SameLinksTree(made, cut.pool, cut.fds[d := Fd(true, Some(i), 0)]); }
    }
  }

  /** Every call keeps the tree. */
  lemma StepTree(fs: Fs, op: Op)
    requires Tree(fs)
    ensures Tree(Step(fs, op))
  {
    hide NodeOk, ChildrenOk, Lookup, Open, Unlink, Touch, Write, Read;
    match op
    case OpMkdir(path) =>
      if CanCreate(fs, path) { AddNodeTree(fs, fs.cwd, Vnode(path, VFS_DIRECTORY, Some(fs.cwd), [], 0, None, false)); }
    case OpTouch(path, alloc) => TouchTree(fs, path, alloc);
    case OpInstall(name, bytes) =>
      RootIsDirectory(fs);
      if Install(fs, name, bytes).ok {
        AddNodeTree(fs, 0, Vnode(name, VFS_FILE, Some(0), [], |bytes|, Some(bytes), false));
      }
    case OpUnlink(path) => UnlinkTree(fs, path);
    case OpChdir(path) =>
    case OpOpen(path, flags, alloc) => OpenTree(fs, path, flags, alloc);
    case OpClose(fd) => SameLinksTree(fs, fs.pool, Close(fs, fd).fs.fds);
    case OpRead(fd, count) => ReadTree(fs, fd, count);
    case OpWrite(fd, bytes, alloc) => WriteTree(fs, fd, bytes, alloc);
  }

  lemma ReadTree(fs: Fs, fd: int, count: u32)
    requires Tree(fs)
    ensures Tree(Read(fs, fd, count).fs)
  {
    hide NodeOk, ChildrenOk;
    SameLinksTree(fs, fs.pool, Read(fs, fd, count).fs.fds);
  }

  lemma WriteTree(fs: Fs, fd: int, bytes: seq<byte>, alloc: bool)
    requires Tree(fs)
    ensures Tree(Write(fs, fd, bytes, alloc).fs)
  {
    hide NodeOk, ChildrenOk;
    var w := Write(fs, fd, bytes, alloc).fs;
    SameLinksTree(fs, w.pool, w.fds);
  }

  lemma RootIsDirectory(fs: Fs)
    requires Tree(fs)
    ensures fs.pool[0].flags == VFS_DIRECTORY
  {
    assert NodeOk(fs.pool, 0);
  }

  function Run(fs: Fs, ops: seq<Op>): Fs
    requires Tree(fs)
    decreases |ops|
  {
    if ops == [] then fs else (StepTree(fs, ops[0]); Run(Step(fs, ops[0]), ops[1..]))
  }

  lemma {:induction false} LinkedReaches(fs: Fs, i: nat)
    requires Tree(fs) && i < |fs.pool| && fs.pool[i].flags != 0
    ensures Reaches(fs.pool, i)
    decreases i
  {
    assert NodeOk(fs.pool, i);
    if i > 0 { LinkedReaches(fs, fs.pool[i].parent.value); }
  }

  /** Main result: after every run from start-up the links agree, and the current directory is a
      directory from which the root is reached through parents. */
  lemma {:induction false} RunTree(fs: Fs, ops: seq<Op>)
    requires Tree(fs)
    ensures var r := Run(fs, ops); Tree(r) && r.pool[r.cwd].flags == VFS_DIRECTORY && Reaches(r.pool, r.cwd)
    decreases |ops|
  {
    hide NodeOk, ChildrenOk, Step;
    if ops == [] {
      CwdReaches(fs);
    } else {
      StepTree(fs, ops[0]);
      RunTree(Step(fs, ops[0]), ops[1..]);
    }
  }

  lemma CwdReaches(fs: Fs)
    requires Tree(fs)
    ensures fs.cwd < |fs.pool| && fs.pool[fs.cwd].flags == VFS_DIRECTORY && Reaches(fs.pool, fs.cwd)
  {
    LinkedReaches(fs, fs.cwd);
  }

  // ---- Descriptors ----

  /** Descriptor `d` is open on vnode `i`. */
  predicate OpenOn(fs: Fs, d: nat, i: nat) {
    d < |fs.fds| && fs.fds[d].used && fs.fds[d].node == Some(i)
  }

  ghost predicate Keeps(fs: Fs, r: Fs, d: nat, i: nat)
    requires i < |fs.pool|
  {
    OpenOn(r, d, i) && (fs.pool[i].flags == 0 ==> i < |r.pool| && r.pool[i].flags == 0)
  }

  lemma OpenKeeps(fs: Fs, path: Name, flags: nat, alloc: bool, d: nat, i: nat)
    requires Tree(fs) && OpenOn(fs, d, i)
    ensures Keeps(fs, Open(fs, path, flags, alloc).fs, d, i)
  {
    hide NodeOk, ChildrenOk, Lookup, Bit;
    var made := if path != "" && Lookup(fs, path).None? && Bit(flags, O_CREAT) then Touch(fs, path, alloc).fs else fs;
    assert Keeps(fs, made, d, i);
  }

  lemma WriteKeeps(fs: Fs, fd: int, bytes: seq<byte>, alloc: bool, d: nat, i: nat)
    requires Tree(fs) && OpenOn(fs, d, i)
    ensures Keeps(fs, Write(fs, fd, bytes, alloc).fs, d, i)
  {
    hide NodeOk, ChildrenOk, Writable;
    var f := FileOf(fs, fd);
    if f.Some? {
      assert Writable(fs.pool[f.value], alloc).flags == VFS_FILE by { WritableFlags(fs.pool[f.value], alloc); }
    }
  }

  lemma WritableFlags(n: Vnode, alloc: bool)
    ensures Writable(n, alloc).flags == n.flags
  {
  }

  lemma UnlinkKeeps(fs: Fs, path: string, d: nat, i: nat)
    requires Tree(fs) && OpenOn(fs, d, i)
    ensures Keeps(fs, Unlink(fs, path).fs, d, i)
  {
    hide NodeOk, ChildrenOk, Lookup;
  }

  /** A call other than closing `d` leaves `d` on its vnode, and never revives an unlinked vnode. */
  lemma StepKeeps(fs: Fs, op: Op, d: nat, i: nat)
    requires Tree(fs) && OpenOn(fs, d, i) && op != OpClose(d)
    ensures Keeps(fs, Step(fs, op), d, i)
  {
    hide NodeOk, ChildrenOk, Lookup, Open, Write, Unlink;
    match op
    case OpMkdir(path) =>
    case OpTouch(path, alloc) =>
    case OpInstall(name, bytes) =>
    case OpUnlink(path) => UnlinkKeeps(fs, path, d, i);
    case OpChdir(path) =>
    case OpOpen(path, flags, alloc) => OpenKeeps(fs, path, flags, alloc, d, i);
    case OpClose(fd) =>
    case OpRead(fd, count) =>
    case OpWrite(fd, bytes, alloc) => WriteKeeps(fs, fd, bytes, alloc, d, i);
  }

  /** Main result: until it is closed an open descriptor stays on its vnode; once that vnode has
      been unlinked, every read and write through the descriptor fails for ever, changing nothing. */
  lemma {:induction false} DescriptorStable(fs: Fs, ops: seq<Op>, d: nat, i: nat)
    requires Tree(fs) && OpenOn(fs, d, i) && OpClose(d) !in ops
    ensures var r := Run(fs, ops);
      && OpenOn(r, d, i)
      && (fs.pool[i].flags == 0 ==>
            && (forall count: u32 :: Read(r, d, count) == Io(r, -1, []))
            && (forall data: seq<byte>, alloc: bool :: Write(r, d, data, alloc) == Io(r, -1, [])))
    decreases |ops|
  {
    hide Step, NodeOk, ChildrenOk;
    if ops != [] {
      assert ops[0] in ops;
      StepTree(fs, ops[0]);
      StepKeeps(fs, ops[0], d, i);
      DescriptorStable(Step(fs, ops[0]), ops[1..], d, i);
    }
  }

  /** Unlinking a file clears the flags that reads and writes test. */
  lemma UnlinkKills(fs: Fs, path: string)
    requires Tree(fs) && Unlink(fs, path).ok
    ensures var i := Lookup(fs, path).value; i < |fs.pool| && Unlink(fs, path).fs.pool[i].flags == 0
  {
  }

  lemma {:induction false} RunAppend(fs: Fs, a: seq<Op>, b: seq<Op>)
    requires Tree(fs)
    ensures Tree(Run(fs, a)) && Run(fs, a + b) == Run(Run(fs, a), b)
    decreases |a|
  {
    hide Step, NodeOk, ChildrenOk;
    if a == [] {
      assert a + b == b;
    } else {
      StepTree(fs, a[0]);
      assert (a + b)[1..] == a[1..] + b;
      RunAppend(Step(fs, a[0]), a[1..], b);
    }
  }

  /** In every run: once the file under an open descriptor has been unlinked, whatever follows short
      of closing it, every read and write through the descriptor fails and changes nothing. */
  lemma UnlinkedForEver(fs: Fs, before: seq<Op>, path: string, later: seq<Op>, d: nat)
    requires Tree(fs) && Tree(Run(fs, before)) && Unlink(Run(fs, before), path).ok && OpClose(d) !in later
    requires OpenOn(Run(fs, before), d, Lookup(Run(fs, before), path).value)
    ensures var r := Run(fs, before + ([OpUnlink(path)] + later));
      && (forall count: u32 :: Read(r, d, count) == Io(r, -1, []))
      && (forall data: seq<byte>, alloc: bool :: Write(r, d, data, alloc) == Io(r, -1, []))
  {
    var s := Run(fs, before);
    var i := Lookup(s, path).value;
    UnlinkKills(s, path);
    UnlinkKeeps(s, path, d, i);
    hide NodeOk, ChildrenOk, Unlink, Read, Write, Run, Lookup;
    var u := Step(s, OpUnlink(path));
    StepTree(s, OpUnlink(path));
    RunAppend(fs, before, [OpUnlink(path)] + later);
    RunFirst(s, OpUnlink(path), later);
    DescriptorStable(u, later, d, i);
  }

  lemma RunFirst(fs: Fs, op: Op, ops: seq<Op>)
    requires Tree(fs)
    ensures Tree(Step(fs, op)) && Run(fs, [op] + ops) == Run(Step(fs, op), ops)
  {
    StepTree(fs, op);
    assert ([op] + ops)[1..] == ops;
  }
}
