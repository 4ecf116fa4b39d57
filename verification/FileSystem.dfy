/** The file-system calls as the kernel runs them: pool, current directory and descriptor table
    updated in place, with their scan and shift loops. */
module FileSystem {
  import opened Words
  import opened Vfs
  import opened VfsRuns
  import opened Files

  lemma {:induction false} FindChildFrom(pool: seq<Vnode>, cs: seq<nat>, name: string, i: nat)
    requires i <= |cs| && forall k | 0 <= k < i && cs[k] < |pool| :: pool[cs[k]].name != name
    ensures FindChild(pool, cs, name) == FindChild(pool, cs[i..], name)
    decreases i
  {
    if i == 0 {
      assert cs[0..] == cs;
    } else {
      FindChildFrom(pool, cs, name, i - 1);
      assert cs[i - 1..][1..] == cs[i..];
    }
  }

  lemma {:induction false} WithoutAt(cs: seq<nat>, i: nat)
    requires i < |cs| && forall k | 0 <= k < i :: cs[k] != cs[i]
    ensures Without(cs, cs[i]) == cs[..i] + cs[i + 1..]
    decreases |cs|
  {
    if i > 0 {
      WithoutAt(cs[1..], i - 1);
      assert cs[..i] + cs[i + 1..] == [cs[0]] + (cs[1..][..i - 1] + cs[1..][i..]);
    }
  }

  /** Remove element `at` by moving the later ones down, as k_unlink does. */
  method ShiftDown(cs: seq<nat>, at: nat) returns (r: seq<nat>)
    requires at < |cs|
    ensures r == cs[..at] + cs[at + 1..]
  {
    r := cs;
    var i := at;
    while i + 1 < |cs|
      invariant at <= i < |cs| && |r| == |cs|
      invariant r[..i] == cs[..at] + cs[at + 1..i + 1] && r[i..] == cs[i..]
    {
      assert r[i + 1] == r[i..][1] == cs[i..][1];
      r := r[i := r[i + 1]];
      assert r[i + 1..] == cs[i..][1..];
      i := i + 1;
      assert r[..i] == r[..i - 1] + [cs[i]];
      assert cs[at + 1..i + 1] == cs[at + 1..i] + [cs[i]];
      assert cs[..at] + cs[at + 1..i] + [cs[i]] == cs[..at] + (cs[at + 1..i] + [cs[i]]);
    }
    assert i + 1 == |cs| && cs[at + 1..i + 1] == cs[at + 1..];
    r := r[..i];
  }

  class FileSystem {
    var pool: seq<Vnode>
    var cwd: nat
    var fds: seq<Fd>

    ghost function State(): Fs
      reads this
    {
      Fs(pool, cwd, fds)
    }

    ghost predicate Valid()
      reads this
    {
      Tree(State()) && FilesOk(State())
    }

    /** fs_init. */
    constructor ()
      ensures Valid() && State() == Init()
    {
      var fs := Init();
      pool, cwd, fds := fs.pool, fs.cwd, fs.fds;
    }

    /** vfs_lookup: the scan over the current directory's children. */
    method LookupPath(path: string) returns (r: Option<nat>)
      requires Valid()
      ensures r == Lookup(State(), path)
    {
      if path == "" { return None; }
      if path == "/" { return Some(0); }
      if path == "." { return Some(cwd); }
      if path == ".." { return if pool[cwd].parent.Some? then pool[cwd].parent else Some(cwd); }
      var name := if path[0] == '/' then path[1..] else path;
      var cs := pool[cwd].children;
      var i := 0;
      while i < |cs|
        invariant 0 <= i <= |cs| && forall k | 0 <= k < i && cs[k] < |pool| :: pool[cs[k]].name != name
      {
        if cs[i] < |pool| && pool[cs[i]].name == name {
          FindChildFrom(pool, cs, name, i);
          return Some(cs[i]);
        }
        i := i + 1;
      }
      FindChildFrom(pool, cs, name, i);
      return None;
    }

    /** k_mkdir. */
    method MakeDirectory(path: Name) returns (ok: bool)
      requires Valid()
      modifies this
      ensures Valid() && Made(State(), ok) == Mkdir(old(State()), path)
    {
      hide NodeOk, ChildrenOk, Lookup;
      if path == "" { return false; }
      if |pool[cwd].children| >= MAX_CHILDREN { return false; }
      var r := LookupPath(path);
      if r.Some? { return false; }
      if |pool| >= POOL { return false; }
      StepTree(State(), OpMkdir(path));
      StepFiles(State(), OpMkdir(path));
      Append(cwd, Vnode(path, VFS_DIRECTORY, Some(cwd), [], 0, None, false));
      return true;
    }

    /** alloc_vnode and the link from the parent. */
    method Append(dir: nat, n: Vnode)
      requires dir < |pool|
      modifies this`pool
      ensures State() == AddNode(old(State()), dir, n)
    {
      var i := |pool|;
      pool := pool[dir := pool[dir].(children := pool[dir].children + [i])] + [n];
    }

    /** k_touch. */
    method MakeFile(path: Name, alloc: bool) returns (ok: bool)
      requires Valid()
      modifies this
      ensures Valid() && Made(State(), ok) == Touch(old(State()), path, alloc)
    {
      hide NodeOk, ChildrenOk, Lookup;
      if path == "" { return false; }
      if |pool[cwd].children| >= MAX_CHILDREN { return false; }
      var r := LookupPath(path);
      if r.Some? { return false; }
      if |pool| >= POOL { return false; }
      StepTree(State(), OpTouch(path, alloc));
      StepFiles(State(), OpTouch(path, alloc));
      Append(cwd, Vnode(path, VFS_FILE, Some(cwd), [], 0, if alloc then Some(Zeros(BUFFER)) else None, true));
      return true;
    }

    /** k_unlink. */
    method Remove(path: string) returns (ok: bool)
      requires Valid()
      modifies this
      ensures Valid() && Made(State(), ok) == Unlink(old(State()), path)
    {
      hide NodeOk, ChildrenOk, Lookup;
      var r := LookupPath(path);
      LookupInPool(State(), path);
      if r.None? || pool[r.value].flags != VFS_FILE { return false; }
      var i := r.value;
      if pool[i].parent.None? { return false; }
      ParentInPool(State(), i);
      var p := pool[i].parent.value;
      var cs := pool[p].children;
      var found := 0;
      while found < |cs| && cs[found] != i
        invariant 0 <= found <= |cs| && forall k | 0 <= k < found :: cs[k] != i
      {
        found := found + 1;
      }
      if found == |cs| { return false; }
      StepTree(State(), OpUnlink(path));
      StepFiles(State(), OpUnlink(path));
      WithoutAt(cs, found);
      var rest := ShiftDown(cs, found);
      pool := pool[p := pool[p].(children := rest)];
      pool := pool[i := pool[i].(flags := 0, parent := None, children := [], size := 0, content := None)];
      return true;
    }

    /** SYS_chdir. */
    method ChangeDirectory(path: string) returns (ok: bool)
      requires Valid()
      modifies this`cwd
      ensures Valid() && Made(State(), ok) == Chdir(old(State()), path)
    {
      hide NodeOk, ChildrenOk, Lookup;
      var r := LookupPath(path);
      LookupInPool(State(), path);
      if r.None? || pool[r.value].flags != VFS_DIRECTORY { return false; }
      StepTree(State(), OpChdir(path));
      cwd := r.value;
      return true;
    }

    /** allocate_fd: the lowest free descriptor from 3 on, or MAX_FDS. */
    method AllocateFd() returns (d: nat)
      requires |fds| == MAX_FDS
      ensures d == LowestFd(fds, 3)
    {
      d := 3;
      while d < MAX_FDS
        invariant 3 <= d <= MAX_FDS && LowestFd(fds, 3) == LowestFd(fds, d)
      {
        if !fds[d].used { return; }
        d := d + 1;
      }
    }

    /** SYS_open. */
    method OpenFile(path: Name, flags: nat, alloc: bool) returns (fd: int)
      requires Valid()
      modifies this
      ensures Valid() && Opened(State(), fd) == Open(old(State()), path, flags, alloc)
    {
      hide NodeOk, ChildrenOk, Lookup, Touch;
      StepTree(State(), OpOpen(path, flags, alloc));
      StepFiles(State(), OpOpen(path, flags, alloc));
      if path == "" { return -1; }
      var r := LookupPath(path);
      if r.None? && Bit(flags, O_CREAT) {
        var made := MakeFile(path, alloc);
        r := LookupPath(path);
      }
      if r.None? { return -1; }
      LookupInPool(State(), path);
      var i := r.value;
      if Bit(flags, O_TRUNC) && pool[i].flags == VFS_FILE {
        pool := pool[i := Truncate(pool[i])];
      }
      var d := AllocateFd();
      if d == MAX_FDS { return -1; }
      fds := fds[d := Fd(true, Some(i), 0)];
      return d;
    }

    /** SYS_close. */
    method CloseFile(fd: int) returns (ok: bool)
      requires Valid()
      modifies this`fds
      ensures Valid() && Made(State(), ok) == Close(old(State()), fd)
    {
      hide NodeOk, ChildrenOk;
      if fd <= 2 || fd >= MAX_FDS || !fds[fd].used { return false; }
      StepTree(State(), OpClose(fd));
      StepFiles(State(), OpClose(fd));
      fds := fds[fd := FreeFd];
      return true;
    }

    /** SYS_read; `overran` when the copy leaves the file's buffer. */
    method ReadFd(fd: int, count: u32) returns (ret: int, data: seq<byte>, overran: bool)
      requires Valid()
      modifies this`fds
      ensures Valid()
      ensures Read(old(State()), fd, count) == if overran then Overrun(State(), ret) else Io(State(), ret, data)
    {
      hide NodeOk, ChildrenOk;
      StepTree(State(), OpRead(fd, count));
      StepFiles(State(), OpRead(fd, count));
      if count == 0 { return -1, [], false; }
      if fd < 0 || fd >= MAX_FDS || !fds[fd].used { return -1, [], false; }
      var n := pool[fds[fd].node.value];
      if n.flags != VFS_FILE { return -1, [], false; }
      var off := fds[fd].offset;
      if off >= n.size { return 0, [], false; }
      var k := count;
      if Wrap32(off + k) > n.size { k := n.size - off; }
      fds := fds[fd := fds[fd].(offset := Wrap32(off + k))];
      if n.content.None? || off + k > |n.content.value| || off + k >= 0x1_0000_0000 { return k, [], true; }
      return k, n.content.value[off..off + k], false;
    }

    /** SYS_write to a file; `overran` when the copy leaves the file's buffer. */
    method WriteFd(fd: int, data: seq<byte>, alloc: bool) returns (ret: int, overran: bool)
      requires Valid()
      modifies this`fds, this`pool
      ensures Valid()
      ensures Write(old(State()), fd, data, alloc) == if overran then Overrun(State(), ret) else Io(State(), ret, [])
    {
      hide NodeOk, ChildrenOk, Writable;
      StepTree(State(), OpWrite(fd, data, alloc));
      StepFiles(State(), OpWrite(fd, data, alloc));
      if data == [] { return -1, false; }
      if fd < 0 || fd >= MAX_FDS || !fds[fd].used { return -1, false; }
      var i := fds[fd].node.value;
      if pool[i].flags != VFS_FILE { return -1, false; }
      var n, off := Writable(pool[i], alloc), fds[fd].offset;
      pool := pool[i := n];
      if n.content.None? { return -1, false; }
      var available := Wrap32(63 - off);
      var k := if |data| < available then |data| else available;
      overran := off + k >= |n.content.value| || off + k >= 0x1_0000_0000;
      var after := n.(size := Wrap32(off + k));
      if !overran {
        var kept := n.content.value;
        after := n.(size := Wrap32(off + k), content := Some(kept[..off] + data[..k] + [0] + kept[off + k + 1..]));
      }
      pool := pool[i := after];
      assert pool == old(pool)[i := after];
      fds := fds[fd := fds[fd].(offset := Wrap32(off + k))];
      return k, overran;
    }
  }

  lemma ParentInPool(fs: Fs, i: nat)
    requires Tree(fs) && i < |fs.pool| && fs.pool[i].parent.Some? && fs.pool[i].flags != 0
    ensures fs.pool[i].parent.value < |fs.pool| && fs.pool[i].parent.value != i
  {
    assert NodeOk(fs.pool, i);
  }
}
