/** What each file-system call answers and leaves, told by what later calls see
    (kernel/fs.c:38-130, kernel/syscall.c:33-38, 163-283). */
module VfsCalls {
  import opened Words
  import opened Vfs
  import opened VfsRuns
  import opened VfsNames
  import opened Files

  // ---- Paths ----

  /** The name a path stands for among the children. */
  function Stem(path: string): string { if path != "" && path[0] == '/' then path[1..] else path }

  predicate Special(path: string) { path == "" || path == "/" || path == "." || path == ".." }

  /** "/" is the root, "." the current directory, ".." its parent, or itself in the root; every other path
      is a child of the current directory by name, one leading slash ignored. */
  lemma LookupIs(fs: Fs, path: string)
    requires Tree(fs)
    ensures path == "" ==> Lookup(fs, path) == None
    ensures path == "/" ==> Lookup(fs, path) == Some(0)
    ensures path == "." ==> Lookup(fs, path) == Some(fs.cwd)
    ensures path == ".." ==> Lookup(fs, path) == if fs.cwd == 0 then Some(0) else fs.pool[fs.cwd].parent
    ensures !Special(path) ==>
      var r, cs := Lookup(fs, path), fs.pool[fs.cwd].children;
      && (r.Some? ==> r.value in cs && r.value < |fs.pool| && fs.pool[r.value].name == Stem(path))
      && (r.None? <==> forall c | c in cs :: c < |fs.pool| && fs.pool[c].name != Stem(path))
  {
    assert NodeOk(fs.pool, fs.cwd) && ChildrenOk(fs.pool, fs.cwd);
    var cs := fs.pool[fs.cwd].children;
    assert forall c | c in cs :: exists k :: 0 <= k < |cs| && cs[k] == c;
  }

  /** chdir moves to what lookup answers if that is a directory, and otherwise changes nothing. */
  lemma ChdirMoves(fs: Fs, path: string)
    requires Tree(fs)
    ensures var r, to := Chdir(fs, path), Lookup(fs, path);
      && (to.Some? ==> to.value < |fs.pool|) && (r.ok <==> to.Some? && fs.pool[to.value].flags == 2)
      && r.fs == if r.ok then Fs(fs.pool, to.value, fs.fds) else fs
  {
    LookupInPool(fs, path);
  }

  // ---- Creating ----

  /** mkdir and touch are possible exactly when the path is not empty and found nowhere, the current
      directory has a child to spare and the pool a node. */
  lemma CreateExact(fs: Fs, path: Name, alloc: bool)
    requires Tree(fs)
    ensures var free := Lookup(fs, path).None? && path != "" && |fs.pool[fs.cwd].children| < 16 && |fs.pool| < 64;
      (Mkdir(fs, path).ok <==> free) && (Touch(fs, path, alloc).ok <==> free)
    ensures !Mkdir(fs, path).ok ==> Mkdir(fs, path).fs == fs
    ensures !Touch(fs, path, alloc).ok ==> Touch(fs, path, alloc).fs == fs
  {
  }

  /** The new node is the last of the pool and of the current directory; nothing else has changed. */
  predicate Added(fs: Fs, r: Fs)
    requires fs.cwd < |fs.pool|
  {
    && r.cwd == fs.cwd && r.fds == fs.fds && |r.pool| == |fs.pool| + 1
    && r.pool[fs.cwd] == fs.pool[fs.cwd].(children := fs.pool[fs.cwd].children + [|fs.pool|])
    && (forall i | 0 <= i < |fs.pool| && i != fs.cwd :: r.pool[i] == fs.pool[i])
  }

  /** Main result for mkdir: a directory that chdir enters under its path, that is empty, and whose ".."
      leads back. */
  lemma MkdirEnters(fs: Fs, path: Name)
    requires Tree(fs) && Mkdir(fs, path).ok && path[0] != '/'
    ensures var r := Mkdir(fs, path).fs;
      && Tree(r) && Added(fs, r)
      && var in_ := Chdir(r, path);
        && in_.ok && in_.fs == Fs(r.pool, |fs.pool|, r.fds)
        && r.pool[|fs.pool|].children == [] && r.pool[|fs.pool|].name == path
        && Chdir(in_.fs, "..") == Made(r, true)
  {
    var n := Vnode(path, VFS_DIRECTORY, Some(fs.cwd), [], 0, None, false);
    CreateFinds(fs, path, n, path);
    StepTree(fs, OpMkdir(path));
  }

  /** Main result for touch: a file of no bytes under its path, which chdir refuses. */
  lemma TouchMakes(fs: Fs, path: Name, alloc: bool)
    requires Tree(fs) && Touch(fs, path, alloc).ok && path[0] != '/'
    ensures var r := Touch(fs, path, alloc).fs;
      && Tree(r) && Added(fs, r) && Lookup(r, path) == Some(|fs.pool|) && !Chdir(r, path).ok
      && r.pool[|fs.pool|].flags == 1 && r.pool[|fs.pool|].size == 0 && r.pool[|fs.pool|].children == []
  {
    var content := if alloc then Some(Zeros(BUFFER)) else None;
    CreateFinds(fs, path, Vnode(path, VFS_FILE, Some(fs.cwd), [], 0, content, true), path);
    StepTree(fs, OpTouch(path, alloc));
  }

  // ---- Removing ----

  /** Main result for unlink: it succeeds exactly on files; the node leaves its directory, no other
      child and no other node changes. */
  lemma UnlinkExact(fs: Fs, path: string)
    requires Tree(fs)
    ensures var r, to := Unlink(fs, path), Lookup(fs, path);
      && (to.Some? ==> to.value < |fs.pool|) && (r.ok <==> to.Some? && fs.pool[to.value].flags == 1)
      && (!r.ok ==> r.fs == fs)
      && (r.ok ==>
            && |r.fs.pool| == |fs.pool| && r.fs.cwd == fs.cwd && r.fs.fds == fs.fds && to.value != fs.cwd
            && (forall i | 0 <= i < |fs.pool| && i != to.value && i != fs.cwd :: r.fs.pool[i] == fs.pool[i])
            && (forall c :: c in r.fs.pool[fs.cwd].children <==> c in fs.pool[fs.cwd].children && c != to.value)
            && r.fs.pool[fs.cwd] == fs.pool[fs.cwd].(children := r.fs.pool[fs.cwd].children))
  {
    LookupInPool(fs, path);
    var to := Lookup(fs, path);
    if to.Some? && fs.pool[to.value].flags == VFS_FILE {
      UnlinkLookup(fs, path, to.value);
      assert ChildrenOk(fs.pool, fs.cwd);
      WithoutSpec(fs.pool[fs.cwd].children, to.value);
    }
  }

  // ---- Descriptors ----

  /** close succeeds exactly on open descriptors from 3 on, and frees that slot only. */
  lemma CloseFrees(fs: Fs, fd: int)
    requires Tree(fs)
    ensures var r := Close(fs, fd);
      && (r.ok <==> 0 <= fd < 32 && fs.fds[fd].used)
      && (!r.ok ==> r.fs == fs)
      && (r.ok ==>
            && r.fs.pool == fs.pool && r.fs.cwd == fs.cwd && |r.fs.fds| == 32 && !r.fs.fds[fd].used
            && (forall e | 0 <= e < 32 && e != fd :: r.fs.fds[e] == fs.fds[e]))
  {
    assert 0 <= fd < MAX_FDS && fs.fds[fd].used ==> fd >= 3;
  }

  /** After close, reads and writes through the descriptor fail, and a second close does too. */
  lemma ClosedFails(fs: Fs, fd: int, count: u32, data: seq<byte>, alloc: bool)
    requires Tree(fs) && Close(fs, fd).ok
    ensures var r := Close(fs, fd).fs;
      && Read(r, fd, count) == Io(r, -1, []) && Write(r, fd, data, alloc) == Io(r, -1, [])
      && Close(r, fd) == Made(r, false)
  {
  }

  /** A file descriptor: open, on a node that is a file. */
  predicate OnFile(fs: Fs, fd: int) {
    && 0 <= fd < |fs.fds| && fs.fds[fd].used && fs.fds[fd].node.Some? && fs.fds[fd].node.value < |fs.pool|
    && fs.pool[fs.fds[fd].node.value].flags == 1
  }

  /** read fails exactly for a zero count or without a file, and then changes nothing. */
  lemma ReadFails(fs: Fs, fd: int, count: u32)
    ensures Read(fs, fd, count).ret == -1 <==> count == 0 || !OnFile(fs, fd)
    ensures Read(fs, fd, count).ret == -1 ==> Read(fs, fd, count) == Io(fs, -1, [])
  {
  }

  /** write fails exactly for no bytes, without a file, or when the file has no buffer and none is left. */
  lemma WriteFails(fs: Fs, fd: int, data: seq<byte>, alloc: bool)
    ensures Write(fs, fd, data, alloc).ret == -1 <==>
      data == [] || !OnFile(fs, fd) || (!alloc && fs.pool[fs.fds[fd].node.value].content.None?)
  {
  }

  /** open fails exactly when the path is found nowhere and not made, or no slot is left; on success it
      takes the lowest free slot from 3 on. Bit 6 of the flags asks for creation. */
  lemma OpenExact(fs: Fs, path: Name, flags: nat, alloc: bool)
    requires Tree(fs)
    ensures var o := Open(fs, path, flags, alloc); var makes := Lookup(fs, path).None? && flags / 64 % 2 == 1;
      var there := Lookup(fs, path).Some? || (makes && Touch(fs, path, alloc).ok && path[0] != '/');
      && (o.fd == -1 <==> !there || forall d | 3 <= d < 32 :: fs.fds[d].used)
      && (o.fd != -1 ==>
            && 3 <= o.fd < 32 && !fs.fds[o.fd].used && (forall d | 3 <= d < o.fd :: fs.fds[d].used)
            && o.fs.cwd == fs.cwd && |o.fs.fds| == 32 && o.fs.fds[o.fd] == Fd(true, o.fs.fds[o.fd].node, 0)
            && o.fs.fds[o.fd].node == (if makes then Some(|fs.pool|) else Lookup(fs, path))
            && (forall d | 0 <= d < 32 && d != o.fd :: o.fs.fds[d] == fs.fds[d]))
  {
    hide NodeOk, ChildrenOk;
    LookupInPool(fs, path);
    if Lookup(fs, path).None? && Bit(flags, O_CREAT) && Touch(fs, path, alloc).ok {
      var content := if alloc then Some(Zeros(BUFFER)) else None;
      CreateFinds(fs, path, Vnode(path, VFS_FILE, Some(fs.cwd), [], 0, content, true), path);
    }
  }

  /** Installing a file is possible exactly for data, with a root child and a node to spare. */
  lemma InstallExact(fs: Fs, name: Name, data: seq<byte>)
    requires Tree(fs)
    ensures Install(fs, name, data).ok <==> data != [] && |fs.pool[0].children| < 16 && |fs.pool| < 64
    ensures !Install(fs, name, data).ok ==> Install(fs, name, data).fs == fs
  {
  }

  /** Main result for installed files: in the root, under a new plain name, every descriptor opened
      without truncation (bit 9 of the flags) reads the data from the start. */
  lemma InstallReads(fs: Fs, name: Name, data: seq<byte>, flags: nat, alloc: bool, count: u32)
    requires Tree(fs) && fs.cwd == 0 && Lookup(fs, name).None? && name != "" && name[0] != '/'
    requires Install(fs, name, data).ok && |data| < 0x1_0000_0000 && flags / 512 % 2 == 0 && count > 0
    ensures var r := Install(fs, name, data).fs;
      && Tree(r) && Added(fs, r) && Lookup(r, name) == Some(|fs.pool|)
      && var o := Open(r, name, flags, alloc);
        o.fd != -1 ==>
          var io := Read(o.fs, o.fd, count);
          && io.Io? && io.data == data[..Min(count, |data|)] && io.ret == Min(count, |data|) && io.fs.pool == r.pool
  {
    CreateFinds(fs, name, Vnode(name, VFS_FILE, Some(0), [], |data|, Some(data), false), name);
    StepTree(fs, OpInstall(name, data));
  }
}
