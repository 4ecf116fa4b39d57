/** The vnode tree and the descriptor table (kernel/fs.c:8-130, 320-343; kernel/syscall.c:31-70, 118-283). */
module Vfs {
  import opened Words

  const POOL := 64
  const MAX_CHILDREN := 16
  const MAX_FDS := 32
  const NAME_SIZE := 32
  const BUFFER := 64

  const VFS_FILE := 1
  const VFS_DIRECTORY := 2
  const O_CREAT := 0x40
  const O_TRUNC := 0x200

  datatype Option<T> = None | Some(value: T)

  /** What fits a vnode's name field: a C string of at most 31 bytes. */
  type Name = s: string | |s| < NAME_SIZE && '\0' !in s witness ""

  /** `touched` tells files made by k_touch from files whose content points at static data. */
  datatype Vnode = Vnode(name: Name, flags: nat, parent: Option<nat>, children: seq<nat>, size: nat,
                         content: Option<seq<byte>>, touched: bool)

  datatype Fd = Fd(used: bool, node: Option<nat>, offset: nat)

  const FreeFd := Fd(false, None, 0)

  datatype Fs = Fs(pool: seq<Vnode>, cwd: nat, fds: seq<Fd>)

  function Init(): Fs {
    Fs([Vnode("/", VFS_DIRECTORY, None, [], 0, None, false)], 0, seq(MAX_FDS, _ => FreeFd))
  }

  // ---- Well-formedness ----

  ghost predicate NodeOk(pool: seq<Vnode>, i: nat)
    requires i < |pool|
  {
    var n := pool[i];
    && (n.flags == 0 || n.flags == VFS_FILE || n.flags == VFS_DIRECTORY)
    && (i == 0 ==> n.flags == VFS_DIRECTORY && n.parent == None)
    && (n.flags == 0 ==> n.parent == None)
    && (n.flags != VFS_DIRECTORY ==> n.children == [])
    && (i > 0 && n.flags != 0 ==>
          n.parent.Some? && n.parent.value < i && pool[n.parent.value].flags == VFS_DIRECTORY
            && i in pool[n.parent.value].children)
  }

  ghost predicate ChildrenOk(pool: seq<Vnode>, i: nat)
    requires i < |pool|
  {
    var cs := pool[i].children;
    && |cs| <= MAX_CHILDREN
    && (forall k | 0 <= k < |cs| :: i < cs[k] < |pool| && pool[cs[k]].parent == Some(i) && pool[cs[k]].flags != 0)
    && (forall j, k | 0 <= j < k < |cs| :: cs[j] != cs[k])
  }

  /** Parent and child links agree, parents come earlier in the pool, and the current directory
      and every open descriptor refer to pool entries. */
  ghost predicate Tree(fs: Fs) {
    && 1 <= |fs.pool| <= POOL && |fs.fds| == MAX_FDS
    && (forall i | 0 <= i < |fs.pool| :: NodeOk(fs.pool, i) && ChildrenOk(fs.pool, i))
    && fs.cwd < |fs.pool| && fs.pool[fs.cwd].flags == VFS_DIRECTORY
    && (forall d | 0 <= d < MAX_FDS && fs.fds[d].used ::
      d >= 3 && fs.fds[d].node.Some? && fs.fds[d].node.value < |fs.pool|)
  }

  /** Following parents from `i` arrives at the root. */
  predicate Reaches(pool: seq<Vnode>, i: nat)
    decreases i
  {
    i < |pool| && (i == 0 || (pool[i].parent.Some? && pool[i].parent.value < i && Reaches(pool, pool[i].parent.value)))
  }

  // ---- Lookup ----

  function FindChild(pool: seq<Vnode>, cs: seq<nat>, name: string): (r: Option<nat>)
    ensures r.Some? ==> r.value in cs && r.value < |pool| && pool[r.value].name == name
    ensures r.None? ==> forall k | 0 <= k < |cs| && cs[k] < |pool| :: pool[cs[k]].name != name
  {
    if cs == [] then None
    else if cs[0] < |pool| && pool[cs[0]].name == name then Some(cs[0])
    else
      var r := FindChild(pool, cs[1..], name);
      assert r.None? ==> forall k | 0 < k < |cs| && cs[k] < |pool| :: cs[k] == cs[1..][k - 1];
      r
  }

  /** vfs_lookup. */
  function Lookup(fs: Fs, path: string): Option<nat>
    requires fs.cwd < |fs.pool|
  {
    if path == "" then None
    else if path == "/" then Some(0)
    else if path == "." then Some(fs.cwd)
    else if path == ".." then if fs.pool[fs.cwd].parent.Some? then fs.pool[fs.cwd].parent else Some(fs.cwd)
    else FindChild(fs.pool, fs.pool[fs.cwd].children, if path[0] == '/' then path[1..] else path)
  }

  // ---- Operations on the tree ----

  datatype Made = Made(fs: Fs, ok: bool)

  predicate CanCreate(fs: Fs, path: string)
    requires fs.cwd < |fs.pool|
  {
    path != "" && |fs.pool[fs.cwd].children| < MAX_CHILDREN && Lookup(fs, path).None? && |fs.pool| < POOL
  }

  /** Append a node to the pool and to its parent's children. */
  function AddNode(fs: Fs, dir: nat, n: Vnode): Fs
    requires dir < |fs.pool|
  {
    fs.(pool := fs.pool[dir := fs.pool[dir].(children := fs.pool[dir].children + [|fs.pool|])] + [n])
  }

  function Mkdir(fs: Fs, path: Name): Made
    requires fs.cwd < |fs.pool|
  {
    if CanCreate(fs, path)
    then Made(AddNode(fs, fs.cwd, Vnode(path, VFS_DIRECTORY, Some(fs.cwd), [], 0, None, false)), true)
    else Made(fs, false)
  }

  /** k_touch; `alloc` says whether pmm_alloc_z found a page. */
  function Touch(fs: Fs, path: Name, alloc: bool): Made
    requires fs.cwd < |fs.pool|
  {
    if CanCreate(fs, path)
    then
      var content := if alloc then Some(Zeros(BUFFER)) else None;
      Made(AddNode(fs, fs.cwd, Vnode(path, VFS_FILE, Some(fs.cwd), [], 0, content, true)), true)
    else Made(fs, false)
  }

  function Install(fs: Fs, name: Name, data: seq<byte>): Made
    requires |fs.pool| > 0
  {
    if data != [] && |fs.pool[0].children| < MAX_CHILDREN && |fs.pool| < POOL
    then Made(AddNode(fs, 0, Vnode(name, VFS_FILE, Some(0), [], |data|, Some(data), false)), true)
    else Made(fs, false)
  }

  function Zeros(n: nat): (r: seq<byte>)
    ensures |r| == n
  {
    seq(n, _ => 0)
  }

  function Without(cs: seq<nat>, c: nat): seq<nat> {
    if cs == [] then [] else if cs[0] == c then cs[1..] else [cs[0]] + Without(cs[1..], c)
  }

  /** k_unlink: only files; the node stays in the pool with its flags cleared. */
  function Unlink(fs: Fs, path: string): Made
    requires fs.cwd < |fs.pool|
  {
    var r := Lookup(fs, path);
    if r.Some? && r.value < |fs.pool| && fs.pool[r.value].flags == VFS_FILE && fs.pool[r.value].parent.Some?
       && fs.pool[r.value].parent.value < |fs.pool| && r.value in fs.pool[fs.pool[r.value].parent.value].children then
      var i := r.value;
      var n, p := fs.pool[i], fs.pool[i].parent.value;
      var pool := fs.pool[p := fs.pool[p].(children := Without(fs.pool[p].children, i))];
      Made(fs.(pool := pool[i := pool[i].(flags := 0, parent := None, children := [], size := 0, content := None)]),
        true)
    else Made(fs, false)
  }

  function Chdir(fs: Fs, path: string): Made
    requires fs.cwd < |fs.pool|
  {
    var r := Lookup(fs, path);
    if r.Some? && r.value < |fs.pool| && fs.pool[r.value].flags == VFS_DIRECTORY
    then Made(fs.(cwd := r.value), true)
    else Made(fs, false)
  }

  // ---- Descriptors ----

  function LowestFd(fds: seq<Fd>, i: nat): (d: nat)
    requires i <= |fds|
    ensures i <= d <= |fds| && (d < |fds| ==> !fds[d].used) && forall k | i <= k < d :: fds[k].used
    decreases |fds| - i
  {
    if i == |fds| || !fds[i].used then i else LowestFd(fds, i + 1)
  }

  predicate Bit(flags: nat, b: nat)
    requires b > 0
  {
    flags / b % 2 == 1
  }

  /** vfs_write_file with no data: the first byte is cleared and the size is 0. */
  function Truncate(n: Vnode): Vnode {
    n.(size := 0,
       content := if n.content.Some? && |n.content.value| > 0 then Some(n.content.value[0 := 0]) else n.content)
  }

  datatype Opened = Opened(fs: Fs, fd: int)

  /** SYS_open: -1 on failure. */
  function Open(fs: Fs, path: Name, flags: nat, alloc: bool): Opened
    requires fs.cwd < |fs.pool| && |fs.fds| == MAX_FDS
  {
    var made := if path != "" && Lookup(fs, path).None? && Bit(flags, O_CREAT) then Touch(fs, path, alloc).fs else fs;
    if path == "" || made.cwd >= |made.pool| || Lookup(made, path).None? then Opened(made, -1)
    else
      var i := Lookup(made, path).value;
      if i >= |made.pool| then Opened(made, -1)
      else
        var cut := if Bit(flags, O_TRUNC) && made.pool[i].flags == VFS_FILE
                   then made.(pool := made.pool[i := Truncate(made.pool[i])]) else made;
        var d := LowestFd(cut.fds, 3);
        if d == |cut.fds| then Opened(cut, -1)
        else Opened(cut.(fds := cut.fds[d := Fd(true, Some(i), 0)]), d)
  }

  function Close(fs: Fs, fd: int): Made
    requires |fs.fds| == MAX_FDS
  {
    if 3 <= fd < MAX_FDS && fs.fds[fd].used then Made(fs.(fds := fs.fds[fd := FreeFd]), true) else Made(fs, false)
  }

  /** The vnode a descriptor reads and writes, if it is open on a file. */
  function FileOf(fs: Fs, fd: int): Option<nat> {
    if 0 <= fd < |fs.fds| && fs.fds[fd].used && fs.fds[fd].node.Some? && fs.fds[fd].node.value < |fs.pool|
       && fs.pool[fs.fds[fd].node.value].flags == VFS_FILE
    then fs.fds[fd].node else None
  }

  /** Overrun: the copy leaves the file's buffer. `fs` and `ret` are then what the code stores and
      returns, if it gets that far. */
  datatype Io = Io(fs: Fs, ret: int, data: seq<byte>) | Overrun(fs: Fs, ret: int)

  function Min(a: int, b: int): int { if a < b then a else b }

  /** SYS_read. The end of the read is compared with the size after 32-bit wrap-around. */
  function Read(fs: Fs, fd: int, count: u32): Io {
    var f := FileOf(fs, fd);
    if count == 0 || f.None? then Io(fs, -1, [])
    else
      var n, off := fs.pool[f.value], fs.fds[fd].offset;
      if off >= n.size then Io(fs, 0, [])
      else
        var k := if Wrap32(off + count) > n.size then n.size - off else count;
        var after := fs.(fds := fs.fds[fd := fs.fds[fd].(offset := Wrap32(off + k))]);
        if n.content.Some? && off + k <= |n.content.value| && off + k < 0x1_0000_0000
        then Io(after, k, n.content.value[off..off + k]) else Overrun(after, k)
  }

  /** ensure_writable_content: a fresh zeroed buffer with the first bytes of the old content; when
      no page is left, the old content (if any) stays. */
  function Writable(n: Vnode, alloc: bool): Vnode {
    if n.content.None? then n.(size := 0, content := if alloc then Some(Zeros(BUFFER)) else None)
    else if !alloc then n
    else
      var k := Min(Min(n.size, 63), |n.content.value|);
      n.(content := Some(n.content.value[..k] + Zeros(BUFFER - k)))
  }

  /** SYS_write to a file descriptor. The room left is computed with 32-bit wrap-around. */
  function Write(fs: Fs, fd: int, data: seq<byte>, alloc: bool): Io {
    var f := FileOf(fs, fd);
    if data == [] || f.None? then Io(fs, -1, [])
    else
      var i, off := f.value, fs.fds[fd].offset;
      var n := Writable(fs.pool[i], alloc);
      if n.content.None? then Io(fs.(pool := fs.pool[i := n]), -1, [])
      else
        var k := Min(|data|, Wrap32(63 - off));
        var end := Wrap32(off + k);
        var fds := fs.fds[fd := fs.fds[fd].(offset := end)];
        if off + k < |n.content.value| && off + k < 0x1_0000_0000 then
          var buf := n.content.value[..off] + data[..k] + [0] + n.content.value[off + k + 1..];
          Io(Fs(fs.pool[i := n.(size := end, content := Some(buf))], fs.cwd, fds), k, [])
        else Overrun(Fs(fs.pool[i := n.(size := end)], fs.cwd, fds), k)
  }

  // ---- Runs ----

  datatype Op =
    | OpMkdir(path: Name) | OpTouch(path: Name, alloc: bool) | OpInstall(name: Name, bytes: seq<byte>)
    | OpUnlink(target: string) | OpChdir(target: string)
    | OpOpen(path: Name, flags: nat, alloc: bool) | OpClose(fd: int)
    | OpRead(fd: int, count: u32) | OpWrite(fd: int, bytes: seq<byte>, alloc: bool)

  function Step(fs: Fs, op: Op): Fs
    requires fs.cwd < |fs.pool| && |fs.fds| == MAX_FDS
  {
    match op
    case OpMkdir(path) => Mkdir(fs, path).fs
    case OpTouch(path, alloc) => Touch(fs, path, alloc).fs
    case OpInstall(name, bytes) => Install(fs, name, bytes).fs
    case OpUnlink(path) => Unlink(fs, path).fs
    case OpChdir(path) => Chdir(fs, path).fs
    case OpOpen(path, flags, alloc) => Open(fs, path, flags, alloc).fs
    case OpClose(fd) => Close(fs, fd).fs
    case OpRead(fd, count) => Read(fs, fd, count).fs
    case OpWrite(fd, bytes, alloc) => Write(fs, fd, bytes, alloc).fs
  }
}
