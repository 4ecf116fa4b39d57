/** Sibling names over runs: exactly which calls keep them distinct (kernel/fs.c:38-130). */
module VfsNames {
  import opened Words
  import opened Vfs
  import opened VfsRuns

  ghost predicate Apart(pool: seq<Vnode>, cs: seq<nat>) {
    forall j, k | 0 <= j < k < |cs| && cs[j] < |pool| && cs[k] < |pool| :: pool[cs[j]].name != pool[cs[k]].name
  }

  ghost predicate NamesIn(pool: seq<Vnode>, i: nat)
    requires i < |pool|
  {
    Apart(pool, pool[i].children)
  }

  ghost predicate DistinctNames(pool: seq<Vnode>) {
    forall i | 0 <= i < |pool| :: NamesIn(pool, i)
  }

  predicate HasName(fs: Fs, c: nat, name: string) { c < |fs.pool| && fs.pool[c].name == name }

  /** The directory already holds a child stored under exactly this name. */
  predicate StoredIn(fs: Fs, dir: nat, name: string)
    requires dir < |fs.pool|
  {
    exists k :: 0 <= k < |fs.pool[dir].children| && HasName(fs, fs.pool[dir].children[k], name)
  }

  /** Adding a node keeps sibling names distinct if and only if its directory has no child stored
      under exactly its name. */
  lemma AddNames(fs: Fs, dir: nat, n: Vnode)
    requires Tree(fs) && DistinctNames(fs.pool) && dir < |fs.pool| && n.children == []
    ensures DistinctNames(AddNode(fs, dir, n).pool) <==> !StoredIn(fs, dir, n.name)
  {
    var r := AddNode(fs, dir, n);
    var new_ := |fs.pool|;
    var cs := fs.pool[dir].children;
    assert ChildrenOk(fs.pool, dir);
    assert r.pool[dir].children == cs + [new_] && r.pool[new_] == n;
    assert forall i | 0 <= i < new_ :: r.pool[i].name == fs.pool[i].name;
    if StoredIn(fs, dir, n.name) {
      var k :| 0 <= k < |cs| && HasName(fs, cs[k], n.name);
      var ds := r.pool[dir].children;
      assert ds[k] == cs[k] && ds[|cs|] == new_;
      assert !NamesIn(r.pool, dir);
    } else {
      forall i | 0 <= i < |r.pool| ensures NamesIn(r.pool, i) {
        if i < new_ { NamesKept(fs, dir, n, i); }
      }
    }
  }

  lemma NamesKept(fs: Fs, dir: nat, n: Vnode, i: nat)
    requires Tree(fs) && DistinctNames(fs.pool) && dir < |fs.pool| && i < |fs.pool| && !StoredIn(fs, dir, n.name)
    ensures NamesIn(AddNode(fs, dir, n).pool, i)
  {
    var r := AddNode(fs, dir, n);
    assert ChildrenOk(fs.pool, i) && NamesIn(fs.pool, i);
    var cs := fs.pool[i].children;
    if i == dir {
      var ds := cs + [|fs.pool|];
      assert r.pool[i].children == ds;
      forall j, k | 0 <= j < k < |ds| ensures r.pool[ds[j]].name != r.pool[ds[k]].name {
        if k == |cs| { assert !HasName(fs, cs[j], n.name); }
      }
    }
  }

  /** Calls that relabel nothing and give no directory a new child. */
  ghost predicate Fewer(a: seq<Vnode>, b: seq<Vnode>) {
    && |a| == |b|
    && forall i | 0 <= i < |a| :: b[i].name == a[i].name && b[i].children == a[i].children
  }

  lemma FewerNames(a: seq<Vnode>, b: seq<Vnode>)
    requires Fewer(a, b)
    ensures DistinctNames(b) <==> DistinctNames(a)
  {
    forall i | 0 <= i < |a| ensures NamesIn(a, i) <==> NamesIn(b, i) { }
    assert DistinctNames(a) ==> DistinctNames(b);
    assert DistinctNames(b) ==> DistinctNames(a);
  }

  /** Removing one child keeps the order of the others. */
  lemma {:induction false} WithoutNames(pool: seq<Vnode>, cs: seq<nat>, c: nat)
    requires Apart(pool, cs)
    ensures Apart(pool, Without(cs, c)) && forall x | x in Without(cs, c) :: x in cs
    decreases |cs|
  {
    if cs != [] && cs[0] != c {
      var t := cs[1..];
      assert forall j | 0 <= j < |t| :: t[j] == cs[j + 1];
      WithoutNames(pool, t, c);
      var r := Without(cs, c);
      assert r == [cs[0]] + Without(t, c);
      forall k | 0 < k < |r| && cs[0] < |pool| && r[k] < |pool| ensures pool[cs[0]].name != pool[r[k]].name {
        assert r[k] in t;
        var j :| 0 <= j < |t| && t[j] == r[k];
        assert cs[j + 1] == r[k];
      }
    }
  }

  lemma UnlinkNames(fs: Fs, path: string)
    requires Tree(fs) && DistinctNames(fs.pool)
    ensures DistinctNames(Unlink(fs, path).fs.pool)
  {
    var u := Unlink(fs, path);
    if u.ok {
      var i := Lookup(fs, path).value;
      var p := fs.pool[i].parent.value;
      assert NamesIn(fs.pool, p);
      var ws := Without(fs.pool[p].children, i);
      WithoutNames(fs.pool, fs.pool[p].children, i);
      var r := u.fs.pool;
      assert forall j | 0 <= j < |r| :: r[j].name == fs.pool[j].name;
      assert NodeOk(fs.pool, i) && p < i;
      assert r[p].children == Without(fs.pool[p].children, i) && r[i].children == [];
      forall j | 0 <= j < |r| ensures NamesIn(r, j) {
        assert NamesIn(fs.pool, j);
        assert j == p ==> r[j].children == ws;
        assert j != p && j != i ==> r[j] == fs.pool[j];
        SameNames(fs.pool, r, r[j].children);
      }
    }
  }

  lemma SameNames(a: seq<Vnode>, b: seq<Vnode>, cs: seq<nat>)
    requires |a| == |b| && Apart(a, cs) && forall j | 0 <= j < |a| :: b[j].name == a[j].name
    ensures Apart(b, cs)
  {
  }

  // ---- Exactly which calls keep names distinct ----

  /** What a caller can check: the call does not store a second child under a stored name. */
  predicate Fits(fs: Fs, op: Op)
    requires fs.cwd < |fs.pool| && |fs.fds| == MAX_FDS
  {
    match op
    case OpMkdir(path) => CanCreate(fs, path) ==> !StoredIn(fs, fs.cwd, path)
    case OpTouch(path, _) => CanCreate(fs, path) ==> !StoredIn(fs, fs.cwd, path)
    case OpOpen(path, flags, _) => CanCreate(fs, path) && Bit(flags, O_CREAT) ==> !StoredIn(fs, fs.cwd, path)
    case OpInstall(name, bytes) => Install(fs, name, bytes).ok ==> !StoredIn(fs, 0, name)
    case _ => true
  }

  lemma TouchNames(fs: Fs, path: Name, alloc: bool)
    requires Tree(fs) && DistinctNames(fs.pool)
    ensures DistinctNames(Touch(fs, path, alloc).fs.pool) <==> (CanCreate(fs, path) ==> !StoredIn(fs, fs.cwd, path))
  {
    if CanCreate(fs, path) {
      var content := if alloc then Some(Zeros(BUFFER)) else None;
      AddNames(fs, fs.cwd, Vnode(path, VFS_FILE, Some(fs.cwd), [], 0, content, true));
    }
  }

  lemma OpenNames(fs: Fs, path: Name, flags: nat, alloc: bool)
    requires Tree(fs) && DistinctNames(fs.pool)
    ensures DistinctNames(Open(fs, path, flags, alloc).fs.pool) <==> Fits(fs, OpOpen(path, flags, alloc))
  {
    hide NodeOk, ChildrenOk, StoredIn, DistinctNames;
    TouchNames(fs, path, alloc);
    TouchTree(fs, path, alloc);
    var made := if path != "" && Lookup(fs, path).None? && Bit(flags, O_CREAT) then Touch(fs, path, alloc).fs else fs;
    FewerNames(made.pool, Open(fs, path, flags, alloc).fs.pool);
  }

  lemma ReadPool(fs: Fs, fd: int, count: u32)
    ensures Read(fs, fd, count).fs.pool == fs.pool
  {
  }

  lemma WriteNames(fs: Fs, fd: int, bytes: seq<byte>, alloc: bool)
    ensures DistinctNames(Write(fs, fd, bytes, alloc).fs.pool) <==> DistinctNames(fs.pool)
  {
    hide DistinctNames;
    FewerNames(fs.pool, Write(fs, fd, bytes, alloc).fs.pool);
  }

  /** One call keeps sibling names distinct if and only if it fits. */
  lemma StepNames(fs: Fs, op: Op)
    requires Tree(fs) && DistinctNames(fs.pool)
    ensures DistinctNames(Step(fs, op).pool) <==> Fits(fs, op)
  {
    hide NodeOk, ChildrenOk, Lookup, StoredIn, DistinctNames, Open, Unlink, Write, Read;
    match op
    case OpMkdir(path) =>
      if CanCreate(fs, path) { AddNames(fs, fs.cwd, Vnode(path, VFS_DIRECTORY, Some(fs.cwd), [], 0, None, false)); }
    case OpTouch(path, alloc) => TouchNames(fs, path, alloc);
    case OpInstall(name, bytes) =>
      if Install(fs, name, bytes).ok {
        AddNames(fs, 0, Vnode(name, VFS_FILE, Some(0), [], |bytes|, Some(bytes), false));
      }
    case OpUnlink(path) => UnlinkNames(fs, path);
    case OpChdir(path) =>
    case OpOpen(path, flags, alloc) => OpenNames(fs, path, flags, alloc);
    case OpClose(fd) =>
    case OpRead(fd, count) => ReadPool(fs, fd, count);
    case OpWrite(fd, bytes, alloc) => WriteNames(fs, fd, bytes, alloc);
  }

  predicate FitsRun(fs: Fs, ops: seq<Op>)
    requires Tree(fs)
    decreases |ops|
  {
    ops == [] || (Fits(fs, ops[0]) && (StepTree(fs, ops[0]); FitsRun(Step(fs, ops[0]), ops[1..])))
  }

  ghost predicate DistinctThroughout(fs: Fs, ops: seq<Op>)
    requires Tree(fs)
    decreases |ops|
  {
    && DistinctNames(fs.pool)
    && (ops != [] ==> (StepTree(fs, ops[0]); DistinctThroughout(Step(fs, ops[0]), ops[1..])))
  }

  /** Main result: in a run, sibling names are distinct in every state if and only if every call fits. */
  lemma {:induction false} RunNames(fs: Fs, ops: seq<Op>)
    requires Tree(fs) && DistinctNames(fs.pool)
    ensures DistinctThroughout(fs, ops) <==> FitsRun(fs, ops)
    decreases |ops|
  {
    hide DistinctNames, Fits, Step, NodeOk, ChildrenOk;
    if ops != [] {
      StepTree(fs, ops[0]);
      StepNames(fs, ops[0]);
      if Fits(fs, ops[0]) { RunNames(Step(fs, ops[0]), ops[1..]); }
      else { NotThroughout(Step(fs, ops[0]), ops[1..]); }
    }
  }

  lemma NotThroughout(fs: Fs, ops: seq<Op>)
    requires Tree(fs) && !DistinctNames(fs.pool)
    ensures !DistinctThroughout(fs, ops)
  {
  }

  /** A creating call whose path does not start with a slash always fits. */
  lemma PlainFits(fs: Fs, path: Name, flags: nat, alloc: bool)
    requires Tree(fs) && (path == "" || path[0] != '/')
    ensures Fits(fs, OpMkdir(path)) && Fits(fs, OpTouch(path, alloc)) && Fits(fs, OpOpen(path, flags, alloc))
  {
    if CanCreate(fs, path) {
      assert FindChild(fs.pool, fs.pool[fs.cwd].children, path).None?;
    }
  }

  /** With a leading slash it can fail: mkdir "/a" twice in the root stores two children "/a". */
  lemma SlashTwice()
    ensures Tree(Init()) && Mkdir(Init(), "/a").ok && Tree(Mkdir(Init(), "/a").fs)
    ensures var fs := Mkdir(Init(), "/a").fs; Mkdir(fs, "/a").ok && !DistinctNames(Mkdir(fs, "/a").fs.pool)
  {
    InitTree();
    StepTree(Init(), OpMkdir("/a"));
    assert |"/a"| == 2 && "/a"[0] == '/' && "/a"[1..] == "a";
    assert Lookup(Init(), "/a") == FindChild(Init().pool, [], "a");
    var fs := Mkdir(Init(), "/a").fs;
    assert fs.pool[0].children == [1] && fs.pool[1].name == "/a" && |fs.pool| == 2;
    assert FindChild(fs.pool, [1], "a").None?;
    var two := Mkdir(fs, "/a").fs;
    assert two.pool[0].children == [1, 2] && two.pool[1].name == two.pool[2].name;
    var cs := two.pool[0].children;
    assert cs[0] == 1 && cs[1] == 2 && two.pool[cs[0]].name == two.pool[cs[1]].name;
    assert !NamesIn(two.pool, 0);
  }

  // ---- What a created or removed name answers ----

  /** A new node is found again under the path that made it if and only if that path has no leading
      slash; every path that was found before is found as before. */
  lemma CreateFinds(fs: Fs, path: Name, n: Vnode, other: string)
    requires Tree(fs) && CanCreate(fs, path) && n.name == path
    ensures var r := AddNode(fs, fs.cwd, n);
      && (Lookup(r, path) == Some(|fs.pool|) <==> path[0] != '/')
      && (Lookup(fs, other).Some? ==> Lookup(r, other) == Lookup(fs, other))
  {
    var r := AddNode(fs, fs.cwd, n);
    var cs := fs.pool[fs.cwd].children;
    assert ChildrenOk(fs.pool, fs.cwd);
    assert r.pool[fs.cwd].children == cs + [|fs.pool|];
    FindAppended(fs.pool, r.pool, cs, if path[0] == '/' then path[1..] else path);
    if other != "" { FindAppended(fs.pool, r.pool, cs, if other[0] == '/' then other[1..] else other); }
    assert path[0] == '/' ==> path[1..] != path;
  }

  lemma {:induction false} FindAppended(pool: seq<Vnode>, after: seq<Vnode>, cs: seq<nat>, name: string)
    requires |after| == |pool| + 1 && (forall k | 0 <= k < |cs| :: cs[k] < |pool|)
    requires forall k | 0 <= k < |pool| :: after[k].name == pool[k].name
    ensures FindChild(after, cs + [|pool|], name) ==
      (if FindChild(pool, cs, name).Some? then FindChild(pool, cs, name)
        else if after[|pool|].name == name then Some(|pool|) else None)
    decreases |cs|
  {
    var ds := cs + [|pool|];
    if cs == [] {
      assert ds[1..] == [];
    } else {
      assert ds[1..] == cs[1..] + [|pool|] && ds[0] == cs[0];
      FindAppended(pool, after, cs[1..], name);
    }
  }

  /** With distinct sibling names, an unlinked path is no longer found. */
  lemma UnlinkForgets(fs: Fs, path: string)
    requires Tree(fs) && DistinctNames(fs.pool) && Unlink(fs, path).ok
    ensures Lookup(Unlink(fs, path).fs, path).None?
  {
    var i := Lookup(fs, path).value;
    UnlinkLookup(fs, path, i);
    var cs := fs.pool[fs.cwd].children;
    var r := Unlink(fs, path).fs;
    assert ChildrenOk(fs.pool, fs.cwd) && NamesIn(fs.pool, fs.cwd);
    assert i != fs.cwd;
    assert r.pool[fs.cwd].children == Without(cs, i);
    hide NodeOk, ChildrenOk, Unlink, Without, DistinctNames;
    NotAmong(fs.pool, r.pool, cs, i);
  }

  lemma NotAmong(pool: seq<Vnode>, after: seq<Vnode>, cs: seq<nat>, i: nat)
    requires Apart(pool, cs) && i in cs && (forall k | 0 <= k < |cs| :: cs[k] < |pool|)
    requires forall j, k | 0 <= j < k < |cs| :: cs[j] != cs[k]
    requires |after| == |pool| && forall k | 0 <= k < |pool| :: after[k].name == pool[k].name
    ensures FindChild(after, Without(cs, i), pool[i].name).None?
  {
    WithoutSpec(cs, i);
  }

  /** A file is never named by the special paths, so it was found among the children. */
  lemma UnlinkLookup(fs: Fs, path: string, i: nat)
    requires Tree(fs) && Lookup(fs, path) == Some(i) && i < |fs.pool| && fs.pool[i].flags == VFS_FILE
    ensures path != "" && path != "/" && path != "." && path != ".."
    ensures i in fs.pool[fs.cwd].children && fs.pool[i].name == (if path[0] == '/' then path[1..] else path)
    ensures fs.pool[i].parent == Some(fs.cwd)
  {
    assert NodeOk(fs.pool, fs.cwd) && NodeOk(fs.pool, 0) && ChildrenOk(fs.pool, fs.cwd);
  }
}
