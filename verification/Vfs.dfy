/** The system calls of the VFS layer that look paths up and count references. */
module VfsCalls {
  import opened Dirents
  import DirBlocks
  import opened Paths
  import opened Walks
  import opened VfsTree
  import opened VfsCache
  import opened VfsLookup
  import Names

  const EACCES: int := -13
  const EEXIST: int := -17
  const ENOTDIR: int := -20
  const EISDIR: int := -21
  const EINVAL: int := -22

  /** Every node but the root is counted once for each of its holders, and all holders are
      there. */
  ghost predicate RefsOk(mem: Memory, root: Ptr, holders: multiset<Ptr>) {
    && (forall m :: m in mem ==> mem[m].refcount == if m == root then 0 else holders[m])
    && (forall h :: h in holders ==> h in mem)
  }

  lemma {:induction false} GrownRefs(mem: Memory, mem': Memory, root: Ptr, holders: multiset<Ptr>)
    requires RefsOk(mem, root, holders) && Grown(mem, mem')
    ensures RefsOk(mem', root, holders)
  {
    forall m | m in mem' ensures mem'[m].refcount == if m == root then 0 else holders[m] {
      if m in mem {
        assert SameNode(mem[m], mem'[m]);
      }
    }
  }

  lemma {:induction false} RefRefs(mem: Memory, root: Ptr, fs: Fs, holders: multiset<Ptr>, n: Ptr)
    requires RefsOk(mem, root, holders) && Coherent(mem, root, fs) && n in mem
    ensures RefsOk(Counted(mem, root, n, mem[n].refcount + 1), root, holders + multiset{n})
    ensures Coherent(Counted(mem, root, n, mem[n].refcount + 1), root, fs)
  {
    var mem' := Counted(mem, root, n, mem[n].refcount + 1);
    RefCount(mem, root, holders, n);
    hide RefsOk;
    forall m | m in mem' ensures NodeTrue(mem', root, fs, m) {
      assert NodeTrue(mem, root, fs, m);
    }
  }

  lemma {:induction false} RefCount(mem: Memory, root: Ptr, holders: multiset<Ptr>, n: Ptr)
    requires RefsOk(mem, root, holders) && n in mem
    ensures RefsOk(Counted(mem, root, n, mem[n].refcount + 1), root, holders + multiset{n})
  {
  }

  /** Giving up one use of n, and freeing what that leaves unused. */
  lemma {:induction false} UnrefRefs(mem: Memory, mem': Memory, sh: Shape, root: Ptr, holders: multiset<Ptr>, n: Ptr)
    requires RefsOk(mem, root, holders) && n in holders && n in mem && n != root && mem[n].refcount > 0
    requires var lowered := Counted(mem, root, n, mem[n].refcount - 1);
             && TreeOk(lowered, sh, root) && Kept(lowered, mem')
             && mem'.Keys == mem.Keys - if lowered[n].refcount == 0 && lowered[n].child == NULL then Doomed(lowered, sh, root, n) else {}
    ensures RefsOk(mem', root, holders - multiset{n})
  {
    var lowered := Counted(mem, root, n, mem[n].refcount - 1);
    var left := holders - multiset{n};
    forall m | m in mem' ensures mem'[m].refcount == if m == root then 0 else left[m] {
      assert SameNode(lowered[m], mem'[m]);
    }
    forall h | h in left ensures h in mem' {
      assert h in mem && (h != root ==> lowered[h].refcount == left[h] > 0);
      if lowered[n].refcount == 0 && lowered[n].child == NULL && h in Doomed(lowered, sh, root, n) {
        DoomedUnused(lowered, sh, root, n, h);
        assert false;
      }
    }
  }

  /** What survives is still what the file system says. */
  lemma {:induction false} KeptCoherent(mem: Memory, mem': Memory, sh': Shape, root: Ptr, fs: Fs)
    requires Coherent(mem, root, fs) && Kept(mem, mem') && TreeOk(mem', sh', root)
    ensures Coherent(mem', root, fs)
  {
    forall m | m in mem' ensures NodeTrue(mem', root, fs, m) {
      assert SameNode(mem[m], mem'[m]) && NodeTrue(mem, root, fs, m) && PlaceOk(mem', sh', root, m);
      if m != root {
        assert SameNode(mem[mem[m].parent], mem'[mem[m].parent]);
      }
    }
  }

  lemma {:induction false} CountedCoherent(mem: Memory, root: Ptr, fs: Fs, n: Ptr, count: nat)
    requires Coherent(mem, root, fs) && n in mem
    ensures Coherent(Counted(mem, root, n, count), root, fs)
  {
    var mem' := Counted(mem, root, n, count);
    forall m | m in mem' ensures NodeTrue(mem', root, fs, m) {
      assert NodeTrue(mem, root, fs, m);
    }
  }

  /** Where a lookup of `path` relative to node `at` (NULL: the root) starts. */
  function StartAt(root: Ptr, at: Ptr, path: Path): Ptr {
    if at == NULL || (path != [] && path[0] == SLASH) then root else at
  }

  /** What the lookup finds, asking the file system alone. */
  ghost function Answer(mem: Memory, sh: Shape, root: Ptr, fs: Fs, at: Ptr, path: Path): Found
    requires TreeOk(mem, sh, root) && (at == NULL || at in mem)
  {
    Walk(fs, Chain(mem, sh, root, StartAt(root, at, path)), Elements(Stripped(path)))
  }

  /** Nothing is cached as "." or "..", and looking the path up leaves it so. */
  ghost predicate Tidy(mem: Memory, sh: Shape, root: Ptr, at: Ptr, path: Path)
    requires TreeOk(mem, sh, root) && (at == NULL || at in mem)
  {
    NoDots(mem, root) && !DotAfterTop(|Chain(mem, sh, root, StartAt(root, at, path))| - 1, Elements(Stripped(path)))
  }

  lemma {:induction false} AnswerKept(mem: Memory, sh: Shape, mem': Memory, sh': Shape, root: Ptr, fs: Fs, at: Ptr, path: Path)
    requires TreeOk(mem, sh, root) && TreeOk(mem', sh', root) && Grown(mem, mem') && (at == NULL || (at in mem && at in mem'))
    ensures Answer(mem', sh', root, fs, at, path) == Answer(mem, sh, root, fs, at, path)
  {
    ChainKept(mem, sh, mem', sh', root, StartAt(root, at, path));
  }

  // ---- where lookups start ----------------------------------------------------------------

  /** A path that is looked up from where one is. */
  predicate Relative(p: Path) {
    p == [] || p[0] != SLASH
  }

  /** Looking p up from `at` does not end with a ".." at the root, or q does not begin with
      ".". */
  ghost predicate Splits(mem: Memory, sh: Shape, root: Ptr, at: Ptr, p: Path, q: Path)
    requires TreeOk(mem, sh, root) && (at == NULL || at in mem)
  {
    var depth := if at == NULL || !Relative(p) then 0 else |Chain(mem, sh, root, at)| - 1;
    var rest := Elements(Stripped(q));
    !EndsAtTop(depth, Elements(Stripped(p))) || rest == [] || rest[0] != DirBlocks.DOT
  }

  /** The root directory holds "." as on a volume. */
  ghost predicate OnVolume(mem: Memory, root: Ptr, fs: Fs) {
    root in mem && DotAtRoot(fs, mem[root].ino)
  }

  /** Node n of mem' is where p leads from `at` in mem. Then a relative path looked up from n
      leads where p, a slash and that path lead from `at`; to the same inode at least, even if
      a ".." at the root is followed by ".". */
  lemma {:induction false} LookupFrom(mem: Memory, sh: Shape, mem': Memory, sh': Shape, root: Ptr, fs: Fs, at: Ptr, p: Path, n: Ptr, q: Path)
    requires TreeOk(mem, sh, root) && TreeOk(mem', sh', root) && (at == NULL || at in mem) && n in mem'
    requires Answer(mem, sh, root, fs, at, p) == Found(Chain(mem', sh', root, n))
    requires p != [] && Relative(q)
    ensures Splits(mem, sh, root, at, p, q) ==>
              Answer(mem, sh, root, fs, at, p + [SLASH] + q) == Answer(mem', sh', root, fs, n, q)
    ensures OnVolume(mem, root, fs) ==>
              SameEnd(Answer(mem', sh', root, fs, n, q), Answer(mem, sh, root, fs, at, p + [SLASH] + q))
  {
    var start := StartAt(root, at, p);
    var es, rest := Elements(Stripped(p)), Elements(Stripped(q));
    hide Chain, TreeOk, Walk, Elements, Stripped, EndsAtTop, DotAtRoot;
    RootIn(mem, sh, root);
    NotNull(mem', sh', root, n);
    ElementsConcat(p, q);
    ChainMeans(mem, sh, root, root);
    ChainRoot(mem, sh, root, start);
    if Splits(mem, sh, root, at, p, q) {
      WalkConcat(fs, Chain(mem, sh, root, start), es, rest);
    }
    if OnVolume(mem, root, fs) {
      ConcatOnVolume(fs, Chain(mem, sh, root, start), es, rest);
    }
  }

  /** Before, lookups of q went from `was`; now they go from n, where p led from `at`: a
      relative q leads where p/q led from `at`, an absolute one where it did. */
  ghost predicate LeadsOn(mem: Memory, sh: Shape, mem': Memory, sh': Shape, root: Ptr, fs: Fs, at: Ptr, p: Path, was: Ptr, n: Ptr, q: Path)
    requires TreeOk(mem, sh, root) && TreeOk(mem', sh', root) && (at == NULL || at in mem) && (was == NULL || was in mem) && n in mem'
  {
    var now, before := Answer(mem', sh', root, fs, n, q), Answer(mem, sh, root, fs, at, if p == [] then q else p + [SLASH] + q);
    && (Relative(q) && Splits(mem, sh, root, at, p, q) ==> now == before)
    && (Relative(q) && OnVolume(mem, root, fs) ==> SameEnd(now, before))
    && (!Relative(q) ==> now == Answer(mem, sh, root, fs, was, q))
  }

  lemma {:induction false} ItLeadsOn(mem: Memory, sh: Shape, mem': Memory, sh': Shape, root: Ptr, fs: Fs, at: Ptr, p: Path, was: Ptr, n: Ptr, q: Path)
    requires TreeOk(mem, sh, root) && TreeOk(mem', sh', root) && (at == NULL || at in mem) && (was == NULL || was in mem)
    requires n in mem' && Answer(mem, sh, root, fs, at, p) == Found(Chain(mem', sh', root, n)) && SameRoot(mem, mem', root)
    ensures LeadsOn(mem, sh, mem', sh', root, fs, at, p, was, n, q)
  {
    hide TreeOk, Chain, Splits, OnVolume, SameEnd, Answer, SameRoot, Relative;
    if !Relative(q) {
      AbsoluteSame(mem, sh, mem', sh', root, fs, was, n, q);
    } else if p == [] {
      HereSame(mem, sh, mem', sh', root, fs, at, n, q);
    } else {
      LookupFrom(mem, sh, mem', sh', root, fs, at, p, n, q);
    }
  }

  ghost predicate SameRoot(mem: Memory, mem': Memory, root: Ptr) {
    root in mem && root in mem' && mem'[root].ino == mem[root].ino
  }

  lemma {:induction false} GrownRoot(mem: Memory, sh: Shape, mem': Memory, root: Ptr)
    requires TreeOk(mem, sh, root) && Grown(mem, mem')
    ensures SameRoot(mem, mem', root)
  {
    assert SameNode(mem[root], mem'[root]);
  }

  lemma {:induction false} KindsRoot(mem: Memory, mem': Memory, sh': Shape, root: Ptr)
    requires TreeOk(mem', sh', root) && SameKinds(mem, mem')
    ensures SameRoot(mem, mem', root)
  {
    assert KindKept(mem[root], mem'[root]);
  }

  lemma {:induction false} AbsoluteSame(mem: Memory, sh: Shape, mem': Memory, sh': Shape, root: Ptr, fs: Fs, at: Ptr, at': Ptr, q: Path)
    requires TreeOk(mem, sh, root) && TreeOk(mem', sh', root) && (at == NULL || at in mem) && (at' == NULL || at' in mem')
    requires !Relative(q) && SameRoot(mem, mem', root)
    ensures Answer(mem', sh', root, fs, at', q) == Answer(mem, sh, root, fs, at, q)
  {
    assert Chain(mem', sh', root, root) == Chain(mem, sh, root, root);
  }

  lemma {:induction false} HereSame(mem: Memory, sh: Shape, mem': Memory, sh': Shape, root: Ptr, fs: Fs, at: Ptr, n: Ptr, q: Path)
    requires TreeOk(mem, sh, root) && TreeOk(mem', sh', root) && (at == NULL || at in mem) && n in mem'
    requires Relative(q) && Answer(mem, sh, root, fs, at, []) == Found(Chain(mem', sh', root, n))
    ensures Answer(mem', sh', root, fs, n, q) == Answer(mem, sh, root, fs, at, q)
    ensures SameEnd(Answer(mem', sh', root, fs, n, q), Answer(mem, sh, root, fs, at, q))
  {
    hide Chain, TreeOk, Walk, Elements, Stripped;
    RootIn(mem, sh, root);
    NotNull(mem', sh', root, n);
    EmptyPath(fs, Chain(mem, sh, root, StartAt(root, at, [])));
  }

  lemma {:induction false} ChainRoot(mem: Memory, sh: Shape, root: Ptr, n: Ptr)
    requires TreeOk(mem, sh, root) && n in mem
    ensures root in mem && Chain(mem, sh, root, n)[0] == mem[root].ino
    decreases if n in sh.depth then sh.depth[n] else 0
  {
    if n != root {
      assert PlaceOk(mem, sh, root, n);
      ChainRoot(mem, sh, root, mem[n].parent);
    }
  }

  /** The empty path is the node itself, a plain name what its directory has under it, and an
      absolute path leads to the same from everywhere: where its rest leads from the root. */
  lemma {:induction false} LookupHere(mem: Memory, sh: Shape, root: Ptr, fs: Fs, n: Ptr, name: Name, q: Path)
    requires TreeOk(mem, sh, root) && n in mem && Relative(q)
    requires name != [] && SLASH !in name && !Names.Dots(name)
    ensures Answer(mem, sh, root, fs, n, []) == Found(Chain(mem, sh, root, n))
    ensures Answer(mem, sh, root, fs, n, name) == Down(fs, Chain(mem, sh, root, n), name)
    ensures root in mem && Answer(mem, sh, root, fs, NULL, q) == Answer(mem, sh, root, fs, root, q)
    ensures Answer(mem, sh, root, fs, n, [SLASH] + q) == Answer(mem, sh, root, fs, root, q)
  {
    hide Chain, TreeOk, Walk, Elements, Stripped;
    RootIn(mem, sh, root);
    NotNull(mem, sh, root, n);
    NotNull(mem, sh, root, root);
    EmptyPath(fs, Chain(mem, sh, root, n));
    BaseElements(name);
    OneMore(fs, Chain(mem, sh, root, n), false, name);
    ElementsConcat([], q);
    NoStripped();
    assert [] + [SLASH] + q == [SLASH] + q && [] + Elements(Stripped(q)) == Elements(Stripped(q));
    assert name[0] in name;
  }

  lemma {:induction false} NoStripped()
    ensures Elements(Stripped([])) == []
  {
  }

  /** A result code: 0 or a negative error number. */
  type Code = x: int | x <= 0

  /** open flags; `acc` is 0 for reading, 1 for writing, 2 for both. */
  datatype Flags = Flags(acc: nat, exec: bool, directory: bool, creat: bool, append: bool, trunc: bool)

  /** What the file system and the permission check answer. */
  datatype Env = Env(allowed: bool, dirCode: Code, truncCode: Code, openCode: Code)

  /** vfs_open_node */
  function OpenNode(isDir: bool, f: Flags, env: Env): (res: Code)
    ensures res == 0 ==> env.allowed && (isDir <==> f.directory)
  {
    if !env.allowed then EACCES
    else if f.directory then (if !isDir then ENOTDIR else env.dirCode)
    else if f.creat then EINVAL
    else if f.exec && f.acc != 0 then EACCES
    else if isDir then EISDIR
    else if f.append then EINVAL
    else if f.trunc && env.truncCode != 0 then env.truncCode
    else env.openCode
  }

  /** The checks of vfs_open_node pass, and c is what the file system answers then. */
  predicate FsSays(isDir: bool, f: Flags, env: Env, c: Code) {
    && env.allowed
    && if f.directory then isDir && env.dirCode == c
       else !isDir && !f.append && !(f.exec && f.acc != 0) && c == if f.trunc && env.truncCode != 0 then env.truncCode else env.openCode
  }

  /** Without O_CREAT, as its callers pass the flags on: when vfs_open_node opens, and when each
      of its errors comes. But for O_EXEC the access mode does not matter. */
  lemma {:induction false} OpenExact(isDir: bool, f: Flags, env: Env, acc: nat)
    requires !f.creat
    ensures var res := OpenNode(isDir, f, env);
            && (res == 0 <==>
                  env.allowed && if f.directory then isDir && env.dirCode == 0
                                 else !isDir && !(f.exec && f.acc > 0) && !f.append && (f.trunc ==> env.truncCode == 0) && env.openCode == 0)
            && (res == EACCES <==> !env.allowed || (!f.directory && f.exec && f.acc > 0) || FsSays(isDir, f, env, EACCES))
            && (res == ENOTDIR <==> (env.allowed && f.directory && !isDir) || FsSays(isDir, f, env, ENOTDIR))
            && (res == EISDIR <==> (env.allowed && !f.directory && !(f.exec && f.acc > 0) && isDir) || FsSays(isDir, f, env, EISDIR))
            && (res == EINVAL <==>
                  (env.allowed && !f.directory && !(f.exec && f.acc > 0) && !isDir && f.append) || FsSays(isDir, f, env, EINVAL))
            && (res !in {EACCES, ENOTDIR, EISDIR, EINVAL} ==> FsSays(isDir, f, env, res))
            && (!f.exec ==> OpenNode(isDir, f.(acc := acc), env) == res)
  {
  }

  /** The node at the place a path leads to: where it was found, or else below its parent,
      with the number the new file got. */
  ghost predicate OpenedAt(mem: Memory, sh: Shape, root: Ptr, found: Found, parent: Found, ino: nat, node: Ptr)
    requires TreeOk(mem, sh, root)
  {
    && node in mem
    && match found
       case Found(pos) => Chain(mem, sh, root, node) == pos
       case NotFound => parent.Found? && Chain(mem, sh, root, node) == parent.at + [ino]
  }

  /** `now` is one name below where the parent was found. */
  ghost predicate Below(parent: Found, ino: nat, now: Found) {
    parent.Found? && now == Found(parent.at + [ino])
  }

  class Vfs {
    const cache: Cache
    var fs: Fs
    var cwd: Ptr
    // The vnodes of the open files.
    ghost var opens: multiset<Ptr>

    /** Who uses which vnode: open files and the working directory. */
    ghost function Holders(): multiset<Ptr>
      reads this
    {
      opens + if cwd == NULL then multiset{} else multiset{cwd}
    }

    /** The cache is a tree that agrees with the file system, and counts are right, with
        `extra` uses a call in progress has on top. */
    ghost predicate Good(extra: multiset<Ptr>)
      reads this, cache
    {
      cache.Valid() && Coherent(cache.mem, cache.root, fs) && RefsOk(cache.mem, cache.root, Holders() + extra)
    }

    ghost predicate Ready()
      reads this, cache
    {
      Good(multiset{})
    }

    constructor (cache: Cache, fs: Fs)
      requires cache.Valid() && Coherent(cache.mem, cache.root, fs) && cache.mem.Keys == {cache.root}
      requires cache.mem[cache.root].refcount == 0
      ensures this.cache == cache && this.fs == fs && cwd == NULL && opens == multiset{} && Ready()
    {
      this.cache, this.fs, cwd, opens := cache, fs, NULL, multiset{};
    }

    method Hold(n: Ptr, ghost extra: multiset<Ptr>)
      requires Good(extra) && n in cache.mem
      modifies cache
      ensures Good(extra + multiset{n}) && n in old(cache.mem)
      ensures cache.mem == Counted(old(cache.mem), cache.root, n, old(cache.mem)[n].refcount + 1)
      ensures n in cache.mem && Chain(cache.mem, cache.sh, cache.root, n) == old(Chain(cache.mem, cache.sh, cache.root, n))
    {
      hide TreeOk, Coherent, RefsOk, Counted, SameKinds, Chain;
      ghost var mem, sh := cache.mem, cache.sh;
      RefRefs(mem, cache.root, fs, Holders() + extra, n);
      cache.Ref(n);
      CountedKinds(mem, cache.root, n, mem[n].refcount + 1);
      CountedHas(mem, cache.root, n, mem[n].refcount + 1);
      KindsChain(mem, sh, cache.mem, cache.sh, cache.root, n);
      assert Holders() + (extra + multiset{n}) == Holders() + extra + multiset{n};
    }

    method Drop(n: Ptr, ghost extra: multiset<Ptr>)
      requires Good(extra) && n in extra
      modifies cache
      ensures Good(extra - multiset{n}) && SameKinds(old(cache.mem), cache.mem)
    {
      hide TreeOk, Coherent, RefsOk, Counted, Kept, Doomed, SameKinds;
      ghost var mem, sh, holders := cache.mem, cache.sh, Holders() + extra;
      HolderThere(mem, cache.root, holders, n);
      cache.Unref(n);
      assert Holders() + (extra - multiset{n}) == holders - multiset{n};
      KindsKept(mem, cache.mem, cache.root, n);
      if n == cache.root {
        RootUncounted(mem, cache.root, holders);
      } else {
        UnrefRefs(mem, cache.mem, sh, cache.root, holders, n);
        CountedCoherent(mem, cache.root, fs, n, mem[n].refcount - 1);
        KeptCoherent(Counted(mem, cache.root, n, mem[n].refcount - 1), cache.mem, cache.sh, cache.root, fs);
      }
    }

    /** The loop that skips leading slashes. */
    method Strip(path: Path) returns (r: Path)
      ensures r == Stripped(path)
    {
      var i := 0;
      while i < |path| && path[i] == SLASH
        invariant i <= |path| && Skip(path, 0) == Skip(path, i)
      {
        i := i + 1;
      }
      r := path[i..];
    }

    /** vfs_find */
    method Find(at: Ptr, path: Path, ghost extra: multiset<Ptr>) returns (res: int, node: Ptr)
      requires Good(extra) && (at == NULL || at in cache.mem)
      modifies cache
      ensures Good(extra) && Grown(old(cache.mem), cache.mem)
      ensures Looked(old(cache.mem), cache.mem, cache.sh, cache.root, fs,
                     Answer(old(cache.mem), old(cache.sh), cache.root, fs, at, path), res, node)
      ensures Tidy(old(cache.mem), old(cache.sh), cache.root, at, path) ==> NoDots(cache.mem, cache.root)
    {
      hide TreeOk, Coherent, RefsOk, Grown, Walk, Elements, Stripped, NoDots, DotAfterTop;
      ghost var mem := cache.mem;
      RootIn(mem, cache.sh, cache.root);
      var rest := Strip(path);
      var start := if at == NULL || (path != [] && path[0] == SLASH) then cache.root else at;
      res, node := FindTree(cache, fs, start, rest);
      GrownRefs(mem, cache.mem, cache.root, Holders() + extra);
    }

    /** vfs_open_node on a vnode that is held; on failure the use is given up. */
    method OpenHeld(node: Ptr, f: Flags, env: Env) returns (res: Code)
      requires Good(multiset{node}) && node in cache.mem
      modifies this`opens, cache
      ensures Ready() && res == OpenNode(old(cache.mem)[node].isDir, f, env)
      ensures opens == if res == 0 then old(opens) + multiset{node} else old(opens)
      ensures res == 0 ==> cache.mem == old(cache.mem) && cache.sh == old(cache.sh)
    {
      hide TreeOk, Coherent, RefsOk, OpenNode;
      res := OpenNode(cache.mem[node].isDir, f, env);
      if res < 0 {
        Drop(node, multiset{node});
        assert multiset{node} - multiset{node} == multiset{};
      } else {
        ghost var holders := Holders();
        opens := opens + multiset{node};
        assert Holders() + multiset{} == holders + multiset{node};
      }
    }

    /** vfs_stat; `code` is what the file system answers. */
    method Stat(path: Path, code: Code) returns (res: int)
      requires Ready()
      modifies cache
      ensures Ready()
      ensures res == if CwdAnswer(old(cache.mem), old(cache.sh), path).Found? then code else NOENT
    {
      hide TreeOk, Coherent, RefsOk, Grown, Answer;
      CwdThere();
      var node;
      res, node := Find(cwd, path, multiset{});
      if res != 0 {
        return;
      }
      Hold(node, multiset{});
      res := code;
      Drop(node, multiset{} + multiset{node});
      assert multiset{} + multiset{node} - multiset{node} == multiset{};
    }

    /** The lookup of a path from the working directory, on given memory. */
    ghost function CwdAnswer(mem: Memory, sh: Shape, path: Path): Found
      requires TreeOk(mem, sh, cache.root)
      reads this
    {
      if cwd == NULL || cwd in mem then Answer(mem, sh, cache.root, fs, cwd, path) else NotFound
    }

    lemma CwdThere()
      requires Ready()
      ensures cwd == NULL || cwd in cache.mem
    {
      CwdHeld(multiset{});
    }

    lemma CwdHeld(extra: multiset<Ptr>)
      requires Good(extra)
      ensures cwd == NULL || cwd in cache.mem
    {
      if cwd != NULL {
        assert cwd in Holders() + extra;
      }
    }

    /** vfs_access; `F_OK` asks only whether the file is there. */
    method Access(path: Path, exists_: bool, code: Code, verdict: Code) returns (res: int)
      requires Ready()
      modifies cache
      ensures Ready()
      ensures res == if !CwdAnswer(old(cache.mem), old(cache.sh), path).Found? then NOENT
                     else if exists_ then 0 else if code < 0 then code else verdict
    {
      hide TreeOk, Coherent, RefsOk, Grown, Answer;
      CwdThere();
      var node;
      res, node := Find(cwd, path, multiset{});
      if res != 0 {
        return;
      }
      Hold(node, multiset{});
      Drop(node, multiset{} + multiset{node});
      assert multiset{} + multiset{node} - multiset{node} == multiset{};
      res := if exists_ then 0 else if code < 0 then code else verdict;
    }

    /** vfs_close */
    method Close(node: Ptr)
      requires Ready() && node in opens
      modifies this`opens, cache
      ensures Ready() && opens == old(opens) - multiset{node}
    {
      hide TreeOk, Coherent, RefsOk;
      ghost var holders := Holders();
      opens := opens - multiset{node};
      assert Holders() + multiset{node} == holders + multiset{};
      Drop(node, multiset{node});
      assert multiset{node} - multiset{node} == multiset{};
    }

    /** vfs_setcwd_rel: on success the working directory changes hands, on failure nothing
        does. From then on a relative path q leads where path/q led from `at`. */
    method SetCwd(at: Ptr, path: Path, permitted: Code) returns (res: int)
      requires Ready() && (at == NULL || at in cache.mem)
      modifies this`cwd, cache
      ensures Ready()
      ensures res != 0 ==> cwd == old(cwd)
      ensures res == 0 ==> cwd != NULL && cwd in cache.mem && cache.mem[cwd].isDir && permitted == 0
      ensures match Answer(old(cache.mem), old(cache.sh), cache.root, fs, at, path)
              case NotFound => res == NOENT
              case Found(pos) =>
                && res == (if Last(pos) !in fs.dirs then ENOTDIR else if permitted < 0 then permitted else 0)
                && (res == 0 ==> Chain(cache.mem, cache.sh, cache.root, cwd) == pos)
      ensures res == 0 ==>
                forall q :: LeadsOn(old(cache.mem), old(cache.sh), cache.mem, cache.sh, cache.root, fs, at, path, old(cwd), cwd, q)
    {
      hide TreeOk, Coherent, RefsOk, Grown, Answer, Chain, SameKinds, Counted, LeadsOn;
      ghost var mem0, sh0, was := cache.mem, cache.sh, cwd;
      CwdThere();
      var node;
      res, node := Find(at, path, multiset{});
      if res != 0 {
        return;
      }
      ghost var mem1 := cache.mem;
      GrownRoot(mem0, sh0, mem1, cache.root);
      NotNull(cache.mem, cache.sh, cache.root, node);
      ChainMeans(cache.mem, cache.sh, cache.root, node);
      NodeIs(cache.mem, cache.root, fs, node);
      assert multiset{} + multiset{node} == multiset{node} && multiset{node} - multiset{node} == multiset{};
      Hold(node, multiset{});
      ghost var mem2, sh2 := cache.mem, cache.sh;
      CountedKinds(mem1, cache.root, node, mem1[node].refcount + 1);
      KindsRoot(mem1, mem2, sh2, cache.root);
      KindAt(mem1, mem2, node);
      if !cache.mem[node].isDir {
        Drop(node, multiset{node});
        return ENOTDIR;
      }
      if permitted < 0 {
        Drop(node, multiset{node});
        return permitted;
      }
      TakeCwd(node);
      KindsRoot(mem2, cache.mem, cache.sh, cache.root);
      KindAt(mem2, cache.mem, node);
      KindsChain(mem2, sh2, cache.mem, cache.sh, cache.root, node);
      forall q ensures LeadsOn(mem0, sh0, cache.mem, cache.sh, cache.root, fs, at, path, was, cwd, q) {
        ItLeadsOn(mem0, sh0, cache.mem, cache.sh, cache.root, fs, at, path, was, cwd, q);
      }
      res := 0;
    }

    /** The end of vfs_setcwd_rel: the directory that is held takes the place of the former. */
    method TakeCwd(node: Ptr)
      requires Good(multiset{node}) && node in cache.mem && node != NULL
      modifies this`cwd, cache
      ensures Ready() && cwd == node && cwd in cache.mem && SameKinds(old(cache.mem), cache.mem)
    {
      hide TreeOk, Coherent, RefsOk, SameKinds;
      var before := cwd;
      ghost var holders := Holders();
      cwd := node;
      if before != NULL {
        assert Holders() + multiset{before} == holders + multiset{node};
        Drop(before, multiset{before});
        assert multiset{before} - multiset{before} == multiset{};
      } else {
        assert Holders() + multiset{} == holders + multiset{node};
        AllKinds(cache.mem);
      }
      CwdThere();
    }

    /** In terms of calls: once the working directory is where p led, stat of q answers as
        a lookup of p/q did before. */
    method ChdirStat(p: Path, permitted: Code, q: Path, code: Code) returns (res: int, stat: int)
      requires Ready() && p != [] && Relative(q)
      modifies this`cwd, cache
      ensures Ready() && old(cwd == NULL || cwd in cache.mem)
      ensures res == 0 && (old(Splits(cache.mem, cache.sh, cache.root, cwd, p, q)) || old(OnVolume(cache.mem, cache.root, fs))) ==>
                stat == if old(CwdAnswer(cache.mem, cache.sh, p + [SLASH] + q)).Found? then code else NOENT
    {
      hide TreeOk, Coherent, RefsOk, Answer, Splits, OnVolume;
      CwdThere();
      ghost var mem, sh, was := cache.mem, cache.sh, cwd;
      res := SetCwd(cwd, p, permitted);
      ghost var mem', sh' := cache.mem, cache.sh;
      stat := Stat(q, code);
      assert res == 0 ==> LeadsOn(mem, sh, mem', sh', cache.root, fs, was, p, was, cwd, q);
    }

    /** Where the path's last component is to go: the lookup of the parent. */
    ghost function ParentAnswer(mem: Memory, sh: Shape, path: Path): Found
      requires TreeOk(mem, sh, cache.root)
      reads this
    {
      if path != [] && path[0] == SLASH then Answer(mem, sh, cache.root, fs, NULL, Parent(path))
      else CwdAnswer(mem, sh, if Parent(path) == [] then DirBlocks.DOT else Parent(path))
    }

    /** The part of vfs_creat and vfs_mkdir that finds the parent. */
    method FindParent(path: Path) returns (res: int, node: Ptr)
      requires Ready()
      modifies cache
      ensures Ready() && Grown(old(cache.mem), cache.mem)
      ensures Looked(old(cache.mem), cache.mem, cache.sh, cache.root, fs, ParentAnswer(old(cache.mem), old(cache.sh), path), res, node)
    {
      hide TreeOk, Coherent, RefsOk, Grown, Answer, Looked;
      CwdThere();
      var parent := Parent(path);
      if path != [] && path[0] == SLASH {
        res, node := Find(NULL, parent, multiset{});
      } else {
        if parent == [] {
          parent := DirBlocks.DOT;
        }
        res, node := Find(cwd, parent, multiset{});
      }
    }

    /** The end of vfs_creat_internal, once the file is made: a node for it hangs below the
        parent, and is held. */
    method AttachHeld(parent: Ptr, name: Name, ino: nat) returns (node: Ptr)
      requires Good(multiset{parent}) && parent in cache.mem && cache.mem[parent].isDir
      requires cache.mem[parent].ino in fs.dirs && name !in fs.dirs[cache.mem[parent].ino]
      requires FreshIno(cache.mem, cache.root, fs, ino)
      modifies this`fs, cache
      ensures Good(multiset{parent} + multiset{node}) && fs == WithFile(old(fs), old(cache.mem)[parent].ino, name, ino)
      ensures node in cache.mem && node !in old(cache.mem) && !cache.mem[node].isDir
      ensures cache.mem[node].parent == parent && cache.mem[node].name == name && cache.mem[node].ino == ino
      ensures Chain(cache.mem, cache.sh, cache.root, node) == old(Chain(cache.mem, cache.sh, cache.root, parent)) + [ino]
      ensures SameStart(old(cache.mem), old(cache.sh), cache.mem, cache.sh, cache.root, cwd)
    {
      hide TreeOk, Coherent, RefsOk, Grown, FreshIno, Attached, NodeTrue, SameKinds, Chain, SameStart;
      CwdHeld(multiset{parent});
      ghost var mem0, sh0, fs0 := cache.mem, cache.sh, fs;
      RootParent(mem0, sh0, cache.root, parent);
      NotCached(mem0, sh0, cache.root, fs, parent, name);
      fs := WithFile(fs, cache.mem[parent].ino, name, ino);
      FileCoherent(mem0, sh0, cache.root, fs0, parent, name, ino);
      RootIn(mem0, sh0, cache.root);
      node := cache.Attach(parent, name, ino, false);
      AttachGrows(mem0, cache.root, fs, parent, node, name, ino, false);
      GrownRefs(mem0, cache.mem, cache.root, Holders() + multiset{parent});
      AttachedNode(mem0, parent, node, name, ino);
      ChainKept(mem0, sh0, cache.mem, cache.sh, cache.root, parent);
      ChainStep(cache.mem, cache.sh, cache.root, node);
      ghost var mem1, sh1 := cache.mem, cache.sh;
      Hold(node, multiset{parent});
      HeldStart(mem0, sh0, mem1, sh1, cache.mem, cache.sh, cache.root, cwd, node);
      HeldNode(mem0, parent, node, name, ino, cache.root);
    }

    /** The same, with the parent given up. */
    method AttachNew(parent: Ptr, name: Name, ino: nat) returns (node: Ptr)
      requires Good(multiset{parent}) && parent in cache.mem && cache.mem[parent].isDir
      requires cache.mem[parent].ino in fs.dirs && name !in fs.dirs[cache.mem[parent].ino]
      requires FreshIno(cache.mem, cache.root, fs, ino)
      modifies this`fs, cache
      ensures Good(multiset{node}) && fs == WithFile(old(fs), old(cache.mem)[parent].ino, name, ino)
      ensures node in cache.mem && node !in old(cache.mem) && !cache.mem[node].isDir && parent in cache.mem
      ensures cache.mem[node].parent == parent && cache.mem[node].name == name && cache.mem[node].ino == ino
      ensures Chain(cache.mem, cache.sh, cache.root, node) == old(Chain(cache.mem, cache.sh, cache.root, parent)) + [ino]
      ensures SameStart(old(cache.mem), old(cache.sh), cache.mem, cache.sh, cache.root, cwd)
    {
      hide TreeOk, Coherent, RefsOk, FreshIno, SameKinds, Chain, SameStart, WithFile;
      ghost var mem0, sh0 := cache.mem, cache.sh;
      RootIn(mem0, sh0, cache.root);
      node := AttachHeld(parent, name, ino);
      ghost var mem, sh := cache.mem, cache.sh;
      assert multiset{parent} + multiset{node} - multiset{parent} == multiset{node};
      Drop(parent, multiset{parent} + multiset{node});
      HolderThere(cache.mem, cache.root, Holders() + multiset{node}, node);
      KindAt(mem, cache.mem, node);
      KindsChain(mem, sh, cache.mem, cache.sh, cache.root, node);
      ParentThere(cache.mem, cache.sh, cache.root, node);
      CwdHeld(multiset{node});
      KindsStart(mem, sh, cache.mem, cache.sh, cache.root, cwd);
      StartTwice(mem0, sh0, mem, sh, cache.mem, cache.sh, cache.root, cwd);
    }

    /** The part of vfs_creat that follows once the parent is held: make the file, attach a
        node for it and open it. */
    method CreatIn(parent: Ptr, name: Name, f: Flags, env: Env, made: Code, ino: nat, hasFile: bool) returns (res: int, node: Ptr)
      requires Good(multiset{parent}) && parent in cache.mem && cache.mem[parent].isDir
      requires cache.mem[parent].ino in fs.dirs && name !in fs.dirs[cache.mem[parent].ino]
      requires made == 0 ==> FreshIno(cache.mem, cache.root, fs, ino)
      modifies this`fs, this`opens, cache
      ensures Ready()
      ensures opens == if res == 0 then old(opens) + multiset{node} else old(opens)
      ensures var d := old(cache.mem)[parent].ino;
              && fs == (if made == 0 then WithFile(old(fs), d, name, ino) else old(fs))
              && res == if made != 0 then made else if !hasFile then EINVAL else OpenNode(false, f.(creat := false), env)
      ensures res == 0 ==>
                && node in cache.mem && node !in old(cache.mem) && parent in cache.mem
                && cache.mem[node].parent == parent && cache.mem[node].name == name && cache.mem[node].ino == ino
                && Chain(cache.mem, cache.sh, cache.root, node) == old(Chain(cache.mem, cache.sh, cache.root, parent)) + [ino]
                && SameStart(old(cache.mem), old(cache.sh), cache.mem, cache.sh, cache.root, cwd)
    {
      hide TreeOk, Coherent, RefsOk, FreshIno, OpenNode, Chain, SameStart;
      node := NULL;
      assert multiset{parent} - multiset{parent} == multiset{};
      if made != 0 {
        Drop(parent, multiset{parent});
        return made, node;
      }
      node := AttachNew(parent, name, ino);
      if !hasFile {
        Drop(node, multiset{node});
        assert multiset{node} - multiset{node} == multiset{};
        return EINVAL, node;
      }
      res := OpenHeld(node, f.(creat := false), env);
    }

    lemma {:induction false} ParentKept(mem: Memory, sh: Shape, mem': Memory, sh': Shape, path: Path)
      requires TreeOk(mem, sh, cache.root) && TreeOk(mem', sh', cache.root) && Grown(mem, mem') && (cwd == NULL || cwd in mem)
      ensures ParentAnswer(mem', sh', path) == ParentAnswer(mem, sh, path)
      ensures CwdAnswer(mem', sh', path) == CwdAnswer(mem, sh, path)
    {
      var start := if path != [] && path[0] == SLASH then NULL else cwd;
      var parent := if !(path != [] && path[0] == SLASH) && Parent(path) == [] then DirBlocks.DOT else Parent(path);
      AnswerKept(mem, sh, mem', sh', cache.root, fs, cwd, path);
      AnswerKept(mem, sh, mem', sh', cache.root, fs, start, parent);
    }

    /** The path's elements are those its parent leads along, and then the last component. */
    lemma {:induction false} ParentWalk(mem: Memory, sh: Shape, path: Path)
      requires TreeOk(mem, sh, cache.root) && (cwd == NULL || cwd in mem)
      ensures var at, es := Chain(mem, sh, cache.root, StartAt(cache.root, cwd, path)), Elements(Stripped(Parent(path)));
              && ParentAnswer(mem, sh, path) == Walk(fs, at, es)
              && Elements(Stripped(path)) == es + if Basename(path) == [] then [] else [Basename(path)]
    {
      hide TreeOk, Chain, Walk, Elements, Basename;
      RootIn(mem, sh, cache.root);
      ElementsOfParent(path);
      if Relative(path) {
        RelativeStripped(path);
        NoStripped();
        DotAlone(fs, Chain(mem, sh, cache.root, StartAt(cache.root, cwd, path)));
      }
    }

    /** If the path leads nowhere but its parent is there, it has a last component, which the
        parent does not have. */
    lemma {:induction false} NameMissing(mem: Memory, sh: Shape, path: Path)
      requires TreeOk(mem, sh, cache.root) && (cwd == NULL || cwd in mem)
      requires CwdAnswer(mem, sh, path).NotFound? && ParentAnswer(mem, sh, path).Found?
      ensures Down(fs, ParentAnswer(mem, sh, path).at, Basename(path)).NotFound?
    {
      hide TreeOk, Chain, Walk, Elements, Basename, Down, ParentAnswer;
      RootIn(mem, sh, cache.root);
      ParentWalk(mem, sh, path);
      assert Elements(Stripped(Parent(path))) + [] == Elements(Stripped(Parent(path)));
      WalkMiss(fs, Chain(mem, sh, cache.root, StartAt(cache.root, cwd, path)), Elements(Stripped(Parent(path))), Basename(path));
    }

    /** Once the parent has it, the path leads to it. */
    lemma {:induction false} NameThere(mem: Memory, sh: Shape, path: Path, fs': Fs, ino: nat)
      requires TreeOk(mem, sh, cache.root) && (cwd == NULL || cwd in mem)
      requires CwdAnswer(mem, sh, path).NotFound? && ParentAnswer(mem, sh, path).Found? && Extends(fs, fs')
      requires Down(fs', ParentAnswer(mem, sh, path).at, Basename(path)) == Found(ParentAnswer(mem, sh, path).at + [ino])
      ensures Answer(mem, sh, cache.root, fs', cwd, path) == Found(ParentAnswer(mem, sh, path).at + [ino])
    {
      hide TreeOk, Chain, Walk, Elements, Basename, Down, ParentAnswer, Extends;
      RootIn(mem, sh, cache.root);
      ParentWalk(mem, sh, path);
      assert Elements(Stripped(Parent(path))) + [] == Elements(Stripped(Parent(path)));
      WalkNew(fs, fs', Chain(mem, sh, cache.root, StartAt(cache.root, cwd, path)), Elements(Stripped(Parent(path))), Basename(path), ino);
    }

    /** So it does once the file is made. */
    lemma {:induction false} FileThere(mem: Memory, sh: Shape, path: Path, ino: nat)
      requires TreeOk(mem, sh, cache.root) && (cwd == NULL || cwd in mem) && CwdAnswer(mem, sh, path).NotFound?
      ensures match ParentAnswer(mem, sh, path)
              case NotFound => true
              case Found(pp) => Last(pp) in fs.dirs ==>
                                  Answer(mem, sh, cache.root, WithFile(fs, Last(pp), Basename(path), ino), cwd, path) == Found(pp + [ino])
    {
      hide TreeOk, Chain, Walk, Elements, Basename, ParentAnswer, CwdAnswer;
      if ParentAnswer(mem, sh, path).Found? && Last(ParentAnswer(mem, sh, path).at) in fs.dirs {
        NameMissing(mem, sh, path);
        NameThere(mem, sh, path, WithFile(fs, Last(ParentAnswer(mem, sh, path).at), Basename(path), ino), ino);
      }
    }

    /** Or the directory. */
    lemma {:induction false} DirThere(mem: Memory, sh: Shape, path: Path, ino: nat, made: Code)
      requires TreeOk(mem, sh, cache.root) && (cwd == NULL || cwd in mem) && CwdAnswer(mem, sh, path).NotFound?
      requires made == 0 ==> ino !in fs.dirs
      ensures match ParentAnswer(mem, sh, path)
              case NotFound => true
              case Found(pp) => Last(pp) in fs.dirs && made == 0 ==>
                                  Answer(mem, sh, cache.root, WithDir(fs, Last(pp), Basename(path), ino), cwd, path) == Found(pp + [ino])
    {
      hide TreeOk, Chain, Walk, Elements, Basename, ParentAnswer, CwdAnswer;
      if ParentAnswer(mem, sh, path).Found? && Last(ParentAnswer(mem, sh, path).at) in fs.dirs && made == 0 {
        NameMissing(mem, sh, path);
        NameThere(mem, sh, path, WithDir(fs, Last(ParentAnswer(mem, sh, path).at), Basename(path), ino), ino);
      }
    }

    /** The part of vfs_creat for a path that leads nowhere. */
    method CreatNew(path: Path, f: Flags, env: Env, writable: bool, made: Code, ino: nat, hasFile: bool) returns (res: int, node: Ptr)
      requires Ready() && (made == 0 ==> FreshIno(cache.mem, cache.root, fs, ino))
      requires CwdAnswer(cache.mem, cache.sh, path).NotFound?
      modifies this`fs, this`opens, cache
      ensures Ready()
      ensures opens == if res == 0 then old(opens) + multiset{node} else old(opens)
      ensures Creation(old(fs), fs, NotFound, old(ParentAnswer(cache.mem, cache.sh, path)),
                       Basename(path), f, env, writable, made, ino, hasFile, res)
      ensures res == 0 ==> OpenedAt(cache.mem, cache.sh, cache.root, NotFound, old(ParentAnswer(cache.mem, cache.sh, path)), ino, node)
      ensures res == 0 ==> SameStart(old(cache.mem), old(cache.sh), cache.mem, cache.sh, cache.root, cwd)
    {
      hide TreeOk, Coherent, RefsOk, Grown, FreshIno, OpenNode, Answer, Basename, ParentAnswer, CwdAnswer, Creation, Chain, SameStart;
      ghost var mem0, sh0 := cache.mem, cache.sh;
      CreationNew(fs, ParentAnswer(mem0, sh0, path), Basename(path), f, env, writable, made, ino, hasFile);
      var parent;
      CwdThere();
      res, parent := FindParent(path);
      if res != 0 {
        return res, NULL;
      }
      NameMissing(mem0, sh0, path);
      ChainMeans(cache.mem, cache.sh, cache.root, parent);
      NodeIs(cache.mem, cache.root, fs, parent);
      FreshKept(mem0, sh0, cache.mem, cache.root, fs, ino, made);
      FreshCounted(cache.mem, cache.root, fs, ino, made, parent);
      assert multiset{} + multiset{parent} == multiset{parent} && multiset{parent} - multiset{parent} == multiset{};
      ghost var mem1, sh1 := cache.mem, cache.sh;
      Hold(parent, multiset{});
      ghost var mem2, sh2 := cache.mem, cache.sh;
      HeldStart(mem0, sh0, mem1, sh1, mem2, sh2, cache.root, cwd, parent);
      if !cache.mem[parent].isDir {
        Drop(parent, multiset{parent});
        return ENOTDIR, NULL;
      }
      if !writable {
        Drop(parent, multiset{parent});
        return EACCES, NULL;
      }
      res, node := CreatIn(parent, Basename(path), f, env, made, ino, hasFile);
      if res == 0 {
        StartTwice(mem0, sh0, mem2, sh2, cache.mem, cache.sh, cache.root, cwd);
      }
    }

    /** vfs_creat: an existing file is opened, for which the code asserts that there is a
        descriptor; otherwise the file system makes one (`made` and `ino` are its answer). */
    method Creat(path: Path, f: Flags, env: Env, writable: bool, made: Code, ino: nat, hasFile: bool) returns (res: int, node: Ptr)
      requires Ready() && (made == 0 ==> FreshIno(cache.mem, cache.root, fs, ino))
      requires CwdAnswer(cache.mem, cache.sh, path).Found? ==> hasFile
      modifies this`fs, this`opens, cache
      ensures Ready()
      ensures opens == if res == 0 then old(opens) + multiset{node} else old(opens)
      ensures Creation(old(fs), fs, old(CwdAnswer(cache.mem, cache.sh, path)), old(ParentAnswer(cache.mem, cache.sh, path)),
                       Basename(path), f, env, writable, made, ino, hasFile, res)
      ensures res == 0 ==>
                OpenedAt(cache.mem, cache.sh, cache.root, old(CwdAnswer(cache.mem, cache.sh, path)),
                         old(ParentAnswer(cache.mem, cache.sh, path)), ino, node)
      ensures res == 0 ==> CwdAnswer(cache.mem, cache.sh, path) == Found(Chain(cache.mem, cache.sh, cache.root, node))
    {
      hide TreeOk, Coherent, RefsOk, Grown, FreshIno, OpenNode, Answer, Basename, ParentAnswer, Creation, Chain, SameStart, WithFile;
      ghost var mem0, sh0, fs0, parent := cache.mem, cache.sh, fs, ParentAnswer(cache.mem, cache.sh, path);
      CreationFound(fs, CwdAnswer(mem0, sh0, path), ParentAnswer(mem0, sh0, path), Basename(path), f, env, writable, made, ino, hasFile);
      CwdThere();
      res, node := Find(cwd, path, multiset{});
      if res == 0 {
        res := OpenFound(mem0, sh0, path, node, f, env);
        return;
      }
      FileThere(mem0, sh0, path, ino);
      GrownKeeps(mem0, cache.mem, cwd);
      GrownStart(mem0, sh0, cache.mem, cache.sh, cache.root, cwd);
      ghost var mem1, sh1 := cache.mem, cache.sh;
      ParentKept(mem0, sh0, cache.mem, cache.sh, path);
      FreshKept(mem0, sh0, cache.mem, cache.root, fs, ino, made);
      res, node := CreatNew(path, f, env, writable, made, ino, hasFile);
      if res == 0 {
        CreationMade(fs0, fs, parent, Basename(path), f, env, writable, made, ino, hasFile);
        StartTwice(mem0, sh0, mem1, sh1, cache.mem, cache.sh, cache.root, cwd);
        StartSame(mem0, sh0, cache.mem, cache.sh, cache.root, fs, cwd, path);
      }
    }

    /** The part of vfs_open and vfs_creat for a path that leads to a node. */
    method OpenFound(ghost mem0: Memory, ghost sh0: Shape, path: Path, node: Ptr, f: Flags, env: Env) returns (res: Code)
      requires Ready() && TreeOk(mem0, sh0, cache.root) && Grown(mem0, cache.mem) && (cwd == NULL || cwd in mem0)
      requires node in cache.mem && CwdAnswer(mem0, sh0, path) == Found(Chain(cache.mem, cache.sh, cache.root, node))
      modifies this`opens, cache
      ensures Ready() && opens == if res == 0 then old(opens) + multiset{node} else old(opens)
      ensures res == OpenNode(Last(CwdAnswer(mem0, sh0, path).at) in fs.dirs, f.(creat := false), env)
      ensures res == 0 ==>
                && node in cache.mem && CwdAnswer(mem0, sh0, path) == Found(Chain(cache.mem, cache.sh, cache.root, node))
                && CwdAnswer(cache.mem, cache.sh, path) == CwdAnswer(mem0, sh0, path)
    {
      hide TreeOk, Coherent, RefsOk, Grown, OpenNode, Answer, Chain, SameStart, Counted;
      ghost var mem1, sh1 := cache.mem, cache.sh;
      assert multiset{} + multiset{node} == multiset{node};
      ChainMeans(cache.mem, cache.sh, cache.root, node);
      NodeIs(cache.mem, cache.root, fs, node);
      Hold(node, multiset{});
      HeldStart(mem0, sh0, mem1, sh1, cache.mem, cache.sh, cache.root, cwd, node);
      StartSame(mem0, sh0, cache.mem, cache.sh, cache.root, fs, cwd, path);
      CountedKinds(mem1, cache.root, node, mem1[node].refcount + 1);
      KindAt(mem1, cache.mem, node);
      res := OpenHeld(node, f.(creat := false), env);
    }

    /** vfs_open */
    method Open(path: Path, f: Flags, env: Env, writable: bool, made: Code, ino: nat) returns (res: int, node: Ptr)
      requires Ready() && (made == 0 ==> FreshIno(cache.mem, cache.root, fs, ino))
      modifies this`fs, this`opens, cache
      ensures Ready()
      ensures opens == if res == 0 then old(opens) + multiset{node} else old(opens)
      ensures old(CwdAnswer(cache.mem, cache.sh, path)).NotFound? && !f.creat ==> res == NOENT && fs == old(fs)
      ensures old(CwdAnswer(cache.mem, cache.sh, path)).Found? || f.creat ==>
                Creation(old(fs), fs, old(CwdAnswer(cache.mem, cache.sh, path)), old(ParentAnswer(cache.mem, cache.sh, path)),
                         Basename(path), f, env, writable, made, ino, true, res)
      ensures match old(CwdAnswer(cache.mem, cache.sh, path))
              case NotFound => true
              case Found(pos) =>
                var isDir := Last(pos) in fs.dirs;
                res == 0 <==>
                  env.allowed && if f.directory then isDir && env.dirCode == 0
                                 else !isDir && !(f.exec && f.acc > 0) && !f.append && (f.trunc ==> env.truncCode == 0) && env.openCode == 0
      ensures res == 0 ==>
                OpenedAt(cache.mem, cache.sh, cache.root, old(CwdAnswer(cache.mem, cache.sh, path)),
                         old(ParentAnswer(cache.mem, cache.sh, path)), ino, node)
      ensures res == 0 ==> CwdAnswer(cache.mem, cache.sh, path) == Found(Chain(cache.mem, cache.sh, cache.root, node))
    {
      hide TreeOk, Coherent, RefsOk, Grown, FreshIno, OpenNode, Answer, Basename, ParentAnswer, Creation, Chain;
      ghost var mem0, sh0 := cache.mem, cache.sh;
      CreationFound(fs, CwdAnswer(mem0, sh0, path), ParentAnswer(mem0, sh0, path), Basename(path), f, env, writable, made, ino, true);
      CwdThere();
      res, node := Find(cwd, path, multiset{});
      if res != 0 {
        if !f.creat {
          return NOENT, node;
        }
        GrownKeeps(mem0, cache.mem, cwd);
        ParentKept(mem0, sh0, cache.mem, cache.sh, path);
        FreshKept(mem0, sh0, cache.mem, cache.root, fs, ino, made);
        res, node := Creat(path, f, env, writable, made, ino, true);
        return;
      }
      OpenExact(Last(CwdAnswer(mem0, sh0, path).at) in fs.dirs, f.(creat := false), env, 0);
      res := OpenFound(mem0, sh0, path, node, f, env);
    }

    /** vfs_mkdir. No node is attached for the new directory. */
    method Mkdir(path: Path, permitted: Code, made: Code, ino: nat) returns (res: int)
      requires Ready() && (made == 0 ==> FreshIno(cache.mem, cache.root, fs, ino))
      modifies this`fs, cache
      ensures Ready()
      ensures Making(old(fs), fs, old(CwdAnswer(cache.mem, cache.sh, path)), old(ParentAnswer(cache.mem, cache.sh, path)),
                     Basename(path), permitted, made, ino, res)
      ensures res == 0 ==> Below(old(ParentAnswer(cache.mem, cache.sh, path)), ino, CwdAnswer(cache.mem, cache.sh, path))
    {
      hide TreeOk, Coherent, RefsOk, Grown, FreshIno, Answer, Basename, ParentAnswer, Making, Chain, SameStart, WithDir;
      ghost var mem0, sh0, fs0, parent := cache.mem, cache.sh, fs, ParentAnswer(cache.mem, cache.sh, path);
      MakingResults(fs, CwdAnswer(mem0, sh0, path), parent, Basename(path), permitted, made, ino);
      CwdThere();
      var node;
      res, node := Find(cwd, path, multiset{});
      if res == 0 {
        assert multiset{} + multiset{node} == multiset{node} && multiset{node} - multiset{node} == multiset{};
        Hold(node, multiset{});
        Drop(node, multiset{node});
        return EEXIST;
      }
      FreshDir(mem0, cache.root, fs, ino, made);
      DirThere(mem0, sh0, path, ino, made);
      GrownKeeps(mem0, cache.mem, cwd);
      GrownStart(mem0, sh0, cache.mem, cache.sh, cache.root, cwd);
      ghost var mem1, sh1 := cache.mem, cache.sh;
      ParentKept(mem0, sh0, cache.mem, cache.sh, path);
      FreshKept(mem0, sh0, cache.mem, cache.root, fs, ino, made);
      res := MkdirNew(path, permitted, made, ino);
      if res == 0 {
        MakingMade(fs0, fs, parent, Basename(path), permitted, made, ino);
        StartTwice(mem0, sh0, mem1, sh1, cache.mem, cache.sh, cache.root, cwd);
        StartSame(mem0, sh0, cache.mem, cache.sh, cache.root, fs, cwd, path);
      }
    }

    /** The part of vfs_mkdir for a path that leads nowhere. */
    method MkdirNew(path: Path, permitted: Code, made: Code, ino: nat) returns (res: int)
      requires Ready() && (made == 0 ==> FreshIno(cache.mem, cache.root, fs, ino))
      requires CwdAnswer(cache.mem, cache.sh, path).NotFound?
      modifies this`fs, cache
      ensures Ready()
      ensures Making(old(fs), fs, NotFound, old(ParentAnswer(cache.mem, cache.sh, path)), Basename(path), permitted, made, ino, res)
      ensures res == 0 ==> SameStart(old(cache.mem), old(cache.sh), cache.mem, cache.sh, cache.root, cwd)
    {
      hide TreeOk, Coherent, RefsOk, Grown, FreshIno, Answer, Basename, ParentAnswer, CwdAnswer, Making, SameStart, Chain, SameKinds;
      ghost var mem0, sh0 := cache.mem, cache.sh;
      MakingResults(fs, NotFound, ParentAnswer(mem0, sh0, path), Basename(path), permitted, made, ino);
      var parent;
      CwdThere();
      res, parent := FindParent(path);
      if res != 0 {
        return;
      }
      NameMissing(mem0, sh0, path);
      ChainMeans(cache.mem, cache.sh, cache.root, parent);
      NodeIs(cache.mem, cache.root, fs, parent);
      FreshKept(mem0, sh0, cache.mem, cache.root, fs, ino, made);
      FreshCounted(cache.mem, cache.root, fs, ino, made, parent);
      assert multiset{} + multiset{parent} == multiset{parent} && multiset{parent} - multiset{parent} == multiset{};
      ghost var mem1, sh1 := cache.mem, cache.sh;
      Hold(parent, multiset{});
      ghost var mem2, sh2 := cache.mem, cache.sh;
      HeldStart(mem0, sh0, mem1, sh1, mem2, sh2, cache.root, cwd, parent);
      if !cache.mem[parent].isDir {
        Drop(parent, multiset{parent});
        return ENOTDIR;
      }
      if permitted < 0 {
        Drop(parent, multiset{parent});
        return permitted;
      }
      if made < 0 {
        Drop(parent, multiset{parent});
        return made;
      }
      DirCoherent(cache.mem, cache.sh, cache.root, fs, parent, Basename(path), ino);
      fs := WithDir(fs, cache.mem[parent].ino, Basename(path), ino);
      Drop(parent, multiset{parent});
      CwdThere();
      KindsStart(mem2, sh2, cache.mem, cache.sh, cache.root, cwd);
      StartTwice(mem0, sh0, mem2, sh2, cache.mem, cache.sh, cache.root, cwd);
      res := 0;
    }
  }

  /** The file system after a directory was made. */
  function WithDir(fs: Fs, d: nat, name: Name, ino: nat): Fs
    requires d in fs.dirs
  {
    var names: map<Name, nat> := fs.dirs[d][name := ino];
    var dots: map<Name, nat> := map[DirBlocks.DOT := ino, DirBlocks.DOTDOT := d];
    Fs(fs.dirs[d := names][ino := dots])
  }

  lemma {:induction false} DirCoherent(mem: Memory, sh: Shape, root: Ptr, fs: Fs, p: Ptr, name: Name, ino: nat)
    requires TreeOk(mem, sh, root) && Coherent(mem, root, fs) && p in mem && FreshIno(mem, root, fs, ino)
    requires mem[p].ino in fs.dirs && name !in fs.dirs[mem[p].ino]
    ensures Coherent(mem, root, WithDir(fs, mem[p].ino, name, ino))
  {
    forall m | m in mem ensures NodeTrue(mem, root, WithDir(fs, mem[p].ino, name, ino), m) {
      NotNew(mem, root, fs, m, ino);
      DirNode(mem, root, fs, p, name, ino, m);
    }
  }

  lemma {:induction false} NotNew(mem: Memory, root: Ptr, fs: Fs, m: Ptr, ino: nat)
    requires Coherent(mem, root, fs) && FreshIno(mem, root, fs, ino) && m in mem
    ensures mem[m].ino != ino
  {
    assert NodeTrue(mem, root, fs, m);
  }

  lemma {:induction false} DirNode(mem: Memory, root: Ptr, fs: Fs, p: Ptr, name: Name, ino: nat, m: Ptr)
    requires m in mem && p in mem && NodeTrue(mem, root, fs, m) && mem[m].ino != ino && ino !in fs.dirs
    requires mem[p].ino in fs.dirs && name !in fs.dirs[mem[p].ino]
    ensures NodeTrue(mem, root, WithDir(fs, mem[p].ino, name, ino), m)
  {
  }

  /** What making a directory at a path does, in terms of what the path and its parent lead
      to when the file system alone is asked. */
  ghost predicate Making(fs: Fs, fs': Fs, found: Found, parent: Found, base: Name, permitted: Code, made: Code, ino: nat, res: int) {
    match found
    case Found(_) => fs' == fs && res == EEXIST
    case NotFound =>
      match parent
      case NotFound => fs' == fs && res == NOENT
      case Found(pp) =>
        if Last(pp) !in fs.dirs then fs' == fs && res == ENOTDIR
        else if permitted < 0 then fs' == fs && res == permitted
        else if made < 0 then fs' == fs && res == made
        else base !in fs.dirs[Last(pp)] && fs' == WithDir(fs, Last(pp), base, ino) && res == 0
  }

  lemma {:induction false} MakingResults(fs: Fs, found: Found, parent: Found, base: Name, permitted: Code, made: Code, ino: nat)
    ensures found.Found? ==> Making(fs, fs, found, parent, base, permitted, made, ino, EEXIST)
    ensures found.NotFound? && parent.NotFound? ==> Making(fs, fs, found, parent, base, permitted, made, ino, NOENT)
    ensures found.NotFound? && parent.Found? && Last(parent.at) !in fs.dirs ==>
              Making(fs, fs, found, parent, base, permitted, made, ino, ENOTDIR)
    ensures found.NotFound? && parent.Found? && Last(parent.at) in fs.dirs && permitted < 0 ==>
              Making(fs, fs, found, parent, base, permitted, made, ino, permitted)
    ensures found.NotFound? && parent.Found? && Last(parent.at) in fs.dirs && permitted == 0 && made < 0 ==>
              Making(fs, fs, found, parent, base, permitted, made, ino, made)
    ensures found.NotFound? && parent.Found? && Last(parent.at) in fs.dirs && permitted == 0 && made == 0
            && base !in fs.dirs[Last(parent.at)] ==>
              Making(fs, WithDir(fs, Last(parent.at), base, ino), found, parent, base, permitted, made, ino, 0)
  {
  }

  /** When mkdir succeeds, when it changes the file system, and when each of its errors comes
      (the permission check and the file system may answer with one as well). */
  lemma {:induction false} MakingExact(fs: Fs, fs': Fs, found: Found, parent: Found, base: Name, permitted: Code, made: Code, ino: nat, res: int)
    requires Making(fs, fs', found, parent, base, permitted, made, ino, res)
    ensures var inDir := found.NotFound? && parent.Found? && Last(parent.at) in fs.dirs;
            && (res == 0 <==> inDir && permitted == 0 && made == 0)
            && (res != 0 ==> fs' == fs) && (res == 0 ==> fs' == WithDir(fs, Last(parent.at), base, ino) && base !in fs.dirs[Last(parent.at)])
            && (inDir ==> res == if permitted < 0 then permitted else made)
            && (!inDir ==> (res == EEXIST <==> found.Found?) && (res == NOENT <==> found.NotFound? && parent.NotFound?)
                           && (res == ENOTDIR <==> found.NotFound? && parent.Found?))
  {
  }

  lemma {:induction false} MakingMade(fs: Fs, fs': Fs, parent: Found, base: Name, permitted: Code, made: Code, ino: nat)
    requires Making(fs, fs', NotFound, parent, base, permitted, made, ino, 0)
    ensures parent.Found? && Last(parent.at) in fs.dirs && made == 0 && fs' == WithDir(fs, Last(parent.at), base, ino)
  {
  }

  /** What creating at a path does, in terms of what the path and its parent lead to when the
      file system alone is asked. */
  ghost predicate Creation(fs: Fs, fs': Fs, found: Found, parent: Found, base: Name, f: Flags, env: Env, writable: bool,
                           made: Code, ino: nat, hasFile: bool, res: int) {
    match found
    case Found(pos) => fs' == fs && res == OpenNode(Last(pos) in fs.dirs, f.(creat := false), env)
    case NotFound =>
      match parent
      case NotFound => fs' == fs && res == NOENT
      case Found(pp) =>
        if Last(pp) !in fs.dirs then fs' == fs && res == ENOTDIR
        else if !writable then fs' == fs && res == EACCES
        else if made != 0 then fs' == fs && res == made
        else
          && base !in fs.dirs[Last(pp)] && fs' == WithFile(fs, Last(pp), base, ino)
          && res == if !hasFile then EINVAL else OpenNode(false, f.(creat := false), env)
  }

  lemma {:induction false} CreationFound(fs: Fs, found: Found, parent: Found, base: Name, f: Flags, env: Env, writable: bool, made: Code, ino: nat, hasFile: bool)
    ensures found.Found? ==>
              Creation(fs, fs, found, parent, base, f, env, writable, made, ino, hasFile,
                       OpenNode(Last(found.at) in fs.dirs, f.(creat := false), env))
  {
  }

  /** The same for creat of a path that leads nowhere: the file is made if and only if the parent
      is there, is a directory and may be written to, and the file system makes it. It then
      depends on opening it. */
  lemma {:induction false} CreationExact(fs: Fs, fs': Fs, parent: Found, base: Name, f: Flags, env: Env, writable: bool, made: Code, ino: nat,
                                         hasFile: bool, res: int)
    requires Creation(fs, fs', NotFound, parent, base, f, env, writable, made, ino, hasFile, res)
    ensures var inDir := parent.Found? && Last(parent.at) in fs.dirs;
            && (fs' != fs <==> inDir && writable && made == 0)
            && (fs' != fs ==> fs' == WithFile(fs, Last(parent.at), base, ino) && base !in fs.dirs[Last(parent.at)])
            && (res == 0 <==> inDir && writable && made == 0 && hasFile && !f.directory && env.allowed && !f.append
                              && !(f.exec && f.acc > 0) && (f.trunc ==> env.truncCode == 0) && env.openCode == 0)
            && (!inDir ==> (res == NOENT <==> parent.NotFound?) && (res == ENOTDIR <==> parent.Found?))
            && (inDir && !writable ==> res == EACCES) && (inDir && writable && made < 0 ==> res == made)
            && (inDir && writable && made == 0 && !hasFile ==> res == EINVAL)
  {
    OpenExact(false, f.(creat := false), env, 0);
    if parent.Found? && Last(parent.at) in fs.dirs && writable && made == 0 {
      assert base in fs'.dirs[Last(parent.at)] && base !in fs.dirs[Last(parent.at)];
    }
  }

  lemma {:induction false} CreationMade(fs: Fs, fs': Fs, parent: Found, base: Name, f: Flags, env: Env, writable: bool, made: Code, ino: nat, hasFile: bool)
    requires Creation(fs, fs', NotFound, parent, base, f, env, writable, made, ino, hasFile, 0)
    ensures parent.Found? && Last(parent.at) in fs.dirs && fs' == WithFile(fs, Last(parent.at), base, ino)
  {
    hide OpenNode;
  }

  /** The ways to fail where nothing is found, and the way to succeed. */
  lemma {:induction false} CreationNew(fs: Fs, parent: Found, base: Name, f: Flags, env: Env, writable: bool, made: Code, ino: nat, hasFile: bool)
    ensures parent.NotFound? ==> Creation(fs, fs, NotFound, parent, base, f, env, writable, made, ino, hasFile, NOENT)
    ensures parent.Found? && Last(parent.at) !in fs.dirs ==>
              Creation(fs, fs, NotFound, parent, base, f, env, writable, made, ino, hasFile, ENOTDIR)
    ensures parent.Found? && Last(parent.at) in fs.dirs && !writable ==>
              Creation(fs, fs, NotFound, parent, base, f, env, writable, made, ino, hasFile, EACCES)
    ensures parent.Found? && Last(parent.at) in fs.dirs && writable && base !in fs.dirs[Last(parent.at)] ==>
              Creation(fs, if made == 0 then WithFile(fs, Last(parent.at), base, ino) else fs, NotFound, parent, base, f, env, writable, made, ino, hasFile,
                       if made != 0 then made else if !hasFile then EINVAL else OpenNode(false, f.(creat := false), env))
  {
  }

  lemma {:induction false} GrownKeeps(mem: Memory, mem': Memory, n: Ptr)
    requires Grown(mem, mem') && (n == NULL || n in mem)
    ensures n == NULL || n in mem'
  {
  }

  lemma {:induction false} DotAlone(fs: Fs, at: Position)
    ensures Walk(fs, at, Elements(Stripped(DirBlocks.DOT))) == Found(at) == Walk(fs, at, [])
  {
    var dot := DirBlocks.DOT;
    assert Stripped(dot) == dot;
    BaseElements(dot);
    WalkSteps(fs, at, dot, []);
    assert [dot] + [] == [dot];
  }

  lemma {:induction false} FreshKept(mem: Memory, sh: Shape, mem': Memory, root: Ptr, fs: Fs, ino: nat, made: Code)
    requires Grown(mem, mem') && TreeOk(mem, sh, root) && (made == 0 ==> FreshIno(mem, root, fs, ino))
    ensures made == 0 ==> FreshIno(mem', root, fs, ino)
  {
    assert SameNode(mem[root], mem'[root]);
  }

  lemma {:induction false} FreshDir(mem: Memory, root: Ptr, fs: Fs, ino: nat, made: Code)
    requires made == 0 ==> FreshIno(mem, root, fs, ino)
    ensures made == 0 ==> ino !in fs.dirs
  {
  }

  lemma {:induction false} FreshCounted(mem: Memory, root: Ptr, fs: Fs, ino: nat, made: Code, n: Ptr)
    requires n in mem && (made == 0 ==> FreshIno(mem, root, fs, ino))
    ensures made == 0 ==> FreshIno(Counted(mem, root, n, mem[n].refcount + 1), root, fs, ino)
  {
  }

  /** The file system after a file was made. */
  function WithFile(fs: Fs, d: nat, name: Name, ino: nat): Fs
    requires d in fs.dirs
  {
    var names: map<Name, nat> := fs.dirs[d][name := ino];
    Fs(fs.dirs[d := names])
  }

  /** An inode number nothing in the file system has: what a file system gives a new file. */
  ghost predicate FreshIno(mem: Memory, root: Ptr, fs: Fs, ino: nat) {
    && ino !in fs.dirs && (root in mem ==> mem[root].ino != ino)
    && forall d, name :: d in fs.dirs && name in fs.dirs[d] ==> fs.dirs[d][name] != ino
  }

  /** A name the directory does not have is not cached either. */
  lemma {:induction false} NotCached(mem: Memory, sh: Shape, root: Ptr, fs: Fs, p: Ptr, name: Name)
    requires TreeOk(mem, sh, root) && Coherent(mem, root, fs) && p in mem && p in sh.kids
    requires mem[p].ino in fs.dirs && name !in fs.dirs[mem[p].ino]
    ensures Unused(mem, sh, p, name)
  {
    forall i: nat | i < |sh.kids[p]| ensures sh.kids[p][i] in mem && mem[sh.kids[p][i]].name != name {
      KidIs(mem, sh, root, p, i);
      assert NodeTrue(mem, root, fs, sh.kids[p][i]);
    }
  }

  /** A new file under a new name contradicts nothing that is cached. */
  lemma {:induction false} FileCoherent(mem: Memory, sh: Shape, root: Ptr, fs: Fs, p: Ptr, name: Name, ino: nat)
    requires TreeOk(mem, sh, root) && Coherent(mem, root, fs) && p in mem && FreshIno(mem, root, fs, ino)
    requires mem[p].ino in fs.dirs && name !in fs.dirs[mem[p].ino]
    ensures var fs' := WithFile(fs, mem[p].ino, name, ino);
            && Coherent(mem, root, fs')
            && ino !in fs'.dirs && mem[p].ino in fs'.dirs && name in fs'.dirs[mem[p].ino] && fs'.dirs[mem[p].ino][name] == ino
  {
    var fs' := WithFile(fs, mem[p].ino, name, ino);
    forall m | m in mem ensures NodeTrue(mem, root, fs', m) {
      assert NodeTrue(mem, root, fs, m);
    }
  }

  lemma {:induction false} AttachedNode(mem: Memory, p: Ptr, c: Ptr, name: Name, ino: nat)
    requires p in mem && c !in mem
    ensures var mem' := Attached(mem, p, c, name, ino, false);
            c in mem' && !mem'[c].isDir && mem'[c].ino == ino && c != p && p in mem'
  {
  }

  /** mem' has some of the nodes of mem; they are what they were, but for counts and links to
      kids. */
  ghost predicate SameKinds(mem: Memory, mem': Memory) {
    forall m :: m in mem' ==> m in mem && KindKept(mem[m], mem'[m])
  }

  ghost predicate KindKept(a: Node, b: Node) {
    b == a.(refcount := b.refcount, child := b.child, cdr := b.cdr)
  }

  lemma {:induction false} KindsChain(mem: Memory, sh: Shape, mem': Memory, sh': Shape, root: Ptr, n: Ptr)
    requires TreeOk(mem, sh, root) && TreeOk(mem', sh', root) && SameKinds(mem, mem') && n in mem'
    ensures n in mem && Chain(mem', sh', root, n) == Chain(mem, sh, root, n)
    decreases if n in sh'.depth then sh'.depth[n] else 0
  {
    assert KindKept(mem[n], mem'[n]);
    if n != root {
      assert PlaceOk(mem, sh, root, n) && PlaceOk(mem', sh', root, n);
      KindsChain(mem, sh, mem', sh', root, mem[n].parent);
    }
  }

  lemma {:induction false} CountedKinds(mem: Memory, root: Ptr, n: Ptr, count: nat)
    requires n in mem
    ensures SameKinds(mem, Counted(mem, root, n, count))
  {
  }

  /** Lookups from `at` start at the same place. */
  ghost predicate SameStart(mem: Memory, sh: Shape, mem': Memory, sh': Shape, root: Ptr, at: Ptr)
    requires TreeOk(mem, sh, root) && TreeOk(mem', sh', root)
  {
    && SameRoot(mem, mem', root)
    && (at == NULL || (at in mem && at in mem' && Chain(mem', sh', root, at) == Chain(mem, sh, root, at)))
  }

  lemma {:induction false} GrownStart(mem: Memory, sh: Shape, mem': Memory, sh': Shape, root: Ptr, at: Ptr)
    requires TreeOk(mem, sh, root) && TreeOk(mem', sh', root) && Grown(mem, mem') && (at == NULL || at in mem)
    ensures SameStart(mem, sh, mem', sh', root, at)
  {
    hide Chain;
    GrownRoot(mem, sh, mem', root);
    GrownKeeps(mem, mem', at);
    if at != NULL {
      ChainKept(mem, sh, mem', sh', root, at);
    }
  }

  lemma {:induction false} KindsStart(mem: Memory, sh: Shape, mem': Memory, sh': Shape, root: Ptr, at: Ptr)
    requires TreeOk(mem, sh, root) && TreeOk(mem', sh', root) && SameKinds(mem, mem') && (at == NULL || at in mem')
    ensures SameStart(mem, sh, mem', sh', root, at)
  {
    hide Chain;
    KindsRoot(mem, mem', sh', root);
    if at != NULL {
      KindsChain(mem, sh, mem', sh', root, at);
    }
  }

  lemma {:induction false} StartTwice(mem: Memory, sh: Shape, mem1: Memory, sh1: Shape, mem2: Memory, sh2: Shape, root: Ptr, at: Ptr)
    requires TreeOk(mem, sh, root) && TreeOk(mem1, sh1, root) && TreeOk(mem2, sh2, root)
    requires SameStart(mem, sh, mem1, sh1, root, at) && SameStart(mem1, sh1, mem2, sh2, root, at)
    ensures SameStart(mem, sh, mem2, sh2, root, at)
  {
    hide TreeOk, Chain;
  }

  /** What grew, and then had one count changed. */
  lemma {:induction false} HeldStart(mem: Memory, sh: Shape, mem1: Memory, sh1: Shape, mem2: Memory, sh2: Shape, root: Ptr, at: Ptr, n: Ptr)
    requires TreeOk(mem, sh, root) && TreeOk(mem1, sh1, root) && TreeOk(mem2, sh2, root) && (at == NULL || at in mem)
    requires Grown(mem, mem1) && n in mem1 && mem2 == Counted(mem1, root, n, mem1[n].refcount + 1)
    ensures SameStart(mem, sh, mem2, sh2, root, at)
  {
    hide TreeOk, Grown, SameKinds, Chain;
    GrownStart(mem, sh, mem1, sh1, root, at);
    CountedKinds(mem1, root, n, mem1[n].refcount + 1);
    KindsStart(mem1, sh1, mem2, sh2, root, at);
  }

  lemma {:induction false} StartSame(mem: Memory, sh: Shape, mem': Memory, sh': Shape, root: Ptr, fs: Fs, at: Ptr, path: Path)
    requires TreeOk(mem, sh, root) && TreeOk(mem', sh', root) && SameStart(mem, sh, mem', sh', root, at)
    ensures (at == NULL || (at in mem && at in mem'))
    ensures Answer(mem', sh', root, fs, at, path) == Answer(mem, sh, root, fs, at, path)
  {
    assert Chain(mem', sh', root, root) == Chain(mem, sh, root, root);
  }

  lemma {:induction false} AllKinds(mem: Memory)
    ensures SameKinds(mem, mem)
  {
  }

  lemma {:induction false} CountedHas(mem: Memory, root: Ptr, n: Ptr, count: nat)
    requires n in mem
    ensures n in Counted(mem, root, n, count)
  {
  }

  lemma {:induction false} ChainStep(mem: Memory, sh: Shape, root: Ptr, n: Ptr)
    requires TreeOk(mem, sh, root) && n in mem && n != root
    ensures mem[n].parent in mem && Chain(mem, sh, root, n) == Chain(mem, sh, root, mem[n].parent) + [mem[n].ino]
  {
    assert PlaceOk(mem, sh, root, n);
  }

  lemma {:induction false} ParentThere(mem: Memory, sh: Shape, root: Ptr, n: Ptr)
    requires TreeOk(mem, sh, root) && n in mem
    ensures n != root ==> mem[n].parent in mem
  {
    assert PlaceOk(mem, sh, root, n);
  }

  /** The new node once it is held. */
  lemma {:induction false} HeldNode(mem: Memory, p: Ptr, c: Ptr, name: Name, ino: nat, root: Ptr)
    requires p in mem && c !in mem && c != root
    ensures var mem1 := Attached(mem, p, c, name, ino, false); var mem2 := Counted(mem1, root, c, mem1[c].refcount + 1);
            c in mem2 && mem2[c].parent == p && mem2[c].name == name && mem2[c].ino == ino && !mem2[c].isDir
  {
  }

  lemma {:induction false} KindAt(mem: Memory, mem': Memory, n: Ptr)
    requires SameKinds(mem, mem') && n in mem'
    ensures n in mem && KindKept(mem[n], mem'[n])
  {
  }

  lemma {:induction false} KindsKept(mem: Memory, mem': Memory, root: Ptr, n: Ptr)
    requires n in mem && (n == root ==> mem' == mem)
    requires n != root ==> mem[n].refcount > 0 && Kept(Counted(mem, root, n, mem[n].refcount - 1), mem')
    ensures SameKinds(mem, mem')
  {
    if n != root {
      var lowered := Counted(mem, root, n, mem[n].refcount - 1);
      forall m | m in mem' ensures m in mem && KindKept(mem[m], mem'[m]) {
        assert SameNode(lowered[m], mem'[m]);
      }
    }
  }

  lemma {:induction false} NotNull(mem: Memory, sh: Shape, root: Ptr, n: Ptr)
    requires TreeOk(mem, sh, root) && n in mem
    ensures n != NULL
  {
  }

  lemma {:induction false} EmptyPath(fs: Fs, at: Position)
    ensures Walk(fs, at, Elements(Stripped([]))) == Found(at)
  {
  }

  lemma {:induction false} HolderThere(mem: Memory, root: Ptr, holders: multiset<Ptr>, n: Ptr)
    requires RefsOk(mem, root, holders) && n in holders
    ensures n in mem && (n != root ==> mem[n].refcount > 0)
  {
  }

  lemma {:induction false} RootUncounted(mem: Memory, root: Ptr, holders: multiset<Ptr>)
    requires RefsOk(mem, root, holders)
    ensures RefsOk(mem, root, holders - multiset{root})
  {
  }

  /** Whatever an open file or the working directory uses is there, and so is everything
      above it. */
  lemma {:induction false} HeldStays(vfs: Vfs, h: Ptr, a: Ptr)
    requires vfs.Ready() && h in vfs.Holders()
    ensures h in vfs.cache.mem && h in vfs.cache.sh.depth
    ensures Above(vfs.cache.mem, vfs.cache.sh, vfs.cache.root, a, h) ==> a in vfs.cache.mem
  {
    assert h in vfs.Holders() + multiset{};
    assert PlaceOk(vfs.cache.mem, vfs.cache.sh, vfs.cache.root, h);
    if Above(vfs.cache.mem, vfs.cache.sh, vfs.cache.root, a, h) {
      AboveThere(vfs.cache.mem, vfs.cache.sh, vfs.cache.root, a, h);
    }
  }

  lemma {:induction false} AboveThere(mem: Memory, sh: Shape, root: Ptr, a: Ptr, h: Ptr)
    requires TreeOk(mem, sh, root) && h in mem && h in sh.depth && Above(mem, sh, root, a, h)
    ensures a in mem
    decreases sh.depth[h]
  {
    if a != h {
      assert PlaceOk(mem, sh, root, h);
      AboveThere(mem, sh, root, a, mem[h].parent);
    }
  }
}
