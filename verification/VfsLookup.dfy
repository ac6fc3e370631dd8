/** Looking paths up through the node cache. */
module VfsLookup {
  import opened Dirents
  import opened DirBlocks
  import opened Paths
  import opened Walks
  import opened VfsTree
  import opened VfsCache
  import Names

  const OK: int := 0
  const NOENT: int := -2

  lemma {:induction false} ParentAbove(mem: Memory, sh: Shape, root: Ptr, n: Ptr)
    requires TreeOk(mem, sh, root) && n in mem && n != root
    ensures mem[n].parent in mem && mem[n].parent in sh.depth && n in sh.depth && sh.depth[mem[n].parent] < sh.depth[n]
  {
    hide ListOk;
    NodeOk(mem, sh, root, n);
  }

  /** One level further down. */
  ghost function Inside(at: Position, ino: nat): Position {
    at + [ino]
  }

  /** The chain of inodes from the root down to node n. */
  ghost function Chain(mem: Memory, sh: Shape, root: Ptr, n: Ptr): Position
    requires TreeOk(mem, sh, root) && n in mem
    decreases if n in sh.depth then sh.depth[n] else 0
  {
    if n == root then [mem[n].ino]
    else
      ParentAbove(mem, sh, root, n);
      var up := Chain(mem, sh, root, mem[n].parent);
      Inside(up, mem[n].ino)
  }

  /** Every node of mem is in mem' with the same name, inode, count and parent, and nothing
      uses the others yet. */
  ghost predicate Grown(mem: Memory, mem': Memory) {
    && (forall m :: m in mem ==> m in mem' && SameNode(mem[m], mem'[m]))
    && (forall m :: m in mem' && m !in mem ==> mem'[m].refcount == 0)
  }

  /** Node m is what the file system has under that name in the parent's directory. */
  ghost predicate NodeTrue(mem: Memory, root: Ptr, fs: Fs, m: Ptr)
    requires m in mem
  {
    && (mem[m].isDir <==> mem[m].ino in fs.dirs)
    && (m != root ==>
          var p := mem[m].parent;
          p in mem && mem[p].ino in fs.dirs && mem[m].name in fs.dirs[mem[p].ino] && fs.dirs[mem[p].ino][mem[m].name] == mem[m].ino)
  }

  ghost predicate Coherent(mem: Memory, root: Ptr, fs: Fs) {
    forall m :: m in mem ==> NodeTrue(mem, root, fs, m)
  }

  /** No node below the root is named "." or "..". */
  ghost predicate NoDots(mem: Memory, root: Ptr) {
    forall m :: m in mem && m != root ==> !Names.Dots(mem[m].name)
  }

  lemma {:induction false} AttachNoDots(mem: Memory, root: Ptr, p: Ptr, c: Ptr, name: Name, ino: nat, isDir: bool)
    requires p in mem && NoDots(mem, root) && !Names.Dots(name)
    ensures NoDots(Attached(mem, p, c, name, ino, isDir), root)
  {
  }

  lemma {:induction false} ChainKept(mem: Memory, sh: Shape, mem': Memory, sh': Shape, root: Ptr, n: Ptr)
    requires TreeOk(mem, sh, root) && TreeOk(mem', sh', root) && n in mem && n in mem' && Grown(mem, mem')
    ensures Chain(mem', sh', root, n) == Chain(mem, sh, root, n)
    decreases if n in sh.depth then sh.depth[n] else 0
  {
    assert SameNode(mem[n], mem'[n]);
    if n != root {
      assert PlaceOk(mem, sh, root, n) && PlaceOk(mem', sh', root, n);
      ChainKept(mem, sh, mem', sh', root, mem[n].parent);
    }
  }

  lemma {:induction false} ChainMeans(mem: Memory, sh: Shape, root: Ptr, n: Ptr)
    requires TreeOk(mem, sh, root) && n in mem
    ensures Last(Chain(mem, sh, root, n)) == mem[n].ino
    ensures |Chain(mem, sh, root, n)| == 1 <==> n == root
    ensures n != root ==> mem[n].parent in mem && Up(Chain(mem, sh, root, n)) == Chain(mem, sh, root, mem[n].parent)
    ensures mem[n].parent == NULL <==> n == root
  {
    assert PlaceOk(mem, sh, root, n);
  }

  lemma {:induction false} GrownTwice(mem: Memory, mem1: Memory, mem2: Memory)
    requires Grown(mem, mem1) && Grown(mem1, mem2)
    ensures Grown(mem, mem2)
  {
    forall m | m in mem ensures m in mem2 && SameNode(mem[m], mem2[m]) {
      assert SameNode(mem[m], mem1[m]);
    }
  }

  /** What attaching a node the file system told of does. */
  lemma {:induction false} AttachTrue(mem: Memory, root: Ptr, fs: Fs, p: Ptr, c: Ptr, name: Name, ino: nat, isDir: bool, m: Ptr)
    requires p in mem && c !in mem && m in mem && NodeTrue(mem, root, fs, m)
    ensures NodeTrue(Attached(mem, p, c, name, ino, isDir), root, fs, m)
  {
  }

  lemma {:induction false} AttachedTrue(mem: Memory, root: Ptr, fs: Fs, p: Ptr, c: Ptr, name: Name, ino: nat, isDir: bool)
    requires p in mem && c !in mem && mem[p].ino in fs.dirs && name in fs.dirs[mem[p].ino] && fs.dirs[mem[p].ino][name] == ino
    requires isDir <==> ino in fs.dirs
    ensures NodeTrue(Attached(mem, p, c, name, ino, isDir), root, fs, c)
  {
  }

  lemma {:induction false} AttachCoherent(mem: Memory, root: Ptr, fs: Fs, p: Ptr, c: Ptr, name: Name, ino: nat, isDir: bool)
    requires p in mem && c !in mem && Coherent(mem, root, fs)
    requires mem[p].ino in fs.dirs && name in fs.dirs[mem[p].ino] && fs.dirs[mem[p].ino][name] == ino && (isDir <==> ino in fs.dirs)
    ensures Coherent(Attached(mem, p, c, name, ino, isDir), root, fs)
  {
    var mem' := Attached(mem, p, c, name, ino, isDir);
    assert mem'.Keys == mem.Keys + {c};
    hide NodeTrue, Attached;
    forall m | m in mem' ensures NodeTrue(mem', root, fs, m) {
      if m != c {
        AttachTrue(mem, root, fs, p, c, name, ino, isDir, m);
      } else {
        AttachedTrue(mem, root, fs, p, c, name, ino, isDir);
      }
    }
  }

  lemma {:induction false} AttachGrows(mem: Memory, root: Ptr, fs: Fs, p: Ptr, c: Ptr, name: Name, ino: nat, isDir: bool)
    requires p in mem && c !in mem && Coherent(mem, root, fs) && c != root
    requires mem[p].ino in fs.dirs && name in fs.dirs[mem[p].ino] && fs.dirs[mem[p].ino][name] == ino && (isDir <==> ino in fs.dirs)
    ensures var mem' := Attached(mem, p, c, name, ino, isDir);
            && Grown(mem, mem') && Coherent(mem', root, fs) && c in mem' && mem'[c].parent == p && mem'[c].ino == ino
  {
    hide Coherent, NodeTrue;
    AttachCoherent(mem, root, fs, p, c, name, ino, isDir);
  }

  // ---- the walk ------------------------------------------------------------------------

  /** The loop over the children: the one with this name, or NULL. */
  method FindChild(c: Cache, n: Ptr, name: Name) returns (it: Ptr)
    requires c.Valid() && n in c.mem
    ensures it != NULL ==> it in c.mem && it != c.root && c.mem[it].parent == n && c.mem[it].name == name
    ensures it == NULL ==> n in c.sh.kids && Unused(c.mem, c.sh, n, name)
  {
    hide TreeOk;
    RootParent(c.mem, c.sh, c.root, n);
    ghost var ks := c.sh.kids[n];
    ghost var j := |ks| - 1;
    it := c.mem[n].child;
    if ks != [] {
      KidAt(c.mem, c.sh, c.root, n, |ks| - 1);
    }
    while it != NULL
      invariant -1 <= j < |ks| && it == Nth(ks, j) && (it != NULL ==> it in c.mem)
      invariant forall i: nat :: j < i < |ks| && ks[i] in c.mem ==> c.mem[ks[i]].name != name
      decreases j
    {
      KidIs(c.mem, c.sh, c.root, n, j);
      if c.mem[it].name == name {
        return;
      }
      if j > 0 {
        KidAt(c.mem, c.sh, c.root, n, j - 1);
      }
      it := c.mem[it].cdr;
      j := j - 1;
    }
    if j >= 0 {
      KidAt(c.mem, c.sh, c.root, n, j);
    }
  }

  lemma {:induction false} KidIs(mem: Memory, sh: Shape, root: Ptr, p: Ptr, j: nat)
    requires TreeOk(mem, sh, root) && p in mem && p in sh.kids && j < |sh.kids[p]|
    ensures var k := sh.kids[p][j];
            k in mem && k != NULL && mem[k].cdr == Nth(sh.kids[p], j - 1) && mem[k].parent == p && k != root
  {
    assert ListOk(mem, sh, p) && KidOk(mem, sh, p, j);
    assert PlaceOk(mem, sh, root, sh.kids[p][j]);
  }

  /** A cached child is where the file system would lead. */
  lemma {:induction false} ChildTrue(mem: Memory, sh: Shape, root: Ptr, fs: Fs, n: Ptr, it: Ptr, name: Name)
    requires TreeOk(mem, sh, root) && Coherent(mem, root, fs) && n in mem && it in mem && it != root
    requires mem[it].parent == n && mem[it].name == name
    ensures Down(fs, Chain(mem, sh, root, n), name) == Found(Chain(mem, sh, root, it))
  {
    ChainMeans(mem, sh, root, n);
    assert NodeTrue(mem, root, fs, it);
  }

  /** vfs_find_tree from a directory node, down by one name that is not cached: ask the file
      system, and attach what it found. */
  method FindName(c: Cache, fs: Fs, n: Ptr, name: Name) returns (res: int, node: Ptr)
    requires c.Valid() && n in c.mem && c.mem[n].isDir && Coherent(c.mem, c.root, fs)
    requires n in c.sh.kids && Unused(c.mem, c.sh, n, name)
    modifies c
    ensures c.Valid() && Coherent(c.mem, c.root, fs) && Grown(old(c.mem), c.mem)
    ensures match Down(fs, Chain(old(c.mem), old(c.sh), c.root, n), name)
            case Found(at) => res == OK && node in c.mem && Chain(c.mem, c.sh, c.root, node) == at
            case NotFound => res == NOENT
    ensures NoDots(old(c.mem), c.root) && !Names.Dots(name) ==> NoDots(c.mem, c.root)
  {
    hide TreeOk, Coherent, Grown, Unused, NoDots, Attached, Names.Dots;
    ghost var mem0, sh0 := c.mem, c.sh;
    ChainMeans(mem0, sh0, c.root, n);
    GrownSelf(mem0);
    NodeIs(mem0, c.root, fs, n);
    if c.mem[n].ino !in fs.dirs || name !in fs.dirs[c.mem[n].ino] {
      return NOENT, NULL;
    }
    var ino := fs.dirs[c.mem[n].ino][name];
    RootIn(mem0, sh0, c.root);
    node := c.Attach(n, name, ino, ino in fs.dirs);
    AttachGrows(mem0, c.root, fs, n, node, name, ino, ino in fs.dirs);
    if NoDots(mem0, c.root) && !Names.Dots(name) {
      AttachNoDots(mem0, c.root, n, node, name, ino, ino in fs.dirs);
    }
    AttachedIno(mem0, n, node, name, ino, ino in fs.dirs);
    ChildTrue(c.mem, c.sh, c.root, fs, n, node, name);
    ChainKept(mem0, sh0, c.mem, c.sh, c.root, n);
    res := OK;
  }

  lemma {:induction false} AttachedIno(mem: Memory, p: Ptr, c: Ptr, name: Name, ino: nat, isDir: bool)
    requires p in mem && c !in mem
    ensures var mem' := Attached(mem, p, c, name, ino, isDir); c in mem' && mem'[c].parent == p && mem'[c].name == name && p in mem'
  {
  }

  lemma {:induction false} GrownSelf(mem: Memory)
    ensures Grown(mem, mem)
  {
  }

  lemma {:induction false} NodeIs(mem: Memory, root: Ptr, fs: Fs, n: Ptr)
    requires n in mem && Coherent(mem, root, fs)
    ensures mem[n].isDir <==> mem[n].ino in fs.dirs
  {
    assert NodeTrue(mem, root, fs, n);
  }

  lemma {:induction false} RootIn(mem: Memory, sh: Shape, root: Ptr)
    requires TreeOk(mem, sh, root)
    ensures root in mem && root != NULL
  {
  }

  /** The elements of what is left of a path. */
  function Rest(rest: Option<Path>): seq<Name> {
    match rest
    case None => []
    case Some(r) => Elements(r)
  }

  /** A lookup came out as the uncached walk says, and only added unused nodes. */
  ghost predicate Looked(mem: Memory, mem': Memory, sh': Shape, root: Ptr, fs: Fs, found: Found, res: int, node: Ptr) {
    && TreeOk(mem', sh', root) && Coherent(mem', root, fs) && Grown(mem, mem')
    && (match found
        case Found(at) => res == OK && node in mem' && Chain(mem', sh', root, node) == at
        case NotFound => res == NOENT)
  }

  lemma {:induction false} LookedHere(mem: Memory, sh: Shape, root: Ptr, fs: Fs, n: Ptr)
    requires TreeOk(mem, sh, root) && Coherent(mem, root, fs) && n in mem
    ensures Looked(mem, mem, sh, root, fs, Found(Chain(mem, sh, root, n)), OK, n)
  {
    GrownSelf(mem);
  }

  lemma {:induction false} LookedNone(mem: Memory, sh: Shape, root: Ptr, fs: Fs, node: Ptr)
    requires TreeOk(mem, sh, root) && Coherent(mem, root, fs)
    ensures Looked(mem, mem, sh, root, fs, NotFound, NOENT, node)
  {
    GrownSelf(mem);
  }

  lemma {:induction false} LookedOn(mem: Memory, mem1: Memory, mem2: Memory, sh2: Shape, root: Ptr, fs: Fs, found: Found, res: int, node: Ptr)
    requires Grown(mem, mem1) && Looked(mem1, mem2, sh2, root, fs, found, res, node)
    ensures Looked(mem, mem2, sh2, root, fs, found, res, node)
  {
    GrownTwice(mem, mem1, mem2);
  }

  lemma {:induction false} WalkSteps(fs: Fs, at: Position, e: Name, es: seq<Name>)
    ensures Walk(fs, at, []) == AtTop(fs, at, []) == Found(at)
    ensures e == DOT ==> Walk(fs, at, [e] + es) == Walk(fs, at, es)
    ensures e == DOTDOT ==> Walk(fs, at, [e] + es) == if |at| > 1 then Walk(fs, Up(at), es) else AtTop(fs, at, es)
    ensures e == DOTDOT ==> AtTop(fs, at, [e] + es) == AtTop(fs, at, es)
    ensures e != DOTDOT ==> AtTop(fs, at, [e] + es) == Into(fs, at, [e] + es)
    ensures e != DOT && e != DOTDOT ==> Walk(fs, at, [e] + es) == Into(fs, at, [e] + es)
    ensures Into(fs, at, [e] + es) == match Down(fs, at, e) case Found(to) => Walk(fs, to, es) case NotFound => NotFound
  {
    var all := [e] + es;
    assert all[0] == e && all[1..] == es;
    assert DOT[..] != DOTDOT;
  }

  /** Below node n, by the name elem and then the rest of the path. */
  method FindBelow(c: Cache, fs: Fs, n: Ptr, elem: Name, rest: Option<Path>) returns (res: int, node: Ptr)
    requires c.Valid() && n in c.mem && Coherent(c.mem, c.root, fs)
    modifies c
    ensures c.Valid()
    ensures Looked(old(c.mem), c.mem, c.sh, c.root, fs,
                   Into(fs, Chain(old(c.mem), old(c.sh), c.root, n), [elem] + Rest(rest)), res, node)
    ensures NoDots(old(c.mem), c.root) && !Names.Dots(elem) && !DotAfterTop(old(|Chain(c.mem, c.sh, c.root, n)|), Rest(rest)) ==>
              NoDots(c.mem, c.root)
    decreases if rest.Some? then |rest.value| + 1 else 0, 0
  {
    hide TreeOk, Coherent, Grown, Unused, Looked, Walk, Into, Down, Elements, NoDots, Names.Dots, DotAfterTop;
    ghost var mem0, sh0 := c.mem, c.sh;
    ghost var at := Chain(mem0, sh0, c.root, n);
    WalkSteps(fs, at, elem, Rest(rest));
    LookedNone(mem0, sh0, c.root, fs, NULL);
    if !c.mem[n].isDir {
      NotDir(mem0, sh0, c.root, fs, n, elem);
      return NOENT, NULL;
    }
    var it := FindChild(c, n, elem);
    if it == NULL {
      res, it := FindName(c, fs, n, elem);
      if res != OK {
        LookedOn(mem0, c.mem, c.mem, c.sh, c.root, fs, NotFound, NOENT, NULL) by { LookedNone(c.mem, c.sh, c.root, fs, NULL); }
        return res, NULL;
      }
    } else {
      ChildTrue(c.mem, c.sh, c.root, fs, n, it, elem);
      GrownSelf(mem0);
    }
    ghost var mem1 := c.mem;
    ghost var to := Chain(c.mem, c.sh, c.root, it);
    DownLength(fs, at, elem);
    match rest
    case None =>
      LookedHere(c.mem, c.sh, c.root, fs, it);
      res, node := OK, it;
      WalkSteps(fs, to, [], []);
      LookedOn(mem0, mem1, c.mem, c.sh, c.root, fs, Found(to), res, node);
    case Some(path) =>
      res, node := FindTree(c, fs, it, path);
      LookedOn(mem0, mem1, c.mem, c.sh, c.root, fs, Walk(fs, to, Elements(path)), res, node);
  }

  lemma {:induction false} DownLength(fs: Fs, at: Position, name: Name)
    ensures Down(fs, at, name).Found? ==> |Down(fs, at, name).at| == |at| + 1
  {
  }

  /** The danger of looking "." up as a name, element by element. */
  lemma {:induction false} DotSteps(depth: nat, e: Name, es: seq<Name>)
    ensures e == DOT ==> (DotAfterTop(depth, [e] + es) <==> DotAfterTop(depth, es))
    ensures e == DOTDOT && depth > 0 ==> (DotAfterTop(depth, [e] + es) <==> DotAfterTop(depth - 1, es))
    ensures e == DOTDOT && depth == 0 ==> (DotAfterTop(depth, [e] + es) <==> DotNext([e] + es))
    ensures e == DOTDOT ==> (DotNext([e] + es) <==> DotNext(es))
    ensures !Names.Dots(e) ==> (DotAfterTop(depth, [e] + es) <==> DotAfterTop(depth + 1, es))
    ensures e != DOTDOT ==> (DotNext([e] + es) <==> e == DOT || DotAfterTop(1, es))
  {
    var all := [e] + es;
    assert all[0] == e && all[1..] == es;
    assert DOT[..] != DOTDOT;
  }

  lemma {:induction false} NotDir(mem: Memory, sh: Shape, root: Ptr, fs: Fs, n: Ptr, name: Name)
    requires TreeOk(mem, sh, root) && n in mem && Coherent(mem, root, fs) && !mem[n].isDir
    ensures Down(fs, Chain(mem, sh, root, n), name) == NotFound
  {
    ChainMeans(mem, sh, root, n);
    NodeIs(mem, root, fs, n);
  }

  /** vfs_find_tree: whatever is cached, the walk through the cache ends where the walk that
      asks the file system for every component ends, or fails as it does. */
  method FindTree(c: Cache, fs: Fs, n: Ptr, path: Path) returns (res: int, node: Ptr)
    requires c.Valid() && n in c.mem && Coherent(c.mem, c.root, fs)
    modifies c
    ensures c.Valid()
    ensures Looked(old(c.mem), c.mem, c.sh, c.root, fs,
                   Walk(fs, Chain(old(c.mem), old(c.sh), c.root, n), Elements(path)), res, node)
    ensures NoDots(old(c.mem), c.root) && !DotAfterTop(old(|Chain(c.mem, c.sh, c.root, n)|) - 1, Elements(path)) ==>
              NoDots(c.mem, c.root)
    decreases |path|, 1
  {
    hide TreeOk, Coherent, Grown, Unused, Looked, Walk, AtTop, Into, Down, Elements, Up, NoDots, DotAfterTop, DotNext, Names.Dots;
    ghost var at := Chain(c.mem, c.sh, c.root, n);
    ghost var goal := Walk(fs, at, Elements(path));
    ghost var danger := DotAfterTop(|at| - 1, Elements(path));
    LookedHere(c.mem, c.sh, c.root, fs, n);
    ChainMeans(c.mem, c.sh, c.root, n);
    WalkSteps(fs, at, [], []);
    NoElements();
    if path == [] {
      return OK, n;
    }
    var elem, child := PathElement(path);
    while elem == DOT
      invariant c.mem == old(c.mem) && c.sh == old(c.sh)
      invariant (child.Some? ==> |child.value| < |path| && child.value != []) && goal == Walk(fs, at, [elem] + Rest(child))
      invariant danger <==> DotAfterTop(|at| - 1, [elem] + Rest(child))
      decreases if child.Some? then |child.value| + 1 else 0
    {
      WalkSteps(fs, at, elem, Rest(child));
      DotSteps(|at| - 1, elem, Rest(child));
      if child.None? {
        return OK, n;
      }
      var next := child.value;
      elem, child := PathElement(next);
    }
    WalkSteps(fs, at, elem, Rest(child));
    DotSteps(|at| - 1, elem, Rest(child));
    if elem == DOTDOT {
      if c.mem[n].parent != NULL {
        res, node := FindTree(c, fs, c.mem[n].parent, if child.Some? then child.value else []);
        return;
      }
      while elem == DOTDOT
        invariant c.mem == old(c.mem) && c.sh == old(c.sh)
        invariant (child.Some? ==> |child.value| < |path| && child.value != []) && goal == AtTop(fs, at, [elem] + Rest(child))
        invariant |at| == 1 && (danger <==> DotNext([elem] + Rest(child)))
        decreases if child.Some? then |child.value| + 1 else 0
      {
        WalkSteps(fs, at, elem, Rest(child));
        DotSteps(|at| - 1, elem, Rest(child));
        if child.None? {
          return OK, n;
        }
        var next := child.value;
        elem, child := PathElement(next);
      }
      WalkSteps(fs, at, elem, Rest(child));
      DotSteps(|at| - 1, elem, Rest(child));
    }
    DotsAre(elem);
    res, node := FindBelow(c, fs, n, elem, child);
  }

  lemma {:induction false} DotsAre(name: Name)
    ensures Names.Dots(name) <==> name == DOT || name == DOTDOT
  {
  }

  lemma {:induction false} NoElements()
    ensures Elements([]) == []
  {
  }
}
