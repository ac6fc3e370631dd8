/** vfs_unlink, and exactly when it leaves a stale node in the cache. */
module VfsRemove {
  import opened Dirents
  import opened Paths
  import opened Walks
  import opened VfsTree
  import opened VfsCache
  import opened VfsLookup
  import opened VfsCalls
  import Names

  /** The last component of the path is the name of what was found, its only one in that
      directory. */
  ghost predicate Sole(fs: Fs, found: Found, base: Name) {
    found.Found? && |found.at| > 1 ==>
      var d, ino := Last(Up(found.at)), Last(found.at);
      && d != ino && d in fs.dirs && base in fs.dirs[d] && fs.dirs[d][base] == ino
      && forall n :: n in fs.dirs[d] && fs.dirs[d][n] == ino ==> n == base
  }

  /** The file system after a name, and the directory it stood for, have gone. */
  function Without(fs: Fs, d: nat, name: Name, ino: nat): Fs
    requires d in fs.dirs
  {
    var names: map<Name, nat> := fs.dirs[d] - {name};
    Fs(fs.dirs[d := names] - {ino})
  }

  /** The one name an inode has. */
  datatype Link = Link(dir: nat, name: Name)

  /** Every inode has at most one name besides "." and "..", and the root has none. */
  ghost predicate OneName(fs: Fs, links: map<nat, Link>, root: nat) {
    && root !in links
    && forall d, n {:trigger n in fs.dirs[d]} :: d in fs.dirs && n in fs.dirs[d] && !Names.Dots(n) ==>
         fs.dirs[d][n] in links && links[fs.dirs[d][n]] == Link(d, n)
  }

  /** A directory that is removed holds nothing but "." and "..". */
  ghost predicate HoldsNothing(fs: Fs, ino: nat) {
    ino in fs.dirs ==> forall n :: n in fs.dirs[ino] ==> Names.Dots(n)
  }

  /** What removing a path does. */
  ghost predicate Removal(fs: Fs, fs': Fs, found: Found, base: Name, isCwd: bool, permitted: Code, made: Code, res: int) {
    match found
    case NotFound => fs' == fs && res == NOENT
    case Found(pos) =>
      if |pos| == 1 then fs' == fs && res == EACCES
      else if isCwd then fs' == fs && res == EINVAL
      else if permitted < 0 then fs' == fs && res == permitted
      else if made < 0 then fs' == fs && res == made
      else res == 0 && Last(Up(pos)) in fs.dirs && fs' == Without(fs, Last(Up(pos)), base, Last(pos))
  }

  /** After the removal the path leads nowhere, when the file system is asked. */
  lemma {:induction false} PathGone(mem: Memory, sh: Shape, root: Ptr, fs: Fs, at: Ptr, path: Path)
    requires TreeOk(mem, sh, root) && (at == NULL || at in mem) && Basename(path) != [] && !Names.Dots(Basename(path))
    ensures match Answer(mem, sh, root, fs, at, path)
            case NotFound => true
            case Found(pos) =>
              && |pos| > 1 && Last(Up(pos)) in fs.dirs
              && Answer(mem, sh, root, Without(fs, Last(Up(pos)), Basename(path), Last(pos)), at, path).NotFound?
  {
    var found := Answer(mem, sh, root, fs, at, path);
    var es, b := Elements(Stripped(Parent(path))), Basename(path);
    hide TreeOk, Walk, Elements, Stripped, Basename, Chain, Onward;
    RootIn(mem, sh, root);
    var start := Chain(mem, sh, root, StartAt(root, at, path));
    ElementsOfParent(path);
    WalkOn(fs, start, es, [b]);
    if found.Found? {
      NothingOnward(fs, EndsAtTop(|start| - 1, es), [b]);
      OneMore(fs, Walk(fs, start, es).at, EndsAtTop(|start| - 1, es), b);
      WalkGone(fs, Without(fs, Last(Up(found.at)), b, Last(found.at)), start, es, b);
    }
  }

  /** Node m still stands for the removed name, or for the removed directory. */
  ghost predicate Stale(mem: Memory, root: Ptr, m: Ptr, d: nat, name: Name, ino: nat, wasDir: bool)
    requires m in mem
  {
    || (m != root && mem[m].name == name && mem[m].parent in mem && mem[mem[m].parent].ino == d)
    || (wasDir && mem[m].ino == ino)
  }

  lemma {:induction false} KindsTwice(mem: Memory, mem1: Memory, mem2: Memory)
    requires SameKinds(mem, mem1) && SameKinds(mem1, mem2)
    ensures SameKinds(mem, mem2)
  {
  }

  /** After a removal the cache agrees with the file system exactly if nothing in it is stale. */
  lemma {:induction false} StaleExact(mem: Memory, sh: Shape, root: Ptr, fs: Fs, d: nat, name: Name, ino: nat)
    requires Coherent(mem, root, fs) && TreeOk(mem, sh, root) && d in fs.dirs && d != ino
    ensures Coherent(mem, root, Without(fs, d, name, ino)) <==>
              forall m :: m in mem ==> !Stale(mem, root, m, d, name, ino, ino in fs.dirs)
  {
    hide TreeOk, Without, NodeTrue, Stale;
    var fs' := Without(fs, d, name, ino);
    if Coherent(mem, root, fs') {
      forall m | m in mem ensures !Stale(mem, root, m, d, name, ino, ino in fs.dirs) {
        StaleNode(mem, root, fs, d, name, ino, m);
      }
    }
    if forall m :: m in mem ==> !Stale(mem, root, m, d, name, ino, ino in fs.dirs) {
      forall m | m in mem ensures NodeTrue(mem, root, fs', m) {
        StaleNode(mem, root, fs, d, name, ino, m);
        ParentIn(mem, sh, root, m);
      }
    }
  }

  lemma {:induction false} ParentIn(mem: Memory, sh: Shape, root: Ptr, m: Ptr)
    requires TreeOk(mem, sh, root) && m in mem
    ensures m != root ==> mem[m].parent in mem
  {
    assert PlaceOk(mem, sh, root, m);
  }

  lemma {:induction false} StaleNode(mem: Memory, root: Ptr, fs: Fs, d: nat, name: Name, ino: nat, m: Ptr)
    requires m in mem && NodeTrue(mem, root, fs, m) && d in fs.dirs && d != ino
    ensures Stale(mem, root, m, d, name, ino, ino in fs.dirs) ==> !NodeTrue(mem, root, Without(fs, d, name, ino), m)
    ensures !Stale(mem, root, m, d, name, ino, ino in fs.dirs)
            && (m != root ==> mem[m].parent in mem && !Stale(mem, root, mem[m].parent, d, name, ino, ino in fs.dirs)) ==>
              NodeTrue(mem, root, Without(fs, d, name, ino), m)
  {
    WithoutAt(fs, d, name, ino);
    hide Without;
  }

  lemma {:induction false} WithoutAt(fs: Fs, d: nat, name: Name, ino: nat)
    requires d in fs.dirs && d != ino
    ensures forall i :: i in Without(fs, d, name, ino).dirs <==> i in fs.dirs && i != ino
    ensures forall i :: i in fs.dirs && i != ino && i != d ==> Without(fs, d, name, ino).dirs[i] == fs.dirs[i]
    ensures forall n :: n in Without(fs, d, name, ino).dirs[d] <==> n in fs.dirs[d] && n != name
    ensures forall n :: n in fs.dirs[d] && n != name ==> Without(fs, d, name, ino).dirs[d][n] == fs.dirs[d][n]
  {
  }

  lemma {:induction false} KindsCoherent(mem: Memory, mem': Memory, sh': Shape, root: Ptr, fs: Fs)
    requires Coherent(mem, root, fs) && SameKinds(mem, mem') && TreeOk(mem', sh', root)
    ensures Coherent(mem', root, fs)
  {
    hide TreeOk;
    forall m | m in mem' ensures NodeTrue(mem', root, fs, m) {
      assert NodeTrue(mem, root, fs, m);
      KindAt(mem, mem', m);
      ParentIn(mem', sh', root, m);
    }
  }

  /** vnode_unref on a vnode that is held, whatever the file system says by now. */
  method Release(x: Vfs, n: Ptr, ghost extra: multiset<Ptr>)
    requires x.cache.Valid() && RefsOk(x.cache.mem, x.cache.root, x.Holders() + extra) && n in extra
    modifies x.cache
    ensures x.cache.Valid() && RefsOk(x.cache.mem, x.cache.root, x.Holders() + (extra - multiset{n}))
    ensures SameKinds(old(x.cache.mem), x.cache.mem) && n in old(x.cache.mem)
    ensures n != x.cache.root && old(x.cache.mem)[n].refcount == 1 && old(x.cache.mem)[n].child == NULL ==> n !in x.cache.mem
  {
    hide TreeOk, RefsOk, Counted, Kept, Doomed, SameKinds;
    ghost var mem, sh, holders := x.cache.mem, x.cache.sh, x.Holders() + extra;
    HolderThere(mem, x.cache.root, holders, n);
    x.cache.Unref(n);
    assert x.Holders() + (extra - multiset{n}) == holders - multiset{n};
    if n == x.cache.root {
      RootUncounted(mem, x.cache.root, holders);
      KindsSelf(mem);
    } else {
      UnrefRefs(mem, x.cache.mem, sh, x.cache.root, holders, n);
      KindsKept(mem, x.cache.mem, x.cache.root, n);
      CountedAt(mem, x.cache.root, n, mem[n].refcount - 1);
      if mem[n].refcount == 1 && mem[n].child == NULL {
        SelfDoomed(Counted(mem, x.cache.root, n, 0), sh, x.cache.root, n);
      }
    }
  }

  lemma {:induction false} KindsSelf(mem: Memory)
    ensures SameKinds(mem, mem)
  {
  }

  lemma {:induction false} CountedAt(mem: Memory, root: Ptr, n: Ptr, count: nat)
    requires n in mem && n != root
    ensures n in Counted(mem, root, n, count) && Counted(mem, root, n, count)[n] == mem[n].(refcount := count)
  {
  }

  lemma {:induction false} SelfDoomed(mem: Memory, sh: Shape, root: Ptr, n: Ptr)
    requires TreeOk(mem, sh, root) && n in mem && n != root
    ensures n in Doomed(mem, sh, root, n)
  {
  }

  /** A file has no cached children. */
  lemma {:induction false} FileChildless(mem: Memory, sh: Shape, root: Ptr, fs: Fs, n: Ptr)
    requires TreeOk(mem, sh, root) && Coherent(mem, root, fs) && n in mem && mem[n].ino !in fs.dirs
    ensures mem[n].child == NULL
  {
    hide TreeOk, Coherent;
    RootParent(mem, sh, root, n);
    if sh.kids[n] != [] {
      KidIs(mem, sh, root, n, 0);
      NodeIn(mem, root, fs, sh.kids[n][0]);
    }
  }

  lemma {:induction false} NodeIn(mem: Memory, root: Ptr, fs: Fs, m: Ptr)
    requires Coherent(mem, root, fs) && m in mem && m != root
    ensures mem[m].parent in mem && mem[mem[m].parent].ino in fs.dirs && mem[m].name in fs.dirs[mem[mem[m].parent].ino]
    ensures fs.dirs[mem[mem[m].parent].ino][mem[m].name] == mem[m].ino
  {
    assert NodeTrue(mem, root, fs, m);
  }

  /** Nothing is cached below a directory that holds nothing. */
  lemma {:induction false} EmptyChildless(mem: Memory, sh: Shape, root: Ptr, fs: Fs, n: Ptr)
    requires TreeOk(mem, sh, root) && Coherent(mem, root, fs) && NoDots(mem, root) && n in mem && HoldsNothing(fs, mem[n].ino)
    ensures mem[n].child == NULL
  {
    hide TreeOk, Coherent, Names.Dots;
    RootParent(mem, sh, root, n);
    if sh.kids[n] != [] {
      KidIs(mem, sh, root, n, 0);
      NodeIn(mem, root, fs, sh.kids[n][0]);
    }
  }

  lemma {:induction false} LinkIs(mem: Memory, root: Ptr, fs: Fs, links: map<nat, Link>, m: Ptr)
    requires root in mem && Coherent(mem, root, fs) && NoDots(mem, root) && OneName(fs, links, mem[root].ino) && m in mem && m != root
    ensures mem[m].parent in mem && mem[mem[m].parent].ino in fs.dirs
    ensures mem[m].ino in links && links[mem[m].ino] == Link(mem[mem[m].parent].ino, mem[m].name)
  {
    hide Coherent, Names.Dots;
    NodeIn(mem, root, fs, m);
    assert mem[m].name in fs.dirs[mem[mem[m].parent].ino];
  }

  lemma {:induction false} SiblingNames(mem: Memory, sh: Shape, root: Ptr, a: Ptr, b: Ptr)
    requires TreeOk(mem, sh, root) && a in mem && b in mem && a != root && b != root
    requires mem[a].parent == mem[b].parent && mem[a].name == mem[b].name
    ensures a == b
  {
    assert PlaceOk(mem, sh, root, a) && PlaceOk(mem, sh, root, b) && ListOk(mem, sh, mem[a].parent);
    assert KidOk(mem, sh, mem[a].parent, sh.place[a]) && KidOk(mem, sh, mem[b].parent, sh.place[b]);
  }

  lemma {:induction false} ParentAbove(mem: Memory, sh: Shape, root: Ptr, a: Ptr)
    requires TreeOk(mem, sh, root) && a in mem && a in sh.depth && a != root
    ensures mem[a].parent in mem && mem[a].parent in sh.depth && sh.depth[a] == sh.depth[mem[a].parent] + 1
  {
    assert PlaceOk(mem, sh, root, a);
  }

  /** Each directory is cached at most once. */
  lemma {:induction false} DirsOnce(mem: Memory, sh: Shape, root: Ptr, fs: Fs, links: map<nat, Link>, a: Ptr, b: Ptr)
    requires TreeOk(mem, sh, root) && Coherent(mem, root, fs) && NoDots(mem, root) && root in mem && OneName(fs, links, mem[root].ino)
    requires a in mem && b in mem && a in sh.depth && mem[a].ino == mem[b].ino
    ensures a == b
    decreases sh.depth[a]
  {
    hide TreeOk, Coherent, NoDots, OneName;
    assert mem[root].ino !in links by { RootUnlinked(fs, links, mem[root].ino); }
    if a != root {
      LinkIs(mem, root, fs, links, a);
    }
    if b != root {
      LinkIs(mem, root, fs, links, b);
    }
    if a != root && b != root {
      ParentAbove(mem, sh, root, a);
      DirsOnce(mem, sh, root, fs, links, mem[a].parent, mem[b].parent);
      SiblingNames(mem, sh, root, a, b);
    }
  }

  lemma {:induction false} RootUnlinked(fs: Fs, links: map<nat, Link>, root: nat)
    requires OneName(fs, links, root)
    ensures root !in links
  {
  }

  /** If node m of the cache is stale once node n has gone, it was n. */
  lemma {:induction false} StaleIsGone(mem: Memory, sh: Shape, mem': Memory, root: Ptr, fs: Fs, links: map<nat, Link>, n: Ptr, m: Ptr, wasDir: bool)
    requires TreeOk(mem, sh, root) && Coherent(mem, root, fs) && NoDots(mem, root) && root in mem && OneName(fs, links, mem[root].ino)
    requires n in mem && n != root && mem[n].parent in mem && SameKinds(mem, mem') && m in mem'
    requires Stale(mem', root, m, mem[mem[n].parent].ino, mem[n].name, mem[n].ino, wasDir)
    ensures m == n
  {
    hide TreeOk, Coherent, NoDots, OneName, SameKinds;
    KindAt(mem, mem', m);
    RootParent(mem, sh, root, n);
    RootParent(mem, sh, root, mem[n].parent);
    RootParent(mem, sh, root, m);
    if mem'[m].ino == mem[n].ino {
      DirsOnce(mem, sh, root, fs, links, n, m);
    } else {
      KindAt(mem, mem', mem'[m].parent);
      DirsOnce(mem, sh, root, fs, links, mem[n].parent, mem[m].parent);
      SiblingNames(mem, sh, root, n, m);
    }
  }

  /** What the lookup of a name other than the root's found. */
  lemma {:induction false} FoundNode(mem: Memory, sh: Shape, root: Ptr, fs: Fs, found: Found, base: Name, n: Ptr)
    requires TreeOk(mem, sh, root) && Coherent(mem, root, fs) && n in mem && found == Found(Chain(mem, sh, root, n))
    ensures |found.at| == 1 <==> n == root
    ensures mem[n].parent == NULL <==> n == root
    ensures n != root ==> mem[n].parent in mem && mem[mem[n].parent].ino == Last(Up(found.at)) && mem[n].ino == Last(found.at)
    ensures n != root && Sole(fs, found, base) ==> mem[n].name == base
  {
    hide TreeOk, Coherent, Chain;
    ChainMeans(mem, sh, root, n);
    if n != root {
      NodeIn(mem, root, fs, n);
      ChainMeans(mem, sh, root, mem[n].parent);
    }
  }

  lemma {:induction false} HolderStale(mem: Memory, mem': Memory, sh': Shape, root: Ptr, holders: multiset<Ptr>, n: Ptr, d: nat, name: Name, ino: nat, wasDir: bool)
    requires SameKinds(mem, mem') && TreeOk(mem', sh', root) && RefsOk(mem', root, holders) && n in holders
    requires n in mem && n != root && mem[n].name == name && mem[n].parent in mem && mem[mem[n].parent].ino == d
    ensures n in mem' && Stale(mem', root, n, d, name, ino, wasDir)
  {
    ParentIn(mem', sh', root, n);
    hide TreeOk;
  }

  /** The last part of vfs_unlink: the file system removed the name, both uses are given up. */
  method Forget(x: Vfs, node: Ptr, parent: Ptr, d: nat, name: Name, ino: nat, ghost links: map<nat, Link>)
    requires x.Good(multiset{node, parent}) && node in x.cache.mem && node != x.cache.root && parent == x.cache.mem[node].parent
    requires parent in x.cache.mem && x.cache.mem[parent].ino == d && x.cache.mem[node].ino == ino && x.cache.mem[node].name == name
    requires d in x.fs.dirs && d != ino && x.cache.mem[node].refcount == x.Holders()[node] + 1
    requires HoldsNothing(x.fs, ino)
    modifies x`fs, x.cache
    ensures x.cache.Valid() && RefsOk(x.cache.mem, x.cache.root, x.Holders())
    ensures d in old(x.fs).dirs && x.fs == Without(old(x.fs), d, name, ino)
    ensures Coherent(x.cache.mem, x.cache.root, x.fs) <==>
              forall m :: m in x.cache.mem ==> !Stale(x.cache.mem, x.cache.root, m, d, name, ino, ino in old(x.fs).dirs)
    ensures node in x.Holders() ==> node in x.cache.mem && Stale(x.cache.mem, x.cache.root, node, d, name, ino, ino in old(x.fs).dirs)
    ensures node !in x.Holders() && ino !in old(x.fs).dirs ==> node !in x.cache.mem
    ensures NoDots(old(x.cache.mem), x.cache.root) && Links(old(x.cache.mem), x.cache.root, old(x.fs), links) ==>
              (Coherent(x.cache.mem, x.cache.root, x.fs) <==> node !in x.Holders())
  {
    hide TreeOk, Coherent, RefsOk, SameKinds, Stale, Without, NoDots, OneName, HoldsNothing, Links;
    ghost var mem, sh, fs := x.cache.mem, x.cache.sh, x.fs;
    if NoDots(mem, x.cache.root) {
      EmptyChildless(mem, sh, x.cache.root, fs, node);
    }
    if ino !in fs.dirs {
      FileChildless(mem, x.cache.sh, x.cache.root, fs, node);
    }
    x.fs := Without(x.fs, d, name, ino);
    assert multiset{node, parent} - multiset{node} == multiset{parent} && multiset{parent} - multiset{parent} == multiset{};
    Release(x, node, multiset{node, parent});
    ghost var mem1 := x.cache.mem;
    Release(x, parent, multiset{parent});
    KindsTwice(mem, mem1, x.cache.mem);
    assert x.Holders() + multiset{} == x.Holders();
    KindsCoherent(mem, x.cache.mem, x.cache.sh, x.cache.root, fs);
    StaleExact(x.cache.mem, x.cache.sh, x.cache.root, fs, d, name, ino);
    if node in x.Holders() {
      HolderStale(mem, x.cache.mem, x.cache.sh, x.cache.root, x.Holders(), node, d, name, ino, ino in fs.dirs);
    }
    StaysOut(mem1, x.cache.mem, node);
    if NoDots(mem, x.cache.root) && Links(mem, x.cache.root, fs, links) && node !in x.Holders() {
      LinksMean(mem, x.cache.root, fs, links);
      forall m | m in x.cache.mem ensures !Stale(x.cache.mem, x.cache.root, m, d, name, ino, ino in fs.dirs) {
        if Stale(x.cache.mem, x.cache.root, m, d, name, ino, ino in fs.dirs) {
          StaleIsGone(mem, sh, x.cache.mem, x.cache.root, fs, links, node, m, ino in fs.dirs);
        }
      }
    }
  }

  ghost predicate Links(mem: Memory, root: Ptr, fs: Fs, links: map<nat, Link>) {
    root in mem && OneName(fs, links, mem[root].ino)
  }

  lemma {:induction false} LinksMean(mem: Memory, root: Ptr, fs: Fs, links: map<nat, Link>)
    requires Links(mem, root, fs, links)
    ensures root in mem && OneName(fs, links, mem[root].ino)
  {
  }

  lemma {:induction false} StaysOut(mem: Memory, mem': Memory, n: Ptr)
    requires SameKinds(mem, mem')
    ensures n !in mem ==> n !in mem'
  {
  }

  /** node is counted once for each holder and once for the call itself. */
  lemma {:induction false} CountNow(mem: Memory, sh: Shape, root: Ptr, holders: multiset<Ptr>, n: Ptr)
    requires TreeOk(mem, sh, root) && n in mem && n != root && RefsOk(mem, root, holders + multiset{n, mem[n].parent})
    ensures mem[n].refcount == holders[n] + 1
  {
    assert PlaceOk(mem, sh, root, n);
  }

  lemma {:induction false} HoldParent(mem: Memory, root: Ptr, n: Ptr, p: Ptr, count: nat)
    requires n in mem && p in mem
    ensures var mem' := Counted(mem, root, p, count);
            && n in mem' && p in mem' && mem'[n].parent == mem[n].parent && mem'[n].ino == mem[n].ino && mem'[n].name == mem[n].name
            && mem'[p].ino == mem[p].ino
  {
  }

  lemma {:induction false} RemovalFails(fs: Fs, found: Found, base: Name, permitted: Code, made: Code)
    ensures found.NotFound? ==> Removal(fs, fs, found, base, false, permitted, made, NOENT)
    ensures found.Found? && |found.at| == 1 ==> forall isCwd :: Removal(fs, fs, found, base, isCwd, permitted, made, EACCES)
    ensures found.Found? && |found.at| > 1 ==> Removal(fs, fs, found, base, true, permitted, made, EINVAL)
    ensures found.Found? && |found.at| > 1 && permitted < 0 ==> Removal(fs, fs, found, base, false, permitted, made, permitted)
    ensures found.Found? && |found.at| > 1 && permitted == 0 && made < 0 ==> Removal(fs, fs, found, base, false, permitted, made, made)
    ensures found.Found? && |found.at| > 1 && permitted == 0 && made == 0 && Last(Up(found.at)) in fs.dirs ==>
              Removal(fs, Without(fs, Last(Up(found.at)), base, Last(found.at)), found, base, false, permitted, made, 0)
  {
  }

  lemma {:induction false} SoleMeans(fs: Fs, found: Found, base: Name)
    requires Sole(fs, found, base) && found.Found? && |found.at| > 1
    ensures Last(Up(found.at)) in fs.dirs && Last(Up(found.at)) != Last(found.at)
  {
  }

  /** How the cache stands after the removal of a name. */
  ghost predicate Removed(mem: Memory, root: Ptr, fs: Fs, fs': Fs, holders: multiset<Ptr>, node: Ptr, pos: Position, base: Name)
    requires |pos| > 1
  {
    var d, ino := Last(Up(pos)), Last(pos);
    && RefsOk(mem, root, holders)
    && (Coherent(mem, root, fs') <==> forall m :: m in mem ==> !Stale(mem, root, m, d, base, ino, ino in fs.dirs))
    && (node in holders ==> node in mem && Stale(mem, root, node, d, base, ino, ino in fs.dirs))
    && (node !in holders && ino !in fs.dirs ==> node !in mem)
  }

  /** The part of vfs_unlink that follows once the vnode is held. */
  method RemoveHeld(x: Vfs, node: Ptr, base: Name, permitted: Code, made: Code, ghost pos: Position, ghost links: map<nat, Link>)
    returns (res: int)
    requires x.Good(multiset{node}) && node in x.cache.mem && node != x.cache.root && node != x.cwd && |pos| > 1
    requires var p := x.cache.mem[node].parent; p in x.cache.mem && x.cache.mem[p].ino == Last(Up(pos))
    requires x.cache.mem[node].ino == Last(pos) && x.cache.mem[node].name == base
    requires Last(Up(pos)) in x.fs.dirs && Last(Up(pos)) != Last(pos) && (made == 0 ==> HoldsNothing(x.fs, Last(pos)))
    modifies x`fs, x.cache
    ensures x.cache.Valid() && Removal(old(x.fs), x.fs, Found(pos), base, false, permitted, made, res)
    ensures res != 0 ==> x.Ready()
    ensures res == 0 ==> Removed(x.cache.mem, x.cache.root, old(x.fs), x.fs, x.Holders(), node, pos, base)
    ensures res == 0 && NoDots(old(x.cache.mem), x.cache.root) && Links(old(x.cache.mem), x.cache.root, old(x.fs), links) ==>
              (Coherent(x.cache.mem, x.cache.root, x.fs) <==> node !in x.Holders())
  {
    hide TreeOk, Coherent, RefsOk, Grown, Removal, Stale, Without, Chain, NoDots, Links, HoldsNothing;
    ghost var mem := x.cache.mem;
    RemovalFails(x.fs, Found(pos), base, permitted, made);
    var parent := x.cache.mem[node].parent;
    x.Hold(parent, multiset{node});
    HoldParent(mem, x.cache.root, node, parent, mem[parent].refcount + 1);
    assert multiset{node} + multiset{parent} == multiset{node, parent};
    if permitted < 0 || made < 0 {
      assert multiset{node, parent} - multiset{node} == multiset{parent} && multiset{parent} - multiset{parent} == multiset{};
      x.Drop(node, multiset{node, parent});
      x.Drop(parent, multiset{parent});
      return if permitted < 0 then permitted else made;
    }
    CountNow(x.cache.mem, x.cache.sh, x.cache.root, x.Holders(), node);
    LinksKept(mem, x.cache.root, x.fs, links, parent, mem[parent].refcount + 1);
    Forget(x, node, parent, x.cache.mem[parent].ino, base, x.cache.mem[node].ino, links);
    res := 0;
  }

  /** Counting a node changes neither what is cached nor under which names. */
  lemma {:induction false} LinksKept(mem: Memory, root: Ptr, fs: Fs, links: map<nat, Link>, n: Ptr, count: nat)
    requires n in mem
    ensures NoDots(mem, root) ==> NoDots(Counted(mem, root, n, count), root)
    ensures Links(mem, root, fs, links) ==> Links(Counted(mem, root, n, count), root, fs, links)
  {
    hide OneName, Names.Dots;
  }

  lemma {:induction false} LinksGrown(mem: Memory, mem': Memory, root: Ptr, fs: Fs, links: map<nat, Link>)
    requires Grown(mem, mem')
    ensures Links(mem, root, fs, links) ==> Links(mem', root, fs, links)
  {
    hide OneName;
    if root in mem {
      assert SameNode(mem[root], mem'[root]);
    }
  }

  /** vfs_unlink; `permitted` and `made` are what the permission check and the file system
      answer. The code does not look whether the vnode is still in use: a success leaves the
      cache agreeing with the file system if and only if it is not. (That is for caches in
      which nothing is called "." or ".."; in general, if and only if no other node stands
      for what was removed.) Removing the working directory fails with one use of it too
      many. */
  method Unlink(x: Vfs, path: Path, permitted: Code, made: Code, ghost links: map<nat, Link>) returns (res: int, node: Ptr)
    requires x.Ready() && Sole(x.fs, x.CwdAnswer(x.cache.mem, x.cache.sh, path), Basename(path))
    requires made == 0 && x.CwdAnswer(x.cache.mem, x.cache.sh, path).Found? ==>
               HoldsNothing(x.fs, Last(x.CwdAnswer(x.cache.mem, x.cache.sh, path).at))
    modifies x`fs, x.cache
    ensures x.cache.Valid()
    ensures Removal(old(x.fs), x.fs, old(x.CwdAnswer(x.cache.mem, x.cache.sh, path)), Basename(path), node == x.cwd != NULL, permitted, made, res)
    ensures res != 0 ==> x.Good(if res == EINVAL && node == x.cwd != NULL then multiset{node} else multiset{})
    ensures res == 0 ==>
              var pos := old(x.CwdAnswer(x.cache.mem, x.cache.sh, path)).at;
              |pos| > 1 && Removed(x.cache.mem, x.cache.root, old(x.fs), x.fs, x.Holders(), node, pos, Basename(path))
    ensures res == 0 && old((x.cwd == NULL || x.cwd in x.cache.mem) && Tidy(x.cache.mem, x.cache.sh, x.cache.root, x.cwd, path))
            && old(Links(x.cache.mem, x.cache.root, x.fs, links)) ==>
              (Coherent(x.cache.mem, x.cache.root, x.fs) <==> node !in x.Holders())
  {
    hide TreeOk, Coherent, RefsOk, Grown, Answer, Basename, Removal, Removed, Sole, Chain, NoDots, Links, HoldsNothing, DotAfterTop;
    ghost var found, fs, mem0 := x.CwdAnswer(x.cache.mem, x.cache.sh, path), x.fs, x.cache.mem;
    x.CwdThere();
    RemovalFails(fs, found, Basename(path), permitted, made);
    res, node := x.Find(x.cwd, path, multiset{});
    if res != 0 {
      return res, NULL;
    }
    ghost var mem := x.cache.mem;
    LinksGrown(mem0, mem, x.cache.root, fs, links);
    FoundNode(mem, x.cache.sh, x.cache.root, fs, found, Basename(path), node);
    NotNull(mem, x.cache.sh, x.cache.root, node);
    assert multiset{} + multiset{node} == multiset{node} && multiset{node} - multiset{node} == multiset{};
    x.Hold(node, multiset{});
    HoldParent(mem, x.cache.root, node, node, mem[node].refcount + 1);
    LinksKept(mem, x.cache.root, fs, links, node, mem[node].refcount + 1);
    if x.cache.mem[node].parent == NULL {
      x.Drop(node, multiset{node});
      return EACCES, node;
    }
    if node == x.cwd {
      return EINVAL, node;
    }
    SoleMeans(fs, found, Basename(path));
    HoldParent(mem, x.cache.root, mem[node].parent, node, mem[node].refcount + 1);
    res := RemoveHeld(x, node, Basename(path), permitted, made, found.at, links);
  }
}
