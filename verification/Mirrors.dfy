/** The two halves together: what the VFS layer takes the file system to answer is what the
    directories on the device say, after any run of operations. */
module Mirrors {
  import opened Bytes
  import opened Layout
  import opened Inodes
  import opened State
  import opened Dirents
  import opened DirBlocks
  import opened Listings
  import opened Effects
  import opened Fsck
  import opened Runs
  import Names
  import FsckDirs
  import FsckMake
  import Paths
  import Walks
  import VfsTree
  import VfsLookup
  import VfsCalls
  import VfsRemove

  /** A directory's names, as the VFS layer sees them, are its entries. */
  ghost predicate DirMirror(names: map<Name, nat>, es: set<Entry>) {
    && (forall n :: n in names ==> names[n] < U32_LIMIT && Entry(names[n], n) in es)
    && (forall e :: e in es ==> e.name in names && names[e.name] == e.ino as nat)
  }

  ghost predicate Mirror(fs: Walks.Fs, t: Names.Tree) {
    fs.dirs.Keys == t.Keys && forall d :: d in t ==> DirMirror(fs.dirs[d], t[d])
  }

  lemma {:induction false} MirrorAdd(names: map<Name, nat>, es: set<Entry>, e: Entry)
    requires DirMirror(names, es) && forall f :: f in es ==> f.name != e.name
    ensures DirMirror(names[e.name := e.ino as nat], es + {e})
  {
  }

  lemma {:induction false} MirrorRemove(names: map<Name, nat>, es: set<Entry>, e: Entry)
    requires DirMirror(names, es) && e in es
    ensures DirMirror(names - {e.name}, es - {e})
  {
    var names' := names - {e.name};
    forall n | n in names' ensures names'[n] < U32_LIMIT && Entry(names'[n], n) in es - {e} {
      assert names[n] == names'[n];
    }
    forall f | f in es - {e} ensures f.name in names' && names'[f.name] == f.ino as nat {
      assert f.name == e.name ==> f == e;
    }
  }

  lemma {:induction false} MirrorCreate(fs: Walks.Fs, t: Names.Tree, d: nat, e: Entry)
    requires Mirror(fs, t) && d in t && forall f :: f in t[d] ==> f.name != e.name
    ensures d in fs.dirs && Mirror(VfsCalls.WithFile(fs, d, e.name, e.ino as nat), Names.TreeWith(t, d, e, false))
  {
    hide DirMirror;
    MirrorAdd(fs.dirs[d], t[d], e);
  }

  lemma {:induction false} MirrorDots(d: nat, e: Entry)
    requires d < U32_LIMIT
    ensures var dots: map<Name, nat> := map[DOT := e.ino as nat, DOTDOT := d]; DirMirror(dots, {Entry(e.ino, DOT), Entry(d, DOTDOT)})
  {
  }

  lemma {:induction false} MirrorMake(fs: Walks.Fs, t: Names.Tree, d: nat, e: Entry)
    requires Mirror(fs, t) && d in t && d < U32_LIMIT && forall f :: f in t[d] ==> f.name != e.name
    ensures d in fs.dirs && Mirror(VfsCalls.WithDir(fs, d, e.name, e.ino as nat), Names.TreeWith(t, d, e, true))
  {
    hide DirMirror;
    MirrorAdd(fs.dirs[d], t[d], e);
    MirrorDots(d, e);
  }

  lemma {:induction false} MirrorUnlink(fs: Walks.Fs, t: Names.Tree, d: nat, e: Entry)
    requires Mirror(fs, t) && d in t && e in t[d]
    ensures d in fs.dirs && Mirror(VfsRemove.Without(fs, d, e.name, e.ino as nat), Names.TreeLess(t, d, e))
  {
    hide DirMirror;
    MirrorRemove(fs.dirs[d], t[d], e);
  }

  /** What the VFS layer takes to have happened. */
  ghost function FsAfter(fs: Walks.Fs, step: Step): Walks.Fs {
    match step
    case Create(d, e, _, _) => if d in fs.dirs then VfsCalls.WithFile(fs, d, e.name, e.ino as nat) else fs
    case Make(d, made) => if d in fs.dirs then VfsCalls.WithDir(fs, d, made.e.name, made.e.ino as nat) else fs
    case Remove(_, d, e, _) => if d in fs.dirs then VfsRemove.Without(fs, d, e.name, e.ino as nat) else fs
    case _ => fs
  }

  lemma {:induction false} LiveDirIn(v: View, bs: nat, live: set<nat>, d: nat)
    requires bs > 0 && LiveDir(v, live, d)
    ensures d in TreeOf(v, bs, live) && TreeOf(v, bs, live)[d] == Content(ListingOf(v.data, v.table[d], bs))
  {
    hide ListingOf, Content, IsDir;
  }

  lemma {:induction false} UnnamedIn(es: seq<Entry>, name: Name)
    requires Unnamed(es, name)
    ensures forall f :: f in Content(es) ==> f.name != name
  {
  }

  lemma {:induction false} InContent(es: seq<Entry>, e: Entry)
    requires e in es
    ensures e in Content(es)
  {
  }

  lemma {:induction false} DirSmall(v: View, geo: Geometry, c: Catalog, d: nat)
    requires Ok(v, geo, c) && d in TreeOf(v, geo.blockSize, c.Live())
    ensures d < U32_LIMIT
  {
    assert Names.DirNamesOk(TreeOf(v, geo.blockSize, c.Live()), c.home, ROOT, d);
  }

  lemma {:induction false} CreateMirrors(v: View, v': View, geo: Geometry, c: Catalog, fs: Walks.Fs, ahead: Open, step: Step)
    requires Ok(v, geo, c) && step.Create? && StepOk(v, v', geo, c, ahead, step) && Mirror(fs, TreeOf(v, geo.blockSize, c.Live()))
    ensures Mirror(FsAfter(fs, step), TreeAfter(TreeOf(v, geo.blockSize, c.Live()), step))
  {
    var t, d, e := TreeOf(v, geo.blockSize, c.Live()), step.d, step.e;
    hide Ok, TreeOf, Mirror, Creates, Names.TreeWith, ListingOf, Content, Unnamed, IsDir, VfsCalls.WithFile;
    LiveDirIn(v, geo.blockSize, c.Live(), d);
    UnnamedIn(ListingOf(v.data, v.table[d], geo.blockSize), e.name);
    MirrorCreate(fs, t, d, e);
  }

  lemma {:induction false} MakeStep(v: View, v': View, geo: Geometry, c: Catalog, fs: Walks.Fs, t: Names.Tree, ahead: Open, step: Step)
    requires geo.blockSize > 0 && step.Make? && StepOk(v, v', geo, c, ahead, step)
    ensures LiveDir(v, c.Live(), step.d) && Unnamed(ListingOf(v.data, v.table[step.d], geo.blockSize), step.made.e.name)
    ensures step.d in fs.dirs ==> FsAfter(fs, step) == VfsCalls.WithDir(fs, step.d, step.made.e.name, step.made.e.ino as nat)
    ensures step.d in t && step.d < U32_LIMIT ==> TreeAfter(t, step) == Names.TreeWith(t, step.d, step.made.e, true)
  {
    hide Makes, ListingOf, Unnamed, LiveDir, VfsCalls.WithDir, Names.TreeWith;
  }

  lemma {:induction false} MakeMirrors(v: View, v': View, geo: Geometry, c: Catalog, fs: Walks.Fs, ahead: Open, step: Step)
    requires Ok(v, geo, c) && step.Make? && StepOk(v, v', geo, c, ahead, step) && Mirror(fs, TreeOf(v, geo.blockSize, c.Live()))
    ensures Mirror(FsAfter(fs, step), TreeAfter(TreeOf(v, geo.blockSize, c.Live()), step))
  {
    var t, d := TreeOf(v, geo.blockSize, c.Live()), step.d;
    hide *;
    FsckDirs.OkParts(v, geo, c);
    MakeStep(v, v', geo, c, fs, t, ahead, step);
    LiveDirIn(v, geo.blockSize, c.Live(), d);
    DirSmall(v, geo, c, d);
    UnnamedIn(ListingOf(v.data, v.table[d], geo.blockSize), step.made.e.name);
    MirrorMake(fs, t, d, step.made.e);
  }

  lemma {:induction false} RemoveMirrors(v: View, v': View, geo: Geometry, c: Catalog, fs: Walks.Fs, ahead: Open, step: Step)
    requires Ok(v, geo, c) && step.Remove? && StepOk(v, v', geo, c, ahead, step) && Mirror(fs, TreeOf(v, geo.blockSize, c.Live()))
    ensures Mirror(FsAfter(fs, step), TreeAfter(TreeOf(v, geo.blockSize, c.Live()), step))
  {
    var t, d, e := TreeOf(v, geo.blockSize, c.Live()), step.d, step.e;
    hide Ok, TreeOf, Mirror, FsckMake.Unlinks, Names.TreeLess, ListingOf, Content, IsDir, VfsRemove.Without;
    LiveDirIn(v, geo.blockSize, c.Live(), d);
    InContent(ListingOf(v.data, v.table[d], geo.blockSize), e);
    MirrorUnlink(fs, t, d, e);
  }

  lemma {:induction false} FileStepMirrors(fs: Walks.Fs, t: Names.Tree, step: Step)
    requires !step.Create? && !step.Make? && !step.Remove? && Mirror(fs, t)
    ensures Mirror(FsAfter(fs, step), TreeAfter(t, step))
  {
  }

  lemma {:induction false} StepMirrors(v: View, v': View, geo: Geometry, c: Catalog, fs: Walks.Fs, ahead: Open, step: Step)
    requires Ok(v, geo, c) && AllAhead(v, geo, c, ahead) && StepOk(v, v', geo, c, ahead, step) && Mirror(fs, TreeOf(v, geo.blockSize, c.Live()))
    ensures Mirror(FsAfter(fs, step), TreeOf(v', geo.blockSize, After(v, geo, c, step).Live()))
  {
    hide *;
    FsckDirs.OkParts(v, geo, c);
    StepKeeps(v, v', geo, c, ahead, step);
    if step.Create? {
      CreateMirrors(v, v', geo, c, fs, ahead, step);
    } else if step.Make? {
      MakeMirrors(v, v', geo, c, fs, ahead, step);
    } else if step.Remove? {
      RemoveMirrors(v, v', geo, c, fs, ahead, step);
    } else {
      FileStepMirrors(fs, TreeOf(v, geo.blockSize, c.Live()), step);
    }
  }

  ghost function FsAfterRun(fs: Walks.Fs, steps: seq<Step>): Walks.Fs
    decreases |steps|
  {
    if steps == [] then fs else FsAfterRun(FsAfter(fs, steps[0]), steps[1..])
  }

  /** After any run on a clean volume the VFS layer's idea of the names is what is on the device. */
  lemma {:induction false} RunMirrors(vs: seq<View>, geo: Geometry, c: Catalog, fs: Walks.Fs, ahead: Open, steps: seq<Step>)
    requires geo.blockSize > 0 && Runs.Run(vs, geo, c, ahead, steps) && Ok(vs[0], geo, c) && AllAhead(vs[0], geo, c, ahead) && Mirror(fs, TreeOf(vs[0], geo.blockSize, c.Live()))
    ensures Mirror(FsAfterRun(fs, steps), TreeOf(vs[|vs| - 1], geo.blockSize, AfterRun(vs, geo, c, steps).Live()))
    decreases |steps|
  {
    hide Ok, StepOk, After, Mirror, TreeOf, FsAfter, AllAhead, AheadAfter;
    if steps != [] {
      StepKeeps(vs[0], vs[1], geo, c, ahead, steps[0]);
      StepKeepsAhead(vs[0], vs[1], geo, c, ahead, steps[0]);
      StepMirrors(vs[0], vs[1], geo, c, fs, ahead, steps[0]);
      RunMirrors(vs[1..], geo, After(vs[0], geo, c, steps[0]), FsAfter(fs, steps[0]), AheadAfter(vs[0], ahead, steps[0]), steps[1..]);
    }
  }

  // ---- what VFS calls ask of the file system holds of a clean volume -----------------------

  lemma {:induction false} MirrorName(fs: Walks.Fs, t: Names.Tree, d: nat, n: Name)
    requires Mirror(fs, t) && d in fs.dirs && n in fs.dirs[d]
    ensures d in t && fs.dirs[d][n] < U32_LIMIT && Entry(fs.dirs[d][n], n) in t[d]
  {
    assert DirMirror(fs.dirs[d], t[d]);
  }

  /** An inode that the allocator can hand out has no name anywhere. */
  lemma {:induction false} FreeIsFresh(v: View, geo: Geometry, c: Catalog, fs: Walks.Fs, mem: VfsTree.Memory, root: nat, x: nat)
    requires Ok(v, geo, c) && Mirror(fs, TreeOf(v, geo.blockSize, c.Live())) && x in v.inodes.free
    requires root in mem ==> mem[root].ino == ROOT
    ensures VfsCalls.FreshIno(mem, root, fs, x)
  {
    var t := TreeOf(v, geo.blockSize, c.Live());
    FsckDirs.FreeNotLive(v, geo, c, x);
    assert Names.NamesOk(t, c.home, ROOT);
    forall d, name | d in fs.dirs && name in fs.dirs[d] ensures fs.dirs[d][name] != x {
      MirrorName(fs, t, d, name);
      EntryLive(t, c.home, d, Entry(fs.dirs[d][name], name));
    }
  }

  lemma {:induction false} EntryLive(t: Names.Tree, home: Names.Homes, d: nat, e: Entry)
    requires Names.NamesOk(t, home, ROOT) && d in t && e in t[d]
    ensures e.ino in home || e.ino == ROOT
    ensures !Names.Dots(e.name) ==> e.ino in home && home[e.ino].dir == d && home[e.ino].entry == e && e.ino != d
    ensures Names.Dots(e.name) ==> e.ino == d || e.ino == Names.ParentOf(home, ROOT, d)
  {
    assert Names.DirNamesOk(t, home, ROOT, d) && Names.EntryOk(home, ROOT, d, e);
    if d in home {
      assert Names.HomeOk(t, home, ROOT, d);
    }
    if !Names.Dots(e.name) {
      assert Names.HomeOk(t, home, ROOT, e.ino);
    }
  }

  /** A file found by its name has no other name in that directory. */
  lemma {:induction false} NameIsSole(v: View, geo: Geometry, c: Catalog, fs: Walks.Fs, at: Walks.Position, name: Name)
    requires Ok(v, geo, c) && Mirror(fs, TreeOf(v, geo.blockSize, c.Live())) && !Names.Dots(name)
    requires |at| > 1 ==>
               var d := Walks.Last(Walks.Up(at)); d in fs.dirs && name in fs.dirs[d] && fs.dirs[d][name] == Walks.Last(at)
    ensures VfsRemove.Sole(fs, Walks.Found(at), name)
  {
    if |at| > 1 {
      var t, d, ino := TreeOf(v, geo.blockSize, c.Live()), Walks.Last(Walks.Up(at)), Walks.Last(at);
      assert Names.NamesOk(t, c.home, ROOT);
      MirrorName(fs, t, d, name);
      EntryLive(t, c.home, d, Entry(ino, name));
      forall n | n in fs.dirs[d] && fs.dirs[d][n] == ino ensures n == name {
        MirrorName(fs, t, d, n);
        EntryLive(t, c.home, d, Entry(ino, n));
        NotAbove(t, c.home, d, ino);
      }
    }
  }

  ghost function LinkOf(home: Names.Homes, x: nat): VfsRemove.Link {
    if x in home then VfsRemove.Link(home[x].dir, home[x].entry.name) else VfsRemove.Link(0, [])
  }

  /** The one name of each inode in use. */
  ghost function LinksOf(home: Names.Homes): map<nat, VfsRemove.Link> {
    map x | x in home :: LinkOf(home, x)
  }

  /** In a clean volume every inode has at most one name besides "." and "..", as the exact
      condition of vfs_unlink asks. */
  lemma {:induction false} NamesAreLinks(v: View, geo: Geometry, c: Catalog, fs: Walks.Fs, mem: VfsTree.Memory, root: nat)
    requires Ok(v, geo, c) && Mirror(fs, TreeOf(v, geo.blockSize, c.Live())) && root in mem && mem[root].ino == ROOT
    ensures VfsRemove.Links(mem, root, fs, LinksOf(c.home))
  {
    var t, links := TreeOf(v, geo.blockSize, c.Live()), LinksOf(c.home);
    assert Names.NamesOk(t, c.home, ROOT);
    forall d, n {:trigger n in fs.dirs[d]} | d in fs.dirs && n in fs.dirs[d] && !Names.Dots(n)
      ensures fs.dirs[d][n] in links && links[fs.dirs[d][n]] == VfsRemove.Link(d, n)
    {
      MirrorName(fs, t, d, n);
      EntryLive(t, c.home, d, Entry(fs.dirs[d][n], n));
    }
  }

  /** And a directory that unlink does not refuse holds nothing. */
  lemma {:induction false} BareHoldsNothing(v: View, geo: Geometry, c: Catalog, fs: Walks.Fs, x: nat)
    requires Ok(v, geo, c) && Mirror(fs, TreeOf(v, geo.blockSize, c.Live())) && FsckMake.Bare(v, geo.blockSize, x)
    ensures VfsRemove.HoldsNothing(fs, x)
  {
    var t := TreeOf(v, geo.blockSize, c.Live());
    if x in fs.dirs {
      forall n | n in fs.dirs[x] ensures Names.Dots(n) {
        MirrorName(fs, t, x, n);
        assert Entry(fs.dirs[x][n], n) in Content(ListingOf(v.data, v.table[x], geo.blockSize));
      }
    }
  }

  /** A directory's parent is not in it under a name. */
  lemma {:induction false} NotAbove(t: Names.Tree, home: Names.Homes, d: nat, x: nat)
    requires Names.NamesOk(t, home, ROOT) && d in t && x in home && home[x].dir == d
    ensures x != Names.ParentOf(home, ROOT, d)
  {
    assert Names.HomeOk(t, home, ROOT, x);
    if d in home {
      assert Names.HomeOk(t, home, ROOT, d);
    }
  }

  // ---- paths -------------------------------------------------------------------------------

  /** Where the records on the device lead from inode d by these names, "." and ".." among
      them. The driver also takes the two dots at a file: there "." is the file and ".." the
      directory that holds it. */
  ghost predicate Leads(t: Names.Tree, home: Names.Homes, d: nat, es: seq<Name>, x: nat)
    decreases |es|
  {
    if es == [] then x == d
    else if d in t then exists e :: e in t[d] && e.name == es[0] && Leads(t, home, e.ino as nat, es[1..], x)
    else
      || (es[0] == DOT && Leads(t, home, d, es[1..], x))
      || (es[0] == DOTDOT && d in home && Leads(t, home, home[d].dir, es[1..], x))
  }

  /** Each inode of the position has its name in the one before. */
  ghost predicate Placed(home: Names.Homes, at: Walks.Position) {
    && at[0] == ROOT
    && forall i {:trigger at[i]} :: 0 < i < |at| ==> at[i] in home && home[at[i]].dir == at[i - 1]
  }

  /** One record on: from directory d the name leads to e.ino and nowhere else. */
  lemma {:induction false} LeadsOn(fs: Walks.Fs, t: Names.Tree, home: Names.Homes, d: nat, es: seq<Name>, x: nat, i: nat)
    requires Mirror(fs, t) && d in t && es != [] && es[0] in fs.dirs[d] && fs.dirs[d][es[0]] == i
    ensures Leads(t, home, d, es, x) <==> Leads(t, home, i, es[1..], x)
  {
    MirrorName(fs, t, d, es[0]);
    var f := Entry(i, es[0]);
    if Leads(t, home, d, es, x) {
      var e :| e in t[d] && e.name == es[0] && Leads(t, home, e.ino as nat, es[1..], x);
      assert DirMirror(fs.dirs[d], t[d]);
    }
    if Leads(t, home, i, es[1..], x) {
      assert f in t[d] && f.name == es[0];
    }
  }

  lemma {:induction false} LeadsNowhere(fs: Walks.Fs, t: Names.Tree, home: Names.Homes, d: nat, es: seq<Name>, x: nat)
    requires Mirror(fs, t) && es != [] && !Names.Dots(es[0]) && (d in t ==> es[0] !in fs.dirs[d])
    ensures !Leads(t, home, d, es, x)
  {
    if d in t {
      assert DirMirror(fs.dirs[d], t[d]);
    }
  }

  /** What "." and ".." of a directory are. */
  lemma {:induction false} DotNames(fs: Walks.Fs, t: Names.Tree, home: Names.Homes, d: nat)
    requires Mirror(fs, t) && Names.NamesOk(t, home, ROOT) && d in t
    ensures DOT in fs.dirs[d] && fs.dirs[d][DOT] == d
    ensures DOTDOT in fs.dirs[d] && fs.dirs[d][DOTDOT] == Names.ParentOf(home, ROOT, d)
    ensures ROOT in t && ROOT !in home
  {
    assert Names.DirNamesOk(t, home, ROOT, d) && DirMirror(fs.dirs[d], t[d]);
    assert Entry(d, DOT) in t[d] && Entry(Names.ParentOf(home, ROOT, d), DOTDOT) in t[d];
  }

  lemma {:induction false} RootIs(t: Names.Tree, home: Names.Homes)
    requires Names.NamesOk(t, home, ROOT)
    ensures ROOT in t && ROOT !in home
  {
  }

  lemma {:induction false} PlacedUp(home: Names.Homes, at: Walks.Position)
    requires Placed(home, at) && ROOT !in home
    ensures Placed(home, Walks.Up(at))
    ensures Walks.Last(Walks.Up(at)) == Names.ParentOf(home, ROOT, Walks.Last(at))
    ensures |at| > 1 ==> Walks.Last(at) in home && home[Walks.Last(at)].dir == Walks.Last(Walks.Up(at))
  {
    assert |at| > 1 ==> at[|at| - 1] in home;
  }

  lemma {:induction false} PlacedDown(fs: Walks.Fs, t: Names.Tree, home: Names.Homes, at: Walks.Position, name: Name)
    requires Mirror(fs, t) && Names.NamesOk(t, home, ROOT) && Placed(home, at) && !Names.Dots(name) && Walks.Down(fs, at, name).Found?
    ensures Placed(home, Walks.Down(fs, at, name).at)
  {
    hide Mirror, Names.NamesOk, Names.Dots;
    var d := Walks.Last(at);
    MirrorName(fs, t, d, name);
    EntryLive(t, home, d, Entry(fs.dirs[d][name], name));
    var to := Walks.Down(fs, at, name).at;
    forall i {:trigger to[i]} | 0 < i < |to| ensures to[i] in home && home[to[i]].dir == to[i - 1] {
      assert i < |at| ==> to[i] == at[i];
    }
  }

  lemma {:induction false} ResolveLeads(fs: Walks.Fs, t: Names.Tree, home: Names.Homes, at: Walks.Position, es: seq<Name>, x: nat)
    requires Mirror(fs, t) && Names.NamesOk(t, home, ROOT) && Placed(home, at)
    ensures (Walks.Resolve(fs, at, es).Found? && Walks.Last(Walks.Resolve(fs, at, es).at) == x) <==> Leads(t, home, Walks.Last(at), es, x)
    decreases |es|
  {
    hide Mirror, Names.NamesOk, Placed;
    var d := Walks.Last(at);
    RootIs(t, home);
    MirrorKeys(fs, t);
    if es != [] {
      PlacedUp(home, at);
      if es[0] == DOT {
        ResolveLeads(fs, t, home, at, es[1..], x);
        if d in t {
          DotNames(fs, t, home, d);
          LeadsOn(fs, t, home, d, es, x, d);
        }
      } else if es[0] == DOTDOT {
        ResolveLeads(fs, t, home, Walks.Up(at), es[1..], x);
        if d in t {
          DotNames(fs, t, home, d);
          LeadsOn(fs, t, home, d, es, x, Names.ParentOf(home, ROOT, d));
        } else {
          RootLast(home, at);
        }
      } else if d in t && es[0] in fs.dirs[d] {
        PlacedDown(fs, t, home, at, es[0]);
        ResolveLeads(fs, t, home, Walks.Down(fs, at, es[0]).at, es[1..], x);
        LeadsOn(fs, t, home, d, es, x, fs.dirs[d][es[0]]);
      } else {
        LeadsNowhere(fs, t, home, d, es, x);
      }
    }
  }

  lemma {:induction false} MirrorKeys(fs: Walks.Fs, t: Names.Tree)
    requires Mirror(fs, t)
    ensures fs.dirs.Keys == t.Keys
  {
  }

  lemma {:induction false} RootLast(home: Names.Homes, at: Walks.Position)
    requires Placed(home, at)
    ensures |at| == 1 ==> Walks.Last(at) == ROOT
  {
  }

  /** Looking a path up, from the root or from any place the names lead to, finds inode x
      exactly if the records on the device lead to x. */
  lemma {:induction false} PathOnDevice(fs: Walks.Fs, t: Names.Tree, home: Names.Homes, at: Walks.Position, es: seq<Name>, x: nat)
    requires Mirror(fs, t) && Names.NamesOk(t, home, ROOT) && Placed(home, at)
    ensures (Walks.Walk(fs, at, es).Found? && Walks.Last(Walks.Walk(fs, at, es).at) == x) <==> Leads(t, home, Walks.Last(at), es, x)
  {
    hide Mirror, Names.NamesOk, Leads;
    RootIs(t, home);
    MirrorKeys(fs, t);
    DotNames(fs, t, home, ROOT);
    Walks.WalkOnVolume(fs, at, es);
    ResolveLeads(fs, t, home, at, es, x);
  }

  // ---- lookups through the cache -----------------------------------------------------------

  /** A cached node hangs where its inode has its name. */
  lemma {:induction false} NodePlaced(fs: Walks.Fs, t: Names.Tree, home: Names.Homes, mem: VfsTree.Memory, root: VfsTree.Ptr, n: VfsTree.Ptr)
    requires Mirror(fs, t) && Names.NamesOk(t, home, ROOT) && VfsLookup.Coherent(mem, root, fs) && VfsLookup.NoDots(mem, root)
    requires n in mem && n != root
    ensures mem[n].parent in mem && mem[n].ino in home && home[mem[n].ino].dir == mem[mem[n].parent].ino
  {
    assert VfsLookup.NodeTrue(mem, root, fs, n);
    var d := mem[mem[n].parent].ino;
    MirrorName(fs, t, d, mem[n].name);
    Names.NameAt(t, home, ROOT, d, Entry(mem[n].ino, mem[n].name));
  }

  lemma {:induction false} ChainPlaced(fs: Walks.Fs, t: Names.Tree, home: Names.Homes, mem: VfsTree.Memory, sh: VfsTree.Shape, root: VfsTree.Ptr, n: VfsTree.Ptr)
    requires Mirror(fs, t) && Names.NamesOk(t, home, ROOT) && VfsTree.TreeOk(mem, sh, root)
    requires VfsLookup.Coherent(mem, root, fs) && VfsLookup.NoDots(mem, root) && mem[root].ino == ROOT && n in mem
    ensures Placed(home, VfsLookup.Chain(mem, sh, root, n))
    decreases if n in sh.depth then sh.depth[n] else 0
  {
    hide Mirror, Names.NamesOk, VfsTree.TreeOk, VfsLookup.Coherent, VfsLookup.NoDots;
    if n != root {
      VfsLookup.ParentAbove(mem, sh, root, n);
      NodePlaced(fs, t, home, mem, root, n);
      ChainPlaced(fs, t, home, mem, sh, root, mem[n].parent);
      VfsLookup.ChainMeans(mem, sh, root, mem[n].parent);
      PlacedOn(home, VfsLookup.Chain(mem, sh, root, mem[n].parent), mem[n].ino);
    }
  }

  lemma {:induction false} PlacedOn(home: Names.Homes, at: Walks.Position, ino: nat)
    requires Placed(home, at) && ino in home && home[ino].dir == Walks.Last(at)
    ensures Placed(home, VfsLookup.Inside(at, ino))
  {
  }

  /** A lookup through the cache, whatever is in it, ends at inode x exactly if the records on
      the device lead from where it starts to x. */
  lemma {:induction false} LookupOnDevice(fs: Walks.Fs, t: Names.Tree, home: Names.Homes, mem: VfsTree.Memory, sh: VfsTree.Shape,
                                          mem': VfsTree.Memory, sh': VfsTree.Shape, root: VfsTree.Ptr, n: VfsTree.Ptr,
                                          path: Paths.Path, res: int, node: VfsTree.Ptr, x: nat)
    requires Mirror(fs, t) && Names.NamesOk(t, home, ROOT) && VfsTree.TreeOk(mem, sh, root)
    requires VfsLookup.Coherent(mem, root, fs) && VfsLookup.NoDots(mem, root) && mem[root].ino == ROOT && n in mem
    requires VfsLookup.Looked(mem, mem', sh', root, fs, Walks.Walk(fs, VfsLookup.Chain(mem, sh, root, n), Paths.Elements(path)), res, node)
    ensures (res == VfsLookup.OK && node in mem' && mem'[node].ino == x) <==> Leads(t, home, mem[n].ino, Paths.Elements(path), x)
  {
    hide Mirror, Names.NamesOk, VfsTree.TreeOk, VfsLookup.Coherent, VfsLookup.NoDots, VfsLookup.Chain, VfsLookup.Grown, Leads, Walks.Walk, Paths.Elements, Placed;
    var at := VfsLookup.Chain(mem, sh, root, n);
    VfsLookup.ChainMeans(mem, sh, root, n);
    ChainPlaced(fs, t, home, mem, sh, root, n);
    PathOnDevice(fs, t, home, at, Paths.Elements(path), x);
    if Walks.Walk(fs, at, Paths.Elements(path)).Found? {
      VfsLookup.ChainMeans(mem', sh', root, node);
    }
  }

  lemma {:induction false} RunSpan(vs: seq<View>, geo: Geometry, c: Catalog, ahead: Open, steps: seq<Step>)
    requires geo.blockSize > 0 && Runs.Run(vs, geo, c, ahead, steps)
    ensures |vs| == |steps| + 1
  {
  }

  /** And so it does after any run of operations. */
  lemma {:induction false} RunLookup(vs: seq<View>, geo: Geometry, c: Catalog, fs: Walks.Fs, ahead: Open, steps: seq<Step>,
                                     mem: VfsTree.Memory, sh: VfsTree.Shape, mem': VfsTree.Memory, sh': VfsTree.Shape,
                                     root: VfsTree.Ptr, n: VfsTree.Ptr, path: Paths.Path, res: int, node: VfsTree.Ptr, x: nat)
    requires geo.blockSize > 0 && Runs.Run(vs, geo, c, ahead, steps) && Ok(vs[0], geo, c) && AllAhead(vs[0], geo, c, ahead)
    requires Mirror(fs, TreeOf(vs[0], geo.blockSize, c.Live()))
    requires var fs' := FsAfterRun(fs, steps);
             && VfsTree.TreeOk(mem, sh, root) && VfsLookup.Coherent(mem, root, fs') && VfsLookup.NoDots(mem, root)
             && mem[root].ino == ROOT && n in mem
             && VfsLookup.Looked(mem, mem', sh', root, fs', Walks.Walk(fs', VfsLookup.Chain(mem, sh, root, n), Paths.Elements(path)), res, node)
    ensures var c' := AfterRun(vs, geo, c, steps);
            (res == VfsLookup.OK && node in mem' && mem'[node].ino == x)
            <==> Leads(TreeOf(vs[|vs| - 1], geo.blockSize, c'.Live()), c'.home, mem[n].ino, Paths.Elements(path), x)
  {
    hide *;
    RunMirrors(vs, geo, c, fs, ahead, steps);
    RunKeeps(vs, geo, c, ahead, steps);
    var c' := AfterRun(vs, geo, c, steps);
    RunSpan(vs, geo, c, ahead, steps);
    FsckDirs.OkParts(vs[|vs| - 1], geo, c');
    LookupOnDevice(FsAfterRun(fs, steps), TreeOf(vs[|vs| - 1], geo.blockSize, c'.Live()), c'.home, mem, sh, mem', sh', root, n, path, res, node, x);
  }

  // ---- an open file whose name goes --------------------------------------------------------

  const A: Name := [97]

  /** The cache: the root and the file "/a", which is open once. */
  ghost function OpenCache(): VfsTree.Memory {
    map[1 := VfsTree.Node([], ROOT, true, 0, VfsTree.NULL, 2, VfsTree.NULL),
        2 := VfsTree.Node(A, 11, false, 1, 1, VfsTree.NULL, VfsTree.NULL)]
  }

  ghost function OpenShape(): VfsTree.Shape {
    VfsTree.Shape(map[1 := [2], 2 := []], map[2 := 0], map[1 := 0, 2 := 1], map[(1, A) := 2])
  }

  ghost function OpenFs(): Walks.Fs {
    var names: map<Name, nat> := map[DOT := ROOT, DOTDOT := ROOT, A := 11];
    Walks.Fs(map[ROOT := names])
  }

  ghost function OpenTree(): Names.Tree {
    map[ROOT := {Entry(ROOT, DOT), Entry(ROOT, DOTDOT), Entry(11, A)}]
  }

  ghost function OpenHomes(): Names.Homes {
    map[11 := Names.Home(ROOT, Entry(11, A), 1)]
  }

  lemma {:induction false} OpenCacheOk()
    ensures VfsTree.TreeOk(OpenCache(), OpenShape(), 1)
    ensures VfsCalls.RefsOk(OpenCache(), 1, multiset{2}) && VfsLookup.NoDots(OpenCache(), 1)
  {
    assert VfsTree.KidOk(OpenCache(), OpenShape(), 1, 0);
    LettersDiffer();
  }

  lemma {:induction false} LettersDiffer()
    ensures A != DOT && A != DOTDOT && DOT != DOTDOT
  {
    assert A[0] == 97 && DOT[0] == 46 && DOTDOT[0] == 46 && |DOT| != |DOTDOT|;
  }

  lemma {:induction false} OpenVolumeOk()
    ensures Mirror(OpenFs(), OpenTree()) && Names.NamesOk(OpenTree(), OpenHomes(), ROOT)
  {
    LettersDiffer();
  }

  lemma {:induction false} OpenCoherent()
    ensures VfsLookup.Coherent(OpenCache(), 1, OpenFs())
  {
    LettersDiffer();
    assert VfsLookup.NodeTrue(OpenCache(), 1, OpenFs(), 1) && VfsLookup.NodeTrue(OpenCache(), 1, OpenFs(), 2);
  }

  /** A case in point for unlink's condition, on a file system as a volume has it: "/a" is open
      once, and its name goes. The vnode's node stays, and now the cache answers where the
      file system has nothing. */
  lemma {:induction false} OpenFileStale()
    ensures Mirror(OpenFs(), OpenTree()) && Names.NamesOk(OpenTree(), OpenHomes(), ROOT)
    ensures VfsTree.TreeOk(OpenCache(), OpenShape(), 1) && VfsLookup.NoDots(OpenCache(), 1)
    ensures VfsLookup.Coherent(OpenCache(), 1, OpenFs()) && VfsCalls.RefsOk(OpenCache(), 1, multiset{2})
    ensures Mirror(VfsRemove.Without(OpenFs(), ROOT, A, 11), Names.TreeLess(OpenTree(), ROOT, Entry(11, A)))
    ensures !VfsLookup.Coherent(OpenCache(), 1, VfsRemove.Without(OpenFs(), ROOT, A, 11))
    ensures Walks.Down(VfsRemove.Without(OpenFs(), ROOT, A, 11), [ROOT], A) == Walks.NotFound
  {
    hide VfsTree.TreeOk, VfsLookup.Coherent, VfsCalls.RefsOk, VfsLookup.NoDots, Mirror, Names.NamesOk, OpenShape, OpenCache, OpenHomes;
    OpenVolumeOk();
    OpenCacheOk();
    OpenCoherent();
    OpenUnlinked();
    OpenStale();
  }

  lemma {:induction false} OpenUnlinked()
    ensures Mirror(VfsRemove.Without(OpenFs(), ROOT, A, 11), Names.TreeLess(OpenTree(), ROOT, Entry(11, A)))
  {
    OpenVolumeOk();
    LettersDiffer();
    hide Names.NamesOk, DirMirror, Names.TreeLess;
    MirrorUnlink(OpenFs(), OpenTree(), ROOT, Entry(11, A));
  }

  lemma {:induction false} OpenStale()
    ensures !VfsLookup.Coherent(OpenCache(), 1, VfsRemove.Without(OpenFs(), ROOT, A, 11))
    ensures A !in VfsRemove.Without(OpenFs(), ROOT, A, 11).dirs[ROOT]
  {
    assert !VfsLookup.NodeTrue(OpenCache(), 1, VfsRemove.Without(OpenFs(), ROOT, A, 11), 2);
  }
}
