/** The naming tree: which names each directory holds, and what keeps it a tree. */
module Names {
  import opened Bytes
  import opened Dirents
  import opened DirBlocks

  predicate Dots(name: Name) {
    name == DOT || name == DOTDOT
  }

  /** What each directory holds, by inode number. */
  type Tree = map<nat, set<Entry>>

  /** Where an inode other than the root has its one name, and how deep below the root. */
  datatype Home = Home(dir: nat, entry: Entry, depth: nat)

  type Homes = map<nat, Home>

  ghost function Depth(home: Homes, root: nat, x: nat): nat {
    if x == root || x !in home then 0 else home[x].depth
  }

  /** What ".." of directory d stands for; the root is its own parent. */
  ghost function ParentOf(home: Homes, root: nat, d: nat): nat {
    if d == root || d !in home then root else home[d].dir
  }

  /** An entry stands for its directory ("."), the parent (".."), or an inode whose one
      name it is. */
  ghost predicate EntryOk(home: Homes, root: nat, d: nat, e: Entry) {
    if e.name == DOT then e.ino == d
    else if e.name == DOTDOT then e.ino == ParentOf(home, root, d)
    else e.ino in home && home[e.ino].dir == d && home[e.ino].entry == e
  }

  /** x really has the name its home says, one level below the directory that holds it. */
  ghost predicate HomeOk(t: Tree, home: Homes, root: nat, x: nat)
    requires x in home
  {
    var h := home[x];
    && h.dir in t && h.entry in t[h.dir] && h.entry.ino == x && !Dots(h.entry.name)
    && h.depth == Depth(home, root, h.dir) + 1
  }

  ghost predicate DirNamesOk(t: Tree, home: Homes, root: nat, d: nat)
    requires d in t
  {
    && d < U32_LIMIT && ParentOf(home, root, d) < U32_LIMIT
    && Entry(d, DOT) in t[d] && Entry(ParentOf(home, root, d), DOTDOT) in t[d]
    && forall e :: e in t[d] ==> EntryOk(home, root, d, e)
  }

  /** Every inode in use other than the root has exactly one name besides "." and "..";
      every directory names itself and its parent; and all hang off the root. */
  ghost predicate NamesOk(t: Tree, home: Homes, root: nat) {
    && root in t && root !in home && (forall d :: d in t ==> d == root || d in home)
    && (forall d :: d in t ==> DirNamesOk(t, home, root, d))
    && (forall x :: x in home ==> HomeOk(t, home, root, x))
  }

  function NewHome(home: Homes, root: nat, d: nat, e: Entry): Homes {
    home[e.ino := Home(d, e, (if d == root || d !in home then 0 else home[d].depth) + 1)]
  }

  lemma {:induction false} NewHomeKeeps(t: Tree, t': Tree, home: Homes, root: nat, d: nat, e: Entry, x: nat)
    requires root !in home && e.ino !in home && e.ino != root && d in t' && e in t'[d] && !Dots(e.name) && d != e.ino
    requires x in home ==> HomeOk(t, home, root, x) && home[x].dir != e.ino && home[x].dir in t'
                           && t[home[x].dir] <= t'[home[x].dir]
    requires x in home || x == e.ino
    ensures HomeOk(t', NewHome(home, root, d, e), root, x)
  {
  }

  lemma {:induction false} NewHomeDirs(t: Tree, t': Tree, home: Homes, root: nat, d: nat, e: Entry, c: nat)
    requires root !in home && e.ino !in home && e.ino != root && !Dots(e.name) && d != e.ino
    requires c in t && c in t' && DirNamesOk(t, home, root, c) && c != e.ino
    requires t'[c] == if c == d then t[c] + {e} else t[c]
    ensures DirNamesOk(t', NewHome(home, root, d, e), root, c)
  {
    var home' := NewHome(home, root, d, e);
    assert ParentOf(home', root, c) == ParentOf(home, root, c);
    forall f | f in t'[c] ensures EntryOk(home', root, c, f) {
      assert f != e ==> EntryOk(home, root, c, f);
    }
  }

  /** The tree after inode e.ino got its name in directory d. */
  ghost function TreeWith(t: Tree, d: nat, e: Entry, isDir: bool): Tree
    requires d in t && (isDir ==> d < U32_LIMIT)
  {
    if isDir then t[d := t[d] + {e}][e.ino := {Entry(e.ino, DOT), Entry(d, DOTDOT)}] else t[d := t[d] + {e}]
  }

  /** The tree after it lost it. */
  ghost function TreeLess(t: Tree, d: nat, e: Entry): Tree
    requires d in t
  {
    t[d := t[d] - {e}] - {e.ino as nat}
  }

  /** A new inode gets a name in directory d; if it is a directory it holds "." and "..". */
  lemma {:induction false} NameNode(t: Tree, t': Tree, home: Homes, root: nat, d: nat, e: Entry, isDir: bool)
    requires NamesOk(t, home, root) && d in t && !Dots(e.name) && e.ino !in home && e.ino != root
    requires (isDir ==> d < U32_LIMIT) && t' == TreeWith(t, d, e, isDir)
    ensures NamesOk(t', NewHome(home, root, d, e), root)
  {
    hide HomeOk, DirNamesOk;
    var home' := NewHome(home, root, d, e);
    assert d != e.ino && root !in home;
    forall x | x in home' ensures HomeOk(t', home', root, x) {
      assert x in home ==> HomeOk(t, home, root, x);
      HomeIn(t, home, root, x);
      NewHomeKeeps(t, t', home, root, d, e, x);
    }
    forall c | c in t' ensures DirNamesOk(t', home', root, c) {
      if c != e.ino {
        NewHomeDirs(t, t', home, root, d, e, c);
      } else {
        NewDir(t', home, root, d, e);
      }
    }
  }

  lemma {:induction false} HomeIn(t: Tree, home: Homes, root: nat, x: nat)
    requires x in home ==> HomeOk(t, home, root, x)
    ensures x in home ==> home[x].dir in t
  {
  }

  lemma {:induction false} NewDir(t': Tree, home: Homes, root: nat, d: nat, e: Entry)
    requires d < U32_LIMIT && e.ino in t' && t'[e.ino] == {Entry(e.ino, DOT), Entry(d, DOTDOT)} && e.ino != root
    ensures DirNamesOk(t', NewHome(home, root, d, e), root, e.ino)
  {
  }

  /** A name that is not the forgotten one, and the directory it is in, stay. */
  lemma {:induction false} ForgetHome(t: Tree, t': Tree, home: Homes, root: nat, d: nat, e: Entry, x: nat)
    requires NamesOk(t, home, root) && d in t && t' == TreeLess(t, d, e) && x in home && x != e.ino
    requires e.ino in t ==> forall f :: f in t[e.ino] ==> Dots(f.name)
    ensures home[x].dir != e.ino && HomeOk(t', home - {e.ino}, root, x)
  {
    assert HomeOk(t, home, root, x);
  }

  lemma {:induction false} NameAt(t: Tree, home: Homes, root: nat, d: nat, e: Entry)
    requires NamesOk(t, home, root) && d in t && e in t[d]
    ensures EntryOk(home, root, d, e)
  {
    assert DirNamesOk(t, home, root, d);
  }

  lemma {:induction false} ForgetEntry(home: Homes, root: nat, d: nat, e: Entry, c: nat, f: Entry)
    requires EntryOk(home, root, d, e) && !Dots(e.name) && EntryOk(home, root, c, f) && c != e.ino && (c != d || f != e)
    ensures EntryOk(home - {e.ino}, root, c, f)
  {
  }

  lemma {:induction false} ForgetDir(t: Tree, t': Tree, home: Homes, root: nat, d: nat, e: Entry, c: nat)
    requires NamesOk(t, home, root) && d in t && e in t[d] && !Dots(e.name) && t' == TreeLess(t, d, e) && c in t'
    requires e.ino in t ==> forall f :: f in t[e.ino] ==> Dots(f.name)
    ensures DirNamesOk(t', home - {e.ino}, root, c)
  {
    var home' := home - {e.ino};
    hide NamesOk, EntryOk, Dots;
    DirKnown(t, home, root, c);
    NameAt(t, home, root, d, e);
    assert c in t && c != e.ino && ParentOf(home', root, c) == ParentOf(home, root, c);
    DotsDiffer(e);
    forall f | f in t'[c] ensures EntryOk(home', root, c, f) {
      NameAt(t, home, root, c, f);
      ForgetEntry(home, root, d, e, c, f);
    }
  }

  lemma {:induction false} DirKnown(t: Tree, home: Homes, root: nat, d: nat)
    requires NamesOk(t, home, root) && d in t
    ensures DirNamesOk(t, home, root, d)
  {
  }

  /** "." and ".." are not the entry with another name. */
  lemma {:induction false} DotsDiffer(e: Entry)
    requires !Dots(e.name)
    ensures e.name != DOT && e.name != DOTDOT
  {
  }

  /** An inode loses its name; if it was a directory, it held nothing but "." and "..". */
  lemma {:induction false} ForgetNode(t: Tree, t': Tree, home: Homes, root: nat, d: nat, e: Entry)
    requires NamesOk(t, home, root) && d in t && e in t[d] && !Dots(e.name)
    requires e.ino in t ==> forall f :: f in t[e.ino] ==> Dots(f.name)
    requires t' == TreeLess(t, d, e)
    ensures e.ino in home && home[e.ino].dir == d && e.ino != root && e.ino != d
    ensures NamesOk(t', home - {e.ino}, root)
  {
    assert DirNamesOk(t, home, root, d) && EntryOk(home, root, d, e);
    var home' := home - {e.ino};
    hide DirNamesOk, HomeOk, EntryOk, Depth, ParentOf;
    forall x | x in home' ensures HomeOk(t', home', root, x) {
      ForgetHome(t, t', home, root, d, e, x);
    }
    forall c | c in t' ensures DirNamesOk(t', home', root, c) {
      ForgetDir(t, t', home, root, d, e, c);
    }
  }

  /** A path from the root: at each step the directory holds that name for that inode. */
  ghost predicate Walk(t: Tree, root: nat, path: seq<Entry>, x: nat)
    decreases |path|
  {
    if path == [] then x == root else
      var e := path[|path| - 1];
      e.ino == x && exists d :: d in t && e in t[d] && !Dots(e.name) && Walk(t, root, path[..|path| - 1], d)
  }

  /** No inode in use is lost: from the root a path of names leads to each. */
  lemma {:induction false} Reachable(t: Tree, home: Homes, root: nat, x: nat) returns (path: seq<Entry>)
    requires NamesOk(t, home, root) && (x == root || x in home)
    ensures Walk(t, root, path, x) && |path| == Depth(home, root, x)
    decreases Depth(home, root, x)
  {
    path := [];
    if x != root {
      assert HomeOk(t, home, root, x);
      var h := home[x];
      var front := Reachable(t, home, root, h.dir);
      path := front + [h.entry];
      assert path[..|path| - 1] == front;
    }
  }

  /** The last step of a path: it goes by the one name x has. */
  lemma {:induction false} LastStep(t: Tree, home: Homes, root: nat, p: seq<Entry>, x: nat)
    requires NamesOk(t, home, root) && Walk(t, root, p, x) && p != []
    ensures x in home && p[|p| - 1] == home[x].entry && Walk(t, root, p[..|p| - 1], home[x].dir)
  {
    var a := |p| - 1;
    var c :| c in t && p[a] in t[c] && !Dots(p[a].name) && Walk(t, root, p[..a], c);
    assert DirNamesOk(t, home, root, c) && EntryOk(home, root, c, p[a]);
  }

  /** And there is only one such path. */
  lemma {:induction false} OnePath(t: Tree, home: Homes, root: nat, x: nat, p: seq<Entry>, q: seq<Entry>)
    requires NamesOk(t, home, root) && Walk(t, root, p, x) && Walk(t, root, q, x)
    ensures p == q
    decreases |p|
  {
    assert root !in home && (p == [] || q == [] ==> x == root);
    hide NamesOk, Walk;
    if p != [] {
      LastStep(t, home, root, p, x);
    }
    if q != [] {
      LastStep(t, home, root, q, x);
    }
    if p != [] && q != [] {
      OnePath(t, home, root, home[x].dir, p[..|p| - 1], q[..|q| - 1]);
      SameEnds(p, q);
    }
  }

  lemma {:induction false} SameEnds(p: seq<Entry>, q: seq<Entry>)
    requires p != [] && q != [] && p[..|p| - 1] == q[..|q| - 1] && p[|p| - 1] == q[|q| - 1]
    ensures p == q
  {
    assert p == p[..|p| - 1] + [p[|p| - 1]];
    assert q == q[..|q| - 1] + [q[|q| - 1]];
  }
}
