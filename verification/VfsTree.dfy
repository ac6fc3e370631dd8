/** The tree of cached path nodes: linked child lists, and the cascade that prunes it. The
    memory the nodes live in is a map from addresses to nodes, so that freeing a node takes
    it out of the map and following a stale pointer would be an error. */
module VfsTree {
  import opened Dirents

  /** An address; 0 is NULL. */
  type Ptr = nat

  const NULL: Ptr := 0

  /** A path node together with its vnode (each has exactly one of the other as long as
      there are no nested mounts). */
  datatype Node = Node(name: Name, ino: nat, isDir: bool, refcount: nat, parent: Ptr, child: Ptr, cdr: Ptr)

  type Memory = map<Ptr, Node>

  /** Each node's children, the last one first; where in its parent's list a node is; how
      deep it is; and the child of a node with a given name. */
  datatype Shape = Shape(kids: map<Ptr, seq<Ptr>>, place: map<Ptr, nat>, depth: map<Ptr, nat>, named: map<(Ptr, Name), Ptr>)

  ghost function Nth(ns: seq<Ptr>, i: int): Ptr {
    if 0 <= i < |ns| then ns[i] else NULL
  }

  /** The i-th kid of n is linked to the next one and to n. */
  ghost predicate KidOk(mem: Memory, sh: Shape, n: Ptr, i: nat)
    requires n in sh.kids && i < |sh.kids[n]|
  {
    var k := sh.kids[n][i];
    && k in mem && mem[k].parent == n && mem[k].cdr == Nth(sh.kids[n], i - 1)
    && k in sh.place && sh.place[k] == i
    && (n, mem[k].name) in sh.named && sh.named[(n, mem[k].name)] == k
  }

  ghost predicate ListOk(mem: Memory, sh: Shape, n: Ptr)
    requires n in mem
  {
    && n in sh.kids && mem[n].child == Nth(sh.kids[n], |sh.kids[n]| - 1)
    && (forall i: nat {:trigger sh.kids[n][i]} :: i < |sh.kids[n]| ==> KidOk(mem, sh, n, i))
    && (sh.kids[n] != [] ==> mem[n].isDir)
  }

  /** n hangs off its parent. */
  ghost predicate PlaceOk(mem: Memory, sh: Shape, root: Ptr, n: Ptr)
    requires n in mem
  {
    var p := mem[n].parent;
    && n in sh.depth
    && (n == root ==> p == NULL && sh.depth[n] == 0)
    && (n != root ==>
          && p in mem && p in sh.depth && sh.depth[n] == sh.depth[p] + 1
          && p in sh.kids && n in sh.place && sh.place[n] < |sh.kids[p]| && sh.kids[p][sh.place[n]] == n)
  }

  ghost predicate TreeOk(mem: Memory, sh: Shape, root: Ptr) {
    && root in mem && NULL !in mem
    && (forall n :: n in mem ==> ListOk(mem, sh, n))
    && (forall n :: n in mem ==> PlaceOk(mem, sh, root, n))
  }

  // ---- attaching -----------------------------------------------------------------------

  function Attached(mem: Memory, p: Ptr, c: Ptr, name: Name, ino: nat, isDir: bool): Memory
    requires p in mem
  {
    mem[c := Node(name, ino, isDir, 0, p, NULL, mem[p].child)][p := mem[p].(child := c)]
  }

  ghost function WithKid(sh: Shape, p: Ptr, c: Ptr, name: Name): Shape
    requires p in sh.kids && p in sh.depth
  {
    Shape(sh.kids[p := sh.kids[p] + [c]][c := []], sh.place[c := |sh.kids[p]|],
          sh.depth[c := sh.depth[p] + 1], sh.named[(p, name) := c])
  }

  /** No child of p has this name. */
  ghost predicate Unused(mem: Memory, sh: Shape, p: Ptr, name: Name)
    requires p in sh.kids
  {
    forall i: nat :: i < |sh.kids[p]| && sh.kids[p][i] in mem ==> mem[sh.kids[p][i]].name != name
  }

  lemma {:induction false} AttachKid(mem: Memory, sh: Shape, p: Ptr, c: Ptr, name: Name, ino: nat, isDir: bool, n: Ptr, i: nat)
    requires n in sh.kids && i < |sh.kids[n]| && KidOk(mem, sh, n, i) && n != c
    requires p in mem && c !in mem && c != NULL && p in sh.kids && Unused(mem, sh, p, name) && p in sh.depth
    ensures KidOk(Attached(mem, p, c, name, ino, isDir), WithKid(sh, p, c, name), n, i)
  {
    var k := sh.kids[n][i];
    assert n == p ==> mem[k].name != name;
    assert WithKid(sh, p, c, name).kids[n][i] == k;
  }

  lemma {:induction false} AttachList(mem: Memory, sh: Shape, root: Ptr, p: Ptr, c: Ptr, name: Name, ino: nat, isDir: bool, n: Ptr)
    requires n in mem && n != c && ListOk(mem, sh, n) && p in mem && mem[p].isDir && c !in mem && c != NULL
    requires p in sh.kids && Unused(mem, sh, p, name) && p in sh.depth
    ensures ListOk(Attached(mem, p, c, name, ino, isDir), WithKid(sh, p, c, name), n)
  {
    var mem', sh' := Attached(mem, p, c, name, ino, isDir), WithKid(sh, p, c, name);
    hide Unused;
    forall i: nat | i < |sh'.kids[n]| ensures KidOk(mem', sh', n, i) {
      if n == p && i == |sh.kids[p]| {
        assert sh'.kids[n][i] == c && c in mem' && mem'[c].cdr == Nth(sh.kids[p], i - 1);
      } else {
        AttachKid(mem, sh, p, c, name, ino, isDir, n, i);
      }
    }
  }

  lemma {:induction false} AttachPlace(mem: Memory, sh: Shape, root: Ptr, p: Ptr, c: Ptr, name: Name, ino: nat, isDir: bool, n: Ptr)
    requires n in mem && n != c && PlaceOk(mem, sh, root, n) && p in mem && c !in mem && p in sh.kids && p in sh.depth
    requires n != root ==> mem[n].parent in mem
    ensures PlaceOk(Attached(mem, p, c, name, ino, isDir), WithKid(sh, p, c, name), root, n)
  {
    var q := mem[n].parent;
    if n != root && q == p {
      assert (sh.kids[p] + [c])[sh.place[n]] == sh.kids[p][sh.place[n]];
    }
  }

  /** The new node is a leaf, and the last kid of p. */
  lemma {:induction false} AttachNew(mem: Memory, sh: Shape, root: Ptr, p: Ptr, c: Ptr, name: Name, ino: nat, isDir: bool)
    requires p in mem && c !in mem && c != root && c != NULL && p in sh.kids && p in sh.depth
    ensures var mem', sh' := Attached(mem, p, c, name, ino, isDir), WithKid(sh, p, c, name);
            mem'.Keys == mem.Keys + {c} && ListOk(mem', sh', c) && PlaceOk(mem', sh', root, c)
  {
    assert (sh.kids[p] + [c])[|sh.kids[p]|] == c;
  }

  lemma {:induction false} NodeOk(mem: Memory, sh: Shape, root: Ptr, n: Ptr)
    requires TreeOk(mem, sh, root) && n in mem
    ensures ListOk(mem, sh, n) && PlaceOk(mem, sh, root, n)
    ensures n != root ==> mem[n].parent in mem
    ensures root in mem && NULL !in mem
  {
  }

  lemma {:induction false} AttachOk(mem: Memory, sh: Shape, root: Ptr, p: Ptr, c: Ptr, name: Name, ino: nat, isDir: bool)
    requires TreeOk(mem, sh, root) && p in mem && mem[p].isDir && c !in mem && c != NULL
    requires p in sh.kids && Unused(mem, sh, p, name) && p in sh.depth
    ensures TreeOk(Attached(mem, p, c, name, ino, isDir), WithKid(sh, p, c, name), root)
  {
    var mem', sh' := Attached(mem, p, c, name, ino, isDir), WithKid(sh, p, c, name);
    hide ListOk, PlaceOk, Attached, WithKid, Unused;
    NodeOk(mem, sh, root, p);
    AttachNew(mem, sh, root, p, c, name, ino, isDir);
    forall n | n in mem' ensures ListOk(mem', sh', n) && PlaceOk(mem', sh', root, n) {
      if n != c {
        NodeOk(mem, sh, root, n);
        AttachList(mem, sh, root, p, c, name, ino, isDir, n);
        AttachPlace(mem, sh, root, p, c, name, ino, isDir, n);
      }
    }
  }

  // ---- detaching -----------------------------------------------------------------------

  /** The list of n's siblings and where n is in it. */
  ghost predicate Sibling(mem: Memory, sh: Shape, n: Ptr, p: Ptr, i: nat) {
    && n in mem && p == mem[n].parent && p in mem && p in sh.kids && n in sh.place && sh.place[n] == i
    && i < |sh.kids[p]| && sh.kids[p][i] == n
  }

  /** n is unlinked from its parent's list and freed. */
  ghost function Detached(mem: Memory, sh: Shape, n: Ptr, p: Ptr, i: nat): Memory
    requires Sibling(mem, sh, n, p, i)
  {
    var ks := sh.kids[p];
    (if i == |ks| - 1 then mem[p := mem[p].(child := mem[n].cdr)]
     else if ks[i + 1] in mem then mem[ks[i + 1] := mem[ks[i + 1]].(cdr := mem[n].cdr)]
     else mem) - {n}
  }

  ghost function Without(ns: seq<Ptr>, i: nat): (r: seq<Ptr>)
    requires i < |ns|
    ensures |r| == |ns| - 1
    ensures forall j {:trigger r[j]} :: 0 <= j < |r| ==> r[j] == ns[if j < i then j else j + 1]
  {
    seq(|ns| - 1, j requires 0 <= j < |ns| - 1 => ns[if j < i then j else j + 1])
  }

  ghost function ShapeWithout(mem: Memory, sh: Shape, n: Ptr, p: Ptr, i: nat): Shape
    requires Sibling(mem, sh, n, p, i)
  {
    Shape(sh.kids[p := Without(sh.kids[p], i)],
          map k | k in sh.place :: if k in mem && mem[k].parent == p && sh.place[k] > i then sh.place[k] - 1 else sh.place[k],
          sh.depth, sh.named - {(p, mem[n].name)})
  }

  lemma {:induction false} ListKid(mem: Memory, sh: Shape, n: Ptr, i: nat)
    requires n in mem && ListOk(mem, sh, n) && i < |sh.kids[n]|
    ensures KidOk(mem, sh, n, i)
  {
  }

  /** The memory afterwards, node by node. */
  lemma {:induction false} DetachedAt(mem: Memory, sh: Shape, n: Ptr, p: Ptr, i: nat, m: Ptr)
    requires Sibling(mem, sh, n, p, i) && p != n && ListOk(mem, sh, p) && m in mem && m != n
    ensures var ks, mem' := sh.kids[p], Detached(mem, sh, n, p, i);
            && mem'.Keys == mem.Keys - {n}
            && mem'[m] == mem[m].(child := if m == p && i == |ks| - 1 then mem[n].cdr else mem[m].child,
                                  cdr := if i < |ks| - 1 && m == ks[i + 1] then mem[n].cdr else mem[m].cdr)
  {
    if i < |sh.kids[p]| - 1 {
      ListKid(mem, sh, p, i + 1);
    }
  }

  /** Distinct places hold distinct nodes. */
  lemma {:induction false} KidsDiffer(mem: Memory, sh: Shape, p: Ptr, i: nat, j: nat)
    requires p in mem && ListOk(mem, sh, p) && i < |sh.kids[p]| && j < |sh.kids[p]|
    ensures sh.kids[p][i] in mem && mem[sh.kids[p][i]].parent == p
    ensures sh.kids[p][i] == sh.kids[p][j] <==> i == j
  {
    ListKid(mem, sh, p, i);
    ListKid(mem, sh, p, j);
  }

  lemma {:induction false} DetachKid(mem: Memory, sh: Shape, n: Ptr, p: Ptr, i: nat, m: Ptr, j: nat)
    requires Sibling(mem, sh, n, p, i) && m in mem && m != n && m != p && p != n
    requires ListOk(mem, sh, m) && ListOk(mem, sh, p) && j < |sh.kids[m]|
    ensures KidOk(Detached(mem, sh, n, p, i), ShapeWithout(mem, sh, n, p, i), m, j)
  {
    var k := sh.kids[m][j];
    hide ListOk, Detached;
    ListKid(mem, sh, m, j);
    if i < |sh.kids[p]| - 1 {
      ListKid(mem, sh, p, i + 1);
    }
    ListKid(mem, sh, p, i);
    DetachedAt(mem, sh, n, p, i, k);
  }

  /** The links of n's siblings afterwards. */
  lemma {:induction false} DetachLinks(mem: Memory, sh: Shape, n: Ptr, p: Ptr, i: nat, j: nat)
    requires Sibling(mem, sh, n, p, i) && p != n && ListOk(mem, sh, p) && j < |sh.kids[p]| - 1
    ensures var k := Without(sh.kids[p], i)[j]; var mem' := Detached(mem, sh, n, p, i);
            && k in mem && k != n && k in mem' && mem'[k].parent == p && mem'[k].name == mem[k].name
            && mem'[k].cdr == Nth(Without(sh.kids[p], i), j - 1)
  {
    hide ListOk, Detached;
    var ks := sh.kids[p];
    var l := if j < i then j else j + 1;
    ListKid(mem, sh, p, l);
    ListKid(mem, sh, p, i);
    KidsDiffer(mem, sh, p, l, i);
    if i < |ks| - 1 {
      KidsDiffer(mem, sh, p, l, i + 1);
    }
    DetachedAt(mem, sh, n, p, i, ks[l]);
    assert Without(ks, i)[j] == ks[l];
    assert j > 0 ==> Without(ks, i)[j - 1] == ks[if j - 1 < i then j - 1 else j];
  }

  lemma {:induction false} DetachNames(mem: Memory, sh: Shape, n: Ptr, p: Ptr, i: nat, j: nat)
    requires Sibling(mem, sh, n, p, i) && p != n && ListOk(mem, sh, p) && j < |sh.kids[p]| - 1
    ensures var k := Without(sh.kids[p], i)[j]; var sh' := ShapeWithout(mem, sh, n, p, i);
            && k in mem && k in sh'.place && sh'.place[k] == j
            && (p, mem[k].name) in sh'.named && sh'.named[(p, mem[k].name)] == k
  {
    hide ListOk;
    var l := if j < i then j else j + 1;
    ListKid(mem, sh, p, l);
    ListKid(mem, sh, p, i);
    var k := sh.kids[p][l];
    assert k != n;
    assert (p, mem[k].name) != (p, mem[n].name);
  }

  lemma {:induction false} DetachSibling(mem: Memory, sh: Shape, n: Ptr, p: Ptr, i: nat, j: nat)
    requires Sibling(mem, sh, n, p, i) && p != n && ListOk(mem, sh, p) && j < |sh.kids[p]| - 1
    ensures KidOk(Detached(mem, sh, n, p, i), ShapeWithout(mem, sh, n, p, i), p, j)
  {
    assert ShapeWithout(mem, sh, n, p, i).kids[p] == Without(sh.kids[p], i);
    hide ListOk, Detached, ShapeWithout;
    DetachLinks(mem, sh, n, p, i, j);
    DetachNames(mem, sh, n, p, i, j);
  }

  /** The head of each node's list afterwards. */
  lemma {:induction false} DetachHead(mem: Memory, sh: Shape, n: Ptr, p: Ptr, i: nat, m: Ptr)
    requires Sibling(mem, sh, n, p, i) && p != n && m in mem && m != n && ListOk(mem, sh, p) && ListOk(mem, sh, m)
    ensures var mem', sh' := Detached(mem, sh, n, p, i), ShapeWithout(mem, sh, n, p, i);
            && m in mem' && m in sh'.kids && mem'[m].isDir == mem[m].isDir
            && mem'[m].child == Nth(sh'.kids[m], |sh'.kids[m]| - 1)
            && sh'.kids[m] == if m == p then Without(sh.kids[p], i) else sh.kids[m]
  {
    hide Detached, KidOk;
    NextOf(mem, sh, n, p, i);
    DetachedAt(mem, sh, n, p, i, m);
  }

  lemma {:induction false} NextOf(mem: Memory, sh: Shape, n: Ptr, p: Ptr, i: nat)
    requires Sibling(mem, sh, n, p, i) && ListOk(mem, sh, p)
    ensures mem[n].cdr == Nth(sh.kids[p], i - 1)
  {
    ListKid(mem, sh, p, i);
  }

  lemma {:induction false} DetachList(mem: Memory, sh: Shape, n: Ptr, p: Ptr, i: nat, m: Ptr)
    requires Sibling(mem, sh, n, p, i) && p != n && m in mem && m != n && ListOk(mem, sh, p) && ListOk(mem, sh, m)
    ensures m in Detached(mem, sh, n, p, i)
    ensures ListOk(Detached(mem, sh, n, p, i), ShapeWithout(mem, sh, n, p, i), m)
  {
    var mem', sh' := Detached(mem, sh, n, p, i), ShapeWithout(mem, sh, n, p, i);
    hide KidOk, Detached, ShapeWithout, Nth;
    DetachHead(mem, sh, n, p, i, m);
    forall j: nat | j < |sh'.kids[m]| ensures KidOk(mem', sh', m, j) {
      if m == p {
        DetachSibling(mem, sh, n, p, i, j);
      } else {
        DetachKid(mem, sh, n, p, i, m, j);
      }
    }
  }

  lemma {:induction false} DetachPlace(mem: Memory, sh: Shape, root: Ptr, n: Ptr, p: Ptr, i: nat, m: Ptr)
    requires Sibling(mem, sh, n, p, i) && p != n && m in mem && m != n && ListOk(mem, sh, p) && PlaceOk(mem, sh, root, m)
    requires n in sh.kids && sh.kids[n] == []
    ensures m in Detached(mem, sh, n, p, i)
    ensures PlaceOk(Detached(mem, sh, n, p, i), ShapeWithout(mem, sh, n, p, i), root, m)
  {
    hide ListOk, Detached;
    DetachedAt(mem, sh, n, p, i, m);
    var q := mem[m].parent;
    if m != root && q == p {
      assert sh.place[m] != i;
    }
  }

  lemma {:induction false} NotOwnParent(mem: Memory, sh: Shape, root: Ptr, n: Ptr, p: Ptr, i: nat)
    requires Sibling(mem, sh, n, p, i) && PlaceOk(mem, sh, root, n) && n != root
    ensures p != n
  {
  }

  /** Removing a childless node other than the root leaves a tree. */
  lemma {:induction false} DetachOk(mem: Memory, sh: Shape, root: Ptr, n: Ptr, p: Ptr, i: nat)
    requires TreeOk(mem, sh, root) && Sibling(mem, sh, n, p, i) && n != root && n in sh.kids && sh.kids[n] == []
    ensures TreeOk(Detached(mem, sh, n, p, i), ShapeWithout(mem, sh, n, p, i), root)
    ensures p != n
  {
    var mem', sh' := Detached(mem, sh, n, p, i), ShapeWithout(mem, sh, n, p, i);
    hide ListOk, PlaceOk, Detached, ShapeWithout;
    NodeOk(mem, sh, root, p);
    NodeOk(mem, sh, root, n);
    NotOwnParent(mem, sh, root, n, p, i);
    DetachedAt(mem, sh, n, p, i, p);
    NodeOk(mem, sh, root, root);
    forall m | m in mem' ensures ListOk(mem', sh', m) && PlaceOk(mem', sh', root, m) {
      NodeOk(mem, sh, root, m);
      DetachList(mem, sh, n, p, i, m);
      DetachPlace(mem, sh, root, n, p, i, m);
    }
  }
}
