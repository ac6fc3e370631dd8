/** The node cache as an object: reference counts and the freeing cascade. */
module VfsCache {
  import opened Dirents
  import opened VfsTree

  /** What is freed when n, childless and unreferenced, goes: n and, one after the other,
      the ancestors it leaves childless, as long as they are unreferenced and not the root. */
  ghost function Doomed(mem: Memory, sh: Shape, root: Ptr, n: Ptr): (r: set<Ptr>)
    requires TreeOk(mem, sh, root) && n in mem && n != root
    ensures n in r
    decreases sh.depth[n]
  {
    assert PlaceOk(mem, sh, root, n);
    var p := mem[n].parent;
    if p == root || mem[p].refcount > 0 || |sh.kids[p]| > 1 then {n} else {n} + Doomed(mem, sh, root, p)
  }

  /** mem' has some of the nodes of mem, with the same name, inode, count and parent. */
  ghost predicate Kept(mem: Memory, mem': Memory) {
    forall m :: m in mem' ==> m in mem && SameNode(mem[m], mem'[m])
  }

  ghost predicate SameNode(a: Node, b: Node) {
    b == a.(child := b.child, cdr := b.cdr)
  }

  lemma {:induction false} DetachedKeeps(mem: Memory, sh: Shape, root: Ptr, n: Ptr, p: Ptr, i: nat)
    requires TreeOk(mem, sh, root) && Sibling(mem, sh, n, p, i)
    ensures Detached(mem, sh, n, p, i).Keys == mem.Keys - {n} && Kept(mem, Detached(mem, sh, n, p, i))
  {
    assert ListOk(mem, sh, p);
    if i < |sh.kids[p]| - 1 {
      assert KidOk(mem, sh, p, i + 1);
    }
  }

  lemma {:induction false} HasSibling(mem: Memory, sh: Shape, root: Ptr, n: Ptr)
    requires TreeOk(mem, sh, root) && n in mem && n != root
    ensures n in sh.place && Sibling(mem, sh, n, mem[n].parent, sh.place[n]) && n in sh.kids && n in sh.depth
    ensures mem[n].parent in sh.depth && sh.depth[n] == sh.depth[mem[n].parent] + 1
  {
    assert PlaceOk(mem, sh, root, n) && ListOk(mem, sh, n);
  }

  /** Nothing above a node depends on the lists below it. */
  lemma {:induction false} DoomedFrame(mem: Memory, sh: Shape, mem': Memory, sh': Shape, root: Ptr, n: Ptr)
    requires TreeOk(mem, sh, root) && TreeOk(mem', sh', root) && n in mem && n in mem' && n != root && Kept(mem, mem')
    requires forall a :: a in mem' && a in sh.depth && a in sh.kids && n in sh.depth && sh.depth[a] < sh.depth[n] ==> a in sh'.kids && sh'.kids[a] == sh.kids[a]
    ensures Doomed(mem', sh', root, n) == Doomed(mem, sh, root, n)
    decreases sh.depth[n]
  {
    hide ListOk;
    NodeOk(mem, sh, root, n);
    NodeOk(mem', sh', root, n);
    var p := mem[n].parent;
    assert p in mem && SameNode(mem[n], mem'[n]) && SameNode(mem[p], mem'[p]);
    if p != root && mem[p].refcount == 0 && |sh.kids[p]| <= 1 {
      DoomedFrame(mem, sh, mem', sh', root, p);
    }
  }

  lemma {:induction false} OnlyKid(mem: Memory, sh: Shape, root: Ptr, n: Ptr, m: Ptr)
    requires TreeOk(mem, sh, root) && n in mem && m in mem && n != root && m != root && mem[n].parent == mem[m].parent
    requires mem[n].parent in sh.kids && |sh.kids[mem[n].parent]| <= 1
    ensures m == n
  {
    assert PlaceOk(mem, sh, root, n) && PlaceOk(mem, sh, root, m);
  }

  lemma {:induction false} DoomedBelow(mem: Memory, sh: Shape, root: Ptr, n: Ptr, m: Ptr)
    requires TreeOk(mem, sh, root) && n in mem && n != root && m in mem && m != root
    requires mem[m].parent in Doomed(mem, sh, root, n)
    ensures m in Doomed(mem, sh, root, n) || mem[m].parent == n
    decreases sh.depth[n]
  {
    HasSibling(mem, sh, root, n);
    hide TreeOk, Sibling;
    var p := mem[n].parent;
    if mem[m].parent != n && mem[m].parent != p {
      DoomedBelow(mem, sh, root, p, m);
    } else if mem[m].parent == p && p != n {
      DoomedParent(mem, sh, root, n);
      OnlyKid(mem, sh, root, n, m);
    }
  }

  /** A node's parent goes with it only if it has no other kid. */
  lemma {:induction false} DoomedParent(mem: Memory, sh: Shape, root: Ptr, n: Ptr)
    requires TreeOk(mem, sh, root) && n in mem && n != root
    ensures var p := mem[n].parent; p in mem && p in sh.kids && p != n
    ensures mem[n].parent in Doomed(mem, sh, root, n) ==> |sh.kids[mem[n].parent]| <= 1
  {
    assert PlaceOk(mem, sh, root, n);
  }

  /** What is freed is unreferenced and not the root. */
  lemma {:induction false} DoomedUnused(mem: Memory, sh: Shape, root: Ptr, n: Ptr, f: Ptr)
    requires TreeOk(mem, sh, root) && n in mem && n != root && mem[n].refcount == 0 && f in Doomed(mem, sh, root, n)
    ensures f in mem && f != root && mem[f].refcount == 0
    decreases sh.depth[n]
  {
    if f != n {
      assert PlaceOk(mem, sh, root, n);
      DoomedUnused(mem, sh, root, mem[n].parent, f);
    }
  }

  /** a is m or an ancestor of it. */
  ghost predicate Above(mem: Memory, sh: Shape, root: Ptr, a: Ptr, m: Ptr)
    requires TreeOk(mem, sh, root) && m in mem && m in sh.depth
    decreases sh.depth[m]
  {
    a == m || (m != root && (assert PlaceOk(mem, sh, root, m); Above(mem, sh, root, a, mem[m].parent)))
  }

  /** The cascade never frees a node that stays or that something which stays hangs off: in
      particular nothing referenced, and no ancestor of anything referenced. */
  lemma {:induction false} DoomedSafe(mem: Memory, sh: Shape, root: Ptr, n: Ptr, m: Ptr, a: Ptr)
    requires TreeOk(mem, sh, root) && n in mem && n != root && mem[n].refcount == 0
    requires n in sh.kids && sh.kids[n] == [] && m in mem && m in sh.depth
    requires m !in Doomed(mem, sh, root, n) && Above(mem, sh, root, a, m)
    ensures a !in Doomed(mem, sh, root, n)
    decreases sh.depth[m]
  {
    if a != m {
      assert PlaceOk(mem, sh, root, m);
      if mem[m].parent in Doomed(mem, sh, root, n) {
        DoomedBelow(mem, sh, root, n, m);
        assert false;
      }
      DoomedSafe(mem, sh, root, n, mem[m].parent, a);
    }
  }

  /** And it goes on for as long as it can: the parent of a freed node is freed as well,
      unless it is the root, is referenced, or has another child. */
  lemma {:induction false} DoomedMaximal(mem: Memory, sh: Shape, root: Ptr, n: Ptr, f: Ptr)
    requires TreeOk(mem, sh, root) && n in mem && n != root && f in Doomed(mem, sh, root, n) && f in mem && f != root
    ensures var p := mem[f].parent;
            && p in mem && p in sh.kids
            && (p in Doomed(mem, sh, root, n) || p == root || mem[p].refcount > 0 || |sh.kids[p]| > 1)
    decreases sh.depth[n]
  {
    assert PlaceOk(mem, sh, root, n) && PlaceOk(mem, sh, root, f);
    if f != n {
      DoomedMaximal(mem, sh, root, mem[n].parent, f);
    }
  }

  class Cache {
    const root: Ptr
    var mem: Memory
    ghost var sh: Shape

    ghost predicate Valid()
      reads this
    {
      TreeOk(mem, sh, root)
    }

    /** vfs_init, with the root of a file system mounted on it. */
    constructor (root: Ptr, ino: nat, name: Name)
      requires root != NULL
      ensures this.root == root && Valid() && mem == map[root := Node(name, ino, true, 0, NULL, NULL, NULL)]
    {
      this.root := root;
      mem := map[root := Node(name, ino, true, 0, NULL, NULL, NULL)];
      sh := Shape(map[root := []], map[], map[root := 0], map[]);
    }

    /** malloc: some address that is not in use. */
    method Malloc() returns (c: Ptr)
      ensures c != NULL && c !in mem
    {
      c := 1;
      var left := mem.Keys;
      while c in left
        invariant c >= 1 && left <= mem.Keys && forall a :: a in mem && a >= c ==> a in left
        decreases left
      {
        left := left - {c};
        c := c + 1;
      }
    }

    /** A new node goes to the front of its parent's list. */
    method Attach(p: Ptr, name: Name, ino: nat, isDir: bool) returns (c: Ptr)
      requires Valid() && p in mem && mem[p].isDir && p in sh.kids && Unused(mem, sh, p, name)
      modifies this
      ensures Valid() && c !in old(mem) && p in old(mem) && mem == Attached(old(mem), p, c, name, ino, isDir)
    {
      hide ListOk;
      assert PlaceOk(mem, sh, root, p);
      c := Malloc();
      AttachOk(mem, sh, root, p, c, name, ino, isDir);
      ghost var sh' := WithKid(sh, p, c, name);
      mem := mem[c := Node(name, ino, isDir, 0, p, NULL, mem[p].child)];
      mem := mem[p := mem[p].(child := c)];
      sh := sh';
    }

    /** The search of vfs_node_remove for the sibling before n. */
    method FindBefore(n: Ptr, ghost p: Ptr, ghost i: nat) returns (it: Ptr)
      requires Valid() && Sibling(mem, sh, n, p, i) && mem[p].child != n
      ensures i + 1 < |sh.kids[p]| && it == sh.kids[p][i + 1] && it in mem
    {
      hide TreeOk, Sibling;
      SiblingMeans(mem, sh, n, p, i);
      ghost var ks := sh.kids[p];
      KidAt(mem, sh, root, p, i);
      KidAt(mem, sh, root, p, |ks| - 1);
      it := mem[mem[n].parent].child;
      ghost var j := |ks| - 1;
      while it != NULL
        invariant i < j < |ks| && it == ks[j] && it != NULL
        decreases j
      {
        KidAt(mem, sh, root, p, j);
        KidAt(mem, sh, root, p, j - 1);
        if mem[it].cdr == n {
          return;
        }
        it := mem[it].cdr;
        j := j - 1;
      }
    }

    /** The unlinking part of vfs_node_remove, and the free. */
    method Unlink(n: Ptr, ghost i: nat)
      requires Valid() && n in mem && n != root && Sibling(mem, sh, n, mem[n].parent, i) && n in sh.kids && sh.kids[n] == []
      modifies this
      ensures Valid()
      ensures Sibling(old(mem), old(sh), n, old(mem)[n].parent, i)
      ensures mem == Detached(old(mem), old(sh), n, old(mem)[n].parent, i)
      ensures sh == ShapeWithout(old(mem), old(sh), n, old(mem)[n].parent, i)
    {
      hide TreeOk, ShapeWithout, Sibling;
      ghost var mem0, sh0 := mem, sh;
      var p := mem[n].parent;
      SiblingMeans(mem, sh, n, p, i);
      DetachOk(mem, sh, root, n, p, i);
      LastChild(mem, sh, root, n, p, i);
      if mem[p].child == n {
        mem := mem[p := mem[p].(child := mem[n].cdr)];
      } else {
        var it := FindBefore(n, p, i);
        mem := mem[it := mem[it].(cdr := mem[n].cdr)];
      }
      mem := mem - {n};
      sh := ShapeWithout(mem0, sh0, n, p, i);
    }

    /** vfs_node_remove: unlink and free n, and if that leaves its parent childless,
        unreferenced and not the root, free the parent as well. */
    method NodeRemove(n: Ptr)
      requires Valid() && n in mem && mem[n].refcount == 0 && n in sh.kids && sh.kids[n] == [] && n in sh.depth
      modifies this
      ensures Valid() && Kept(old(mem), mem)
      ensures n == root ==> mem == old(mem) && sh == old(sh)
      ensures n != root ==> mem.Keys == old(mem).Keys - Doomed(old(mem), old(sh), root, n)
      decreases sh.depth[n], 0
    {
      hide TreeOk, ListOk, PlaceOk, Detached, ShapeWithout, Sibling;
      KeptSelf(mem);
      RootParent(mem, sh, root, n);
      if mem[n].parent == NULL {
        return;
      }
      ghost var mem0, sh0 := mem, sh;
      HasSibling(mem, sh, root, n);
      var p := mem[n].parent;
      ghost var i := sh.place[n];
      DetachedKeeps(mem, sh, root, n, p, i);
      Unlink(n, i);
      AfterUnlink(mem0, sh0, mem, sh, root, n, p, i);
      RootParent(mem, sh, root, p);
      if mem[p].parent != NULL && mem[p].child == NULL && mem[p].refcount == 0 {
        VnodeFree(p);
      }
    }

    /** vnode_free */
    method VnodeFree(n: Ptr)
      requires Valid() && n in mem && mem[n].refcount == 0 && n in sh.kids && sh.kids[n] == [] && n in sh.depth && n != root
      modifies this
      ensures Valid() && Kept(old(mem), mem)
      ensures mem.Keys == old(mem).Keys - Doomed(old(mem), old(sh), root, n)
      decreases sh.depth[n], 1
    {
      NodeRemove(n);
    }

    /** vnode_ref: the root is not counted. */
    method Ref(n: Ptr)
      requires Valid() && n in mem
      modifies this`mem
      ensures Valid() && n in old(mem) && mem == Counted(old(mem), root, n, old(mem)[n].refcount + 1)
    {
      hide TreeOk;
      RootParent(mem, sh, root, n);
      CountOk(mem, sh, root, n, mem[n].refcount + 1);
      if mem[n].parent == NULL {
        return;
      }
      mem := mem[n := mem[n].(refcount := mem[n].refcount + 1)];
    }

    /** vnode_unref: a node that nobody uses any more goes, unless it has children. Without a
        use to give up nothing happens; the code asserts that there are children then. */
    method Unref(n: Ptr)
      requires Valid() && n in mem && (n != root && mem[n].refcount == 0 ==> mem[n].child != NULL)
      modifies this
      ensures Valid() && n in old(mem)
      ensures n == root || old(mem)[n].refcount == 0 ==> mem == old(mem)
      ensures n != root && old(mem)[n].refcount > 0 ==>
                var lowered := Counted(old(mem), root, n, old(mem)[n].refcount - 1);
                && TreeOk(lowered, old(sh), root) && Kept(lowered, mem)
                && mem.Keys == old(mem).Keys - if lowered[n].refcount == 0 && lowered[n].child == NULL then Doomed(lowered, old(sh), root, n) else {}
    {
      hide TreeOk, Kept;
      RootParent(mem, sh, root, n);
      if mem[n].parent == NULL {
        return;
      }
      if mem[n].refcount == 0 {
        assert mem[n].child != NULL;
        return;
      }
      CountOk(mem, sh, root, n, mem[n].refcount - 1);
      mem := mem[n := mem[n].(refcount := mem[n].refcount - 1)];
      KeptSelf(mem);
      RootParent(mem, sh, root, n);
      if mem[n].refcount == 0 {
        if mem[n].child != NULL {
          return;
        }
        VnodeFree(n);
      }
    }
  }

  /** mem with another count for n; the root's is left alone. */
  function Counted(mem: Memory, root: Ptr, n: Ptr, count: nat): Memory
    requires n in mem
  {
    if n == root then mem else mem[n := mem[n].(refcount := count)]
  }

  lemma {:induction false} CountOk(mem: Memory, sh: Shape, root: Ptr, n: Ptr, count: nat)
    requires TreeOk(mem, sh, root) && n in mem
    ensures TreeOk(Counted(mem, root, n, count), sh, root)
  {
    var mem' := Counted(mem, root, n, count);
    forall m | m in mem' ensures ListOk(mem', sh, m) && PlaceOk(mem', sh, root, m) {
      CountNode(mem, sh, root, n, count, m);
    }
  }

  lemma {:induction false} CountNode(mem: Memory, sh: Shape, root: Ptr, n: Ptr, count: nat, m: Ptr)
    requires TreeOk(mem, sh, root) && n in mem && m in mem
    ensures ListOk(Counted(mem, root, n, count), sh, m) && PlaceOk(Counted(mem, root, n, count), sh, root, m)
  {
    assert ListOk(mem, sh, m) && PlaceOk(mem, sh, root, m);
    var mem' := Counted(mem, root, n, count);
    forall i: nat | i < |sh.kids[m]| ensures KidOk(mem', sh, m, i) {
      assert KidOk(mem, sh, m, i);
    }
  }

  lemma {:induction false} KeptSelf(mem: Memory)
    ensures Kept(mem, mem)
  {
  }

  lemma {:induction false} RootParent(mem: Memory, sh: Shape, root: Ptr, n: Ptr)
    requires TreeOk(mem, sh, root) && n in mem
    ensures mem[n].parent == NULL <==> n == root
    ensures n in sh.kids && (mem[n].child == NULL <==> sh.kids[n] == []) && n in sh.depth
  {
    assert PlaceOk(mem, sh, root, n) && ListOk(mem, sh, n);
    if sh.kids[n] != [] {
      assert KidOk(mem, sh, n, |sh.kids[n]| - 1);
    }
  }

  /** Once n is out: its parent is freed as well exactly if the test says so. */
  lemma {:induction false} AfterUnlink(mem: Memory, sh: Shape, mem1: Memory, sh1: Shape, root: Ptr, n: Ptr, p: Ptr, i: nat)
    requires TreeOk(mem, sh, root) && Sibling(mem, sh, n, p, i) && n != root && TreeOk(mem1, sh1, root)
    requires mem1 == Detached(mem, sh, n, p, i) && sh1 == ShapeWithout(mem, sh, n, p, i)
    requires mem1.Keys == mem.Keys - {n} && Kept(mem, mem1)
    ensures p in mem1 && p in sh1.kids && p in sh1.depth && n in sh.depth && sh1.depth[p] < sh.depth[n]
    ensures mem1[p].refcount == mem[p].refcount
    ensures Doomed(mem, sh, root, n)
         == if p != root && sh1.kids[p] == [] && mem1[p].refcount == 0 then {n} + Doomed(mem1, sh1, root, p) else {n}
  {
    hide *;
    SiblingMeans(mem, sh, n, p, i);
    HasSibling(mem, sh, root, n);
    KidsAfter(mem, sh, mem1, sh1, n, p, i);
    KeptAt(mem, mem1, p);
    RootParent(mem1, sh1, root, p);
    DoomedStep(mem, sh, root, n);
    if p != root && sh1.kids[p] == [] && mem1[p].refcount == 0 {
      DoomedFrame(mem, sh, mem1, sh1, root, p);
    }
  }

  lemma {:induction false} KidsAfter(mem: Memory, sh: Shape, mem1: Memory, sh1: Shape, n: Ptr, p: Ptr, i: nat)
    requires Sibling(mem, sh, n, p, i) && sh1 == ShapeWithout(mem, sh, n, p, i)
    ensures p in sh1.kids && |sh1.kids[p]| == |sh.kids[p]| - 1 && sh1.depth == sh.depth
    ensures forall a :: a in sh.kids && a != p ==> a in sh1.kids && sh1.kids[a] == sh.kids[a]
  {
  }

  lemma {:induction false} KeptAt(mem: Memory, mem': Memory, m: Ptr)
    requires Kept(mem, mem') && m in mem'
    ensures m in mem && mem'[m] == mem[m].(child := mem'[m].child, cdr := mem'[m].cdr)
  {
    assert SameNode(mem[m], mem'[m]);
  }

  lemma {:induction false} DoomedStep(mem: Memory, sh: Shape, root: Ptr, n: Ptr)
    requires TreeOk(mem, sh, root) && n in mem && n != root
    ensures var p := mem[n].parent;
            && p in mem && p in sh.kids && n in sh.depth && p in sh.depth && sh.depth[n] == sh.depth[p] + 1
            && Doomed(mem, sh, root, n)
               == if p == root || mem[p].refcount > 0 || |sh.kids[p]| > 1 then {n} else {n} + Doomed(mem, sh, root, p)
  {
    assert PlaceOk(mem, sh, root, n);
  }

  lemma {:induction false} SiblingMeans(mem: Memory, sh: Shape, n: Ptr, p: Ptr, i: nat)
    requires Sibling(mem, sh, n, p, i)
    ensures n in mem && p == mem[n].parent && p in mem && p in sh.kids && n in sh.place && sh.place[n] == i
    ensures i < |sh.kids[p]| && sh.kids[p][i] == n
  {
  }

  lemma {:induction false} LastChild(mem: Memory, sh: Shape, root: Ptr, n: Ptr, p: Ptr, i: nat)
    requires TreeOk(mem, sh, root) && Sibling(mem, sh, n, p, i)
    ensures mem[p].child == n <==> i == |sh.kids[p]| - 1
  {
    hide *;
    SiblingMeans(mem, sh, n, p, i);
    KidAt(mem, sh, root, p, i);
    KidAt(mem, sh, root, p, |sh.kids[p]| - 1);
  }

  lemma {:induction false} KidAt(mem: Memory, sh: Shape, root: Ptr, p: Ptr, j: nat)
    requires TreeOk(mem, sh, root) && p in mem && p in sh.kids && j < |sh.kids[p]|
    ensures mem[p].child == sh.kids[p][|sh.kids[p]| - 1]
    ensures var k := sh.kids[p][j];
            && k in mem && k != NULL && mem[k].cdr == Nth(sh.kids[p], j - 1) && k in sh.place && sh.place[k] == j
  {
    assert ListOk(mem, sh, p) && KidOk(mem, sh, p, j);
  }
}
