/** mkdir and unlink keep a volume clean. */
module FsckMake {
  import opened Bytes
  import opened Numbering
  import opened Layout
  import opened Inodes
  import opened State
  import opened Dirents
  import opened DirBlocks
  import opened Listings
  import opened Names
  import opened Effects
  import opened Fsck
  import opened FsckDirs

  // ---- mkdir -----------------------------------------------------------------------------

  /** Naming an owner for a block that is free changes nothing yet. */
  lemma {:induction false} FreeOwner(v: View, o: Owners, b: nat, p: Place)
    requires b in v.blocks.free
    ensures Outside(v, v, o, o[b := p], {})
  {
  }

  lemma {:induction false} OkSane(v: View, geo: Geometry, c: Catalog)
    requires Ok(v, geo, c)
    ensures geo.blockSize > 0
  {
    hide AllHold, NamesOk;
  }

  lemma {:induction false} OwnerAhead(v: View, geo: Geometry, c: Catalog, b: nat, p: Place)
    requires Ok(v, geo, c) && b in v.blocks.free
    ensures Ok(v, geo, Catalog(c.owner[b := p], c.home))
  {
    var o' := c.owner[b := p];
    hide AllHold, Sane, NamesOk, TreeOf, Outside;
    FreeOwner(v, c.owner, b, p);
    OkSane(v, geo, c);
    assert Catalog(o', c.home).Live() == c.Live() && c.Live() - {} == c.Live();
    Frame(v, v, geo.blockSize, c.owner, o', {}, c.Live());
  }

  lemma {:induction false} MakeEdited(v: View, v': View, geo: Geometry, d: nat, e: Entry, node: Inode, nb: u32, s: seq<byte>, edit: Edit)
    requires geo.blockSize > 0 && Makes(v, v', geo, d, e, node, nb, s, edit) && d !in v.inodes.free
    ensures Edited(v, v', d, geo.blockSize, edit)
    ensures forall i :: i != d && i != e.ino ==> InodeKept(v, v', i)
    ensures e.ino as nat in v'.table && v'.table[e.ino as nat] == node && e.ino !in v'.inodes.free
    ensures nb as nat in v'.data && v'.data[nb as nat] == s && nb !in v'.blocks.free
    ensures edit.Extend? ==> edit.b != nb
  {
    var bs, free := geo.blockSize, v.blocks.free - {nb as nat};
    EntersOk(v, d, bs, free, e, edit);
    hide EntersBy, EditInode, InodeOk, Tiled, Entries;
    EditedBy(v, v', bs, d, e.ino as nat, free, edit);
  }

  lemma {:induction false} MakeSane(v: View, v': View, geo: Geometry, d: nat, e: Entry, node: Inode, nb: u32, s: seq<byte>, edit: Edit)
    requires Sane(v, geo) && Makes(v, v', geo, d, e, node, nb, s, edit)
    ensures Sane(v', geo)
  {
    var bs, free := geo.blockSize, v.blocks.free - {nb as nat};
    EntersOk(v, d, bs, free, e, edit);
    if edit.Rewrite? {
      assert BlockTiled(v.data, v.table[d].direct[edit.k], bs);
    }
    EditSane(v, geo, d, free, edit);
    var table' := v.table[d := EditInode(v.table[d], bs, edit)][e.ino as nat := node];
    assert TableFits(table', geo);
    var data' := EditData(v.data, v.table[d], edit)[nb as nat := s];
    assert DataFits(data', geo);
    var blocks', inodes' := EditFree(free, v.table[d], edit), v.inodes.free - {e.ino as nat};
    hide Sane, EntersBy, EditOk, EditInode, EditData, EditFree, Moved, InodeOk, IsDir, Tiled, Entries;
    SaneAfter(v, v', geo, blocks', inodes', table', data');
  }

  /** The new directory: one block with "." and "..". */
  lemma {:induction false} FreshDirHolds(v': View, bs: nat, o: Owners, x: u32, d: u32, nb: u32)
    requires bs > 0 && x as nat in v'.table && x !in v'.inodes.free
    requires var node := v'.table[x as nat]; IsDir(node) && |node.direct| == DIRECT && node.size == bs && node.direct[0] == nb
    requires nb as nat in v'.data && nb !in v'.blocks.free && nb as nat in o && o[nb as nat] == Place(x as nat, 0)
    requires var s := v'.data[nb as nat];
             |s| == bs && Tiled(s, 0, |s|) && Entries(s, 0, |s|) == [Entry(x, DOT), Entry(d, DOTDOT)]
    ensures Holds(v', bs, o, x as nat)
    ensures Content(ListingOf(v'.data, v'.table[x as nat], bs)) == {Entry(x, DOT), Entry(d, DOTDOT)}
  {
    var node := v'.table[x as nat];
    SpanOne(node, bs);
    var ds := Parts(v'.data, node, bs);
    assert ds[0] == PartAt(v'.data, nb) == [Entry(x, DOT), Entry(d, DOTDOT)];
    assert Flat(ds, 0) == [] && Flat(ds, 1) == [] + ds[0] == ds[0];
    assert ListingOf(v'.data, node, bs) == [Entry(x, DOT), Entry(d, DOTDOT)];
    assert BlockTiled(v'.data, nb, bs);
    assert OwnedAt(v', o, nb, x as nat, 0);
    assert DOT[..] != DOTDOT;
  }

  function AfterMake(c: Catalog, d: nat, inode: Inode, bs: nat, e: Entry, nb: u32, edit: Edit): Catalog
    requires bs > 0
  {
    AfterCreate(Catalog(c.owner[nb as nat := Place(e.ino as nat, 0)], c.home), d, inode, bs, e, edit)
  }

  lemma {:induction false} MakeParts(v: View, v': View, geo: Geometry, c: Catalog, d: nat, e: Entry, node: Inode, nb: u32, s: seq<byte>, edit: Edit)
    requires LiveDir(v, c.Live(), d) && geo.blockSize > 0 && Makes(v, v', geo, d, e, node, nb, s, edit)
    ensures d in v.table && d in c.Live() && e.ino as nat in v.inodes.free && nb as nat in v.blocks.free && d < U32_LIMIT
    ensures EntersBy(v.data, v.blocks.free - {nb as nat}, v.table[d], geo.blockSize, e, edit)
    ensures EditOk(v, d, geo.blockSize, v.blocks.free - {nb as nat}, edit)
    ensures node.size == geo.blockSize && |node.direct| == DIRECT && node.direct[0] == nb && IsDir(node)
    ensures |s| == geo.blockSize && Tiled(s, 0, |s|) && Entries(s, 0, |s|) == [Entry(e.ino, DOT), Entry(d, DOTDOT)]
    ensures var c1 := Catalog(c.owner[nb as nat := Place(e.ino as nat, 0)], c.home);
            var o' := EditOwner(c1.owner, d, v.table[d], geo.blockSize, edit);
            && AfterMake(c, d, v.table[d], geo.blockSize, e, nb, edit) == Catalog(o', NewHome(c1.home, ROOT, d, e))
            && c1.Live() == c.Live() && LiveDir(v, c1.Live(), d)
            && nb as nat in o' && o'[nb as nat] == Place(e.ino as nat, 0)
    ensures edit.Extend? ==> edit.b != nb
  {
    EntersOk(v, d, geo.blockSize, v.blocks.free - {nb as nat}, e, edit);
  }

  /** mkdir keeps the volume clean. */
  lemma {:induction false} MakeKeeps(v: View, v': View, geo: Geometry, c: Catalog, d: nat, e: Entry, node: Inode, nb: u32, s: seq<byte>, edit: Edit)
    requires Ok(v, geo, c) && LiveDir(v, c.Live(), d) && Makes(v, v', geo, d, e, node, nb, s, edit)
    requires Unnamed(ListingOf(v.data, v.table[d], geo.blockSize), e.name)
    ensures Ok(v', geo, AfterMake(c, d, v.table[d], geo.blockSize, e, nb, edit))
    ensures d in TreeOf(v, geo.blockSize, c.Live()) && d < U32_LIMIT
    ensures TreeOf(v', geo.blockSize, AfterMake(c, d, v.table[d], geo.blockSize, e, nb, edit).Live())
         == TreeWith(TreeOf(v, geo.blockSize, c.Live()), d, e, true)
  {
    var bs, x, free := geo.blockSize, e.ino as nat, v.blocks.free - {nb as nat};
    var c1 := Catalog(c.owner[nb as nat := Place(x, 0)], c.home);
    hide *;
    OkParts(v, geo, c);
    MakeParts(v, v', geo, c, d, e, node, nb, s, edit);
    var o' := EditOwner(c1.owner, d, v.table[d], bs, edit);
    LiveUsed(v, geo, c, d);
    FreeNotLive(v, geo, c, x);
    MakeEdited(v, v', geo, d, e, node, nb, s, edit);
    OwnerAhead(v, geo, c, nb as nat, Place(x, 0));
    MakeSane(v, v', geo, d, e, node, nb, s, edit);
    FreshDirHolds(v', bs, o', e.ino, d, nb);
    LiveAfter(c1, o', d, e);
    EnterKeeps(v, v', geo, c1, d, free, e, edit);
  }

  // ---- unlink ----------------------------------------------------------------------------

  /** The blocks an inode owns are in use. */
  lemma {:induction false} OwnedBlocks(v: View, bs: nat, o: Owners, x: nat, b: nat)
    requires bs > 0 && Owns(v, bs, o, x) && b in BlockSet(v.table[x], bs)
    ensures b in v.data && b !in v.blocks.free && b in o && o[b].ino == x
  {
    var k :| 0 <= k < Span(v.table[x], bs) && b == v.table[x].direct[k] as nat;
    assert OwnedAt(v, o, v.table[x].direct[k], x, k);
  }

  lemma {:induction false} VacateOutside(v: View, vm: View, geo: Geometry, o: Owners, x: nat)
    requires geo.blockSize > 0 && Owns(v, geo.blockSize, o, x) && Vacates(v, vm, geo, x)
    ensures Outside(v, vm, o, o, {x})
  {
    forall b ensures BlockKept(v, vm, o, o, {x}, b) {
      if b in BlockSet(v.table[x], geo.blockSize) {
        OwnedBlocks(v, geo.blockSize, o, x, b);
      }
    }
  }

  lemma {:induction false} VacateSane(v: View, vm: View, geo: Geometry, o: Owners, x: nat)
    requires Sane(v, geo) && Owns(v, geo.blockSize, o, x) && Vacates(v, vm, geo, x)
    ensures Sane(vm, geo)
  {
    var bs := geo.blockSize;
    var blocks := v.blocks.free + BlockSet(v.table[x], bs);
    forall b | b in blocks ensures b in v.data {
      if b in BlockSet(v.table[x], bs) {
        OwnedBlocks(v, bs, o, x, b);
      }
    }
    var table' := v.table[x := Emptied(v.table[x], bs)];
    assert TableFits(table', geo);
    hide Emptied, BlockSet, Moved, Owns;
    SaneAfter(v, vm, geo, blocks, v.inodes.free + {x}, table', v.data);
  }

  lemma {:induction false} LeaveSane(v: View, v': View, geo: Geometry, d: nat, name: Name, edit: Edit)
    requires Sane(v, geo) && Leaves(v, v', geo, d, name, edit)
    ensures Sane(v', geo)
  {
    var bs := geo.blockSize;
    LeavesOk(v, d, bs, name, edit);
    var b := v.table[d].direct[edit.k];
    assert BlockTiled(v.data, b, bs);
    EditSane(v, geo, d, {}, edit);
    var table' := v.table[d := EditInode(v.table[d], bs, edit)];
    var data', blocks' := EditData(v.data, v.table[d], edit), EditFree(v.blocks.free, v.table[d], edit);
    assert forall c :: c in blocks' ==> c in data';
    assert TableFits(table', geo) && DataFits(data', geo);
    hide Sane, LeavesBy, EditOk, EditInode, EditData, EditFree, Moved, InodeOk, TableFits, DataFits;
    assert forall i :: i in v.inodes.free ==> i in table' by { SaneFree(v, geo); }
    SaneAfter(v, v', geo, blocks', v.inodes.free, table', data');
  }

  lemma {:induction false} SaneFree(v: View, geo: Geometry)
    requires Sane(v, geo)
    ensures forall i :: i in v.inodes.free ==> i in v.table
  {
  }

  lemma {:induction false} LeaveEdited(v: View, v': View, geo: Geometry, d: nat, name: Name, edit: Edit)
    requires geo.blockSize > 0 && Leaves(v, v', geo, d, name, edit) && d !in v.inodes.free
    ensures Edited(v, v', d, geo.blockSize, edit) && EditOk(v, d, geo.blockSize, v.blocks.free, edit)
    ensures forall i :: i != d ==> InodeKept(v, v', i)
  {
    var bs := geo.blockSize;
    LeavesOk(v, d, bs, name, edit);
    hide LeavesBy, EditInode;
    forall b | b in v.data && b !in v.blocks.free ensures EditedBlock(v, v', v.table[d], edit, b) {
    }
  }

  /** Directory d lost one entry and the other inodes are as before. */
  lemma {:induction false} LeaveEdits(v: View, v': View, geo: Geometry, o: Owners, live: set<nat>, d: nat, name: Name, edit: Edit)
    returns (p: nat)
    requires geo.blockSize > 0 && AllHold(v, geo.blockSize, o, live) && LiveDir(v, live, d)
    requires Leaves(v, v', geo, d, name, edit) && name != DOT
    ensures var o' := EditOwner(o, d, v.table[d], geo.blockSize, edit);
            && AllHold(v', geo.blockSize, o', live)
            && TreeOf(v', geo.blockSize, live - {d}) == TreeOf(v, geo.blockSize, live - {d})
            && d in v'.table && IsDir(v'.table[d])
    ensures Removed(ListingOf(v.data, v.table[d], geo.blockSize), ListingOf(v'.data, v'.table[d], geo.blockSize), p)
    ensures var es := ListingOf(v.data, v.table[d], geo.blockSize);
            && es[p].name == name && Unique(es)
            && Content(ListingOf(v'.data, v'.table[d], geo.blockSize)) == Content(es) - {es[p]}
  {
    var bs := geo.blockSize;
    var o' := EditOwner(o, d, v.table[d], bs, edit);
    assert Holds(v, bs, o, d) && LeavesBy(v.data, v.table[d], bs, name, edit) && d !in v.inodes.free;
    assert Owns(v, bs, o, d) && Unique(ListingOf(v.data, v.table[d], bs)) && IsDir(v.table[d]);
    LeaveEdited(v, v', geo, d, name, edit);
    assert live - {d, d} == live - {d} && live + {d} == live && {d, d} == {d};
    hide *;
    EditOutside(v, v', d, d, bs, o, edit);
    p := LeaveHolds(v, v', d, bs, o, name, edit);
    Frame(v, v', bs, o, o', {d}, live);
    AllHoldAgain(v', bs, o', live, d, d);
    HoldsKnown(v', bs, o', d);
    RemovedBounds(ListingOf(v.data, v.table[d], bs), ListingOf(v'.data, v'.table[d], bs), p);
  }

  /** The entry that goes is the one of that name. */
  lemma {:induction false} UniqueEntry(es: seq<Entry>, p: nat, e: Entry)
    requires Unique(es) && p < |es| && es[p].name == e.name && e in es
    ensures es[p] == e
  {
    var q :| 0 <= q < |es| && es[q] == e;
  }

  /** The tree once x has gone and d has lost its name for it. */
  lemma {:induction false} TreeWithout(v: View, v': View, bs: nat, live: set<nat>, d: nat, x: nat)
    requires bs > 0 && TreeOf(v', bs, live - {x} - {d}) == TreeOf(v, bs, live - {x} - {d})
    requires LiveDir(v, live, d) && d in v'.table && IsDir(v'.table[d]) && x != d
    ensures TreeOf(v', bs, live - {x})
         == TreeOf(v, bs, live)[d := Content(ListingOf(v'.data, v'.table[d], bs))] - {x}
  {
    hide ListingOf, Content, IsDir;
    var t, t' := TreeOf(v, bs, live), TreeOf(v', bs, live - {x});
    var s, s' := TreeOf(v, bs, live - {x} - {d}), TreeOf(v', bs, live - {x} - {d});
    forall a ensures a != d && a != x ==> (a in t <==> a in t') && (a in t ==> t[a] == t'[a]) {
      if a != d && a != x {
        assert (a in t <==> a in s) && (a in t' <==> a in s');
        assert a in s ==> s[a] == t[a] && s'[a] == t'[a];
      }
    }
  }

  lemma {:induction false} NameHome(v: View, geo: Geometry, c: Catalog, d: nat, e: Entry)
    requires Ok(v, geo, c) && LiveDir(v, c.Live(), d) && e in ListingOf(v.data, v.table[d], geo.blockSize) && !Dots(e.name)
    ensures e.ino in c.home && e.ino != ROOT && Holds(v, geo.blockSize, c.owner, e.ino)
  {
    var t := TreeOf(v, geo.blockSize, c.Live());
    assert d in t && e in t[d];
    assert DirNamesOk(t, c.home, ROOT, d) && EntryOk(c.home, ROOT, d, e);
    LiveUsed(v, geo, c, e.ino);
  }

  function AfterUnlink(c: Catalog, d: nat, inode: Inode, bs: nat, e: Entry, edit: Edit): Catalog
    requires bs > 0
  {
    Catalog(EditOwner(c.owner, d, inode, bs, edit), c.home - {e.ino as nat})
  }

  /** Every entry of x, if it is a directory, is "." or "..". */
  ghost predicate Bare(v: View, bs: nat, x: nat)
    requires bs > 0
  {
    x in v.table && (IsDir(v.table[x]) ==> forall f :: f in ListingOf(v.data, v.table[x], bs) ==> Dots(f.name))
  }

  /** The whole of unlink, in the order the driver does it: x gives up its blocks and
      itself, and then its name leaves directory d. */
  ghost predicate Unlinks(v: View, vm: View, v': View, geo: Geometry, d: nat, e: Entry, edit: Edit)
    requires geo.blockSize > 0
  {
    && Bare(v, geo.blockSize, e.ino)
    && Vacates(v, vm, geo, e.ino as nat) && Leaves(vm, v', geo, d, e.name, edit)
  }

  lemma {:induction false} UnlinkNames(v: View, v': View, bs: nat, c: Catalog, d: nat, e: Entry)
    requires bs > 0 && NamesOk(TreeOf(v, bs, c.Live()), c.home, ROOT) && LiveDir(v, c.Live(), d)
    requires e in ListingOf(v.data, v.table[d], bs) && !Dots(e.name) && Bare(v, bs, e.ino) && d in v'.table
    requires TreeOf(v', bs, c.Live() - {e.ino as nat})
          == TreeOf(v, bs, c.Live())[d := Content(ListingOf(v'.data, v'.table[d], bs))] - {e.ino as nat}
    requires Content(ListingOf(v'.data, v'.table[d], bs)) == Content(ListingOf(v.data, v.table[d], bs)) - {e}
    ensures NamesOk(TreeOf(v', bs, c.Live() - {e.ino as nat}), c.home - {e.ino as nat}, ROOT)
    ensures d in TreeOf(v, bs, c.Live())
    ensures TreeOf(v', bs, c.Live() - {e.ino as nat}) == TreeLess(TreeOf(v, bs, c.Live()), d, e)
  {
    var t := TreeOf(v, bs, c.Live());
    assert d in t && t[d] == Content(ListingOf(v.data, v.table[d], bs));
    assert e.ino as nat in t ==> forall f: Entry :: f in t[e.ino as nat] ==> Dots(f.name);
    hide NamesOk, ListingOf, Listing, Dots, IsDir;
    ForgetNode(t, TreeOf(v', bs, c.Live() - {e.ino as nat}), c.home, ROOT, d, e);
  }

  lemma {:induction false} NotItself(v: View, geo: Geometry, c: Catalog, d: nat, e: Entry)
    requires Ok(v, geo, c) && LiveDir(v, c.Live(), d) && e in ListingOf(v.data, v.table[d], geo.blockSize) && !Dots(e.name)
    requires Bare(v, geo.blockSize, e.ino)
    ensures e.ino != d
  {
  }

  lemma {:induction false} LiveWithout(c: Catalog, o: Owners, x: nat)
    requires x != ROOT
    ensures Catalog(o, c.home - {x}).Live() == c.Live() - {x}
  {
  }

  lemma {:induction false} KeptDir(v: View, vm: View, bs: nat, o: Owners, live: set<nat>, d: nat, x: nat)
    requires bs > 0 && LiveDir(v, live, d) && d != x && Holds(v, bs, o, d) && Outside(v, vm, o, o, {x})
    ensures LiveDir(vm, live - {x}, d) && vm.table[d] == v.table[d]
    ensures ListingOf(vm.data, vm.table[d], bs) == ListingOf(v.data, v.table[d], bs)
  {
    hide Outside, ListingOf, IsDir, DirOk;
    FrameHolds(v, vm, bs, o, o, {x}, d);
    HoldsKnown(vm, bs, o, d);
  }

  /** unlink keeps the volume clean. */
  lemma {:induction false} UnlinkKeeps(v: View, vm: View, v': View, geo: Geometry, c: Catalog, d: nat, e: Entry, edit: Edit)
    requires Ok(v, geo, c) && LiveDir(v, c.Live(), d) && e in ListingOf(v.data, v.table[d], geo.blockSize) && !Dots(e.name)
    requires Unlinks(v, vm, v', geo, d, e, edit)
    ensures Ok(v', geo, AfterUnlink(c, d, v.table[d], geo.blockSize, e, edit))
    ensures d in TreeOf(v, geo.blockSize, c.Live())
    ensures TreeOf(v', geo.blockSize, AfterUnlink(c, d, v.table[d], geo.blockSize, e, edit).Live())
         == TreeLess(TreeOf(v, geo.blockSize, c.Live()), d, e)
  {
    var bs, x, o, live := geo.blockSize, e.ino as nat, c.owner, c.Live();
    assert d in v.table && d in live && e.name != DOT && x in v.table;
    assert Bare(v, bs, x) && Vacates(v, vm, geo, x) && Leaves(vm, v', geo, d, e.name, edit);
    var es := ListingOf(v.data, v.table[d], bs);
    var o' := EditOwner(o, d, v.table[d], bs, edit);
    var c' := Catalog(o', c.home - {x});
    assert AfterUnlink(c, d, v.table[d], bs, e, edit) == c';
    LiveUsed(v, geo, c, d);
    NameHome(v, geo, c, d, e);
    assert Owns(v, bs, o, x);
    hide *;
    OkParts(v, geo, c);
    NotItself(v, geo, c, d, e);
    VacateOutside(v, vm, geo, o, x);
    VacateSane(v, vm, geo, o, x);
    Frame(v, vm, bs, o, o, {x}, live);
    KeptDir(v, vm, bs, o, live, d, x);
    var p := LeaveEdits(vm, v', geo, o, live - {x}, d, e.name, edit);
    RemovedBounds(es, ListingOf(v'.data, v'.table[d], bs), p);
    UniqueEntry(es, p, e);
    LeaveSane(vm, v', geo, d, e.name, edit);
    TreeAway(v, vm, bs, live, x, d);
    TreeWithout(v, v', bs, live, d, x);
    UnlinkNames(v, v', bs, c, d, e);
    LiveWithout(c, o', x);
    OkFrom(v', geo, c');
  }

  /** Agreeing on a tree is agreeing on its parts. */
  lemma {:induction false} TreeAway(v: View, vm: View, bs: nat, live: set<nat>, x: nat, d: nat)
    requires bs > 0 && TreeOf(vm, bs, live - {x}) == TreeOf(v, bs, live - {x})
    ensures TreeOf(vm, bs, live - {x} - {d}) == TreeOf(v, bs, live - {x} - {d})
  {
    hide ListingOf, Content, IsDir;
    var s, s' := TreeOf(v, bs, live - {x}), TreeOf(vm, bs, live - {x});
    var t, t' := TreeOf(v, bs, live - {x} - {d}), TreeOf(vm, bs, live - {x} - {d});
    forall a ensures (a in t <==> a in t') && (a in t ==> t[a] == t'[a]) {
      assert a != d ==> (a in t <==> a in s) && (a in t' <==> a in s');
      assert a in t ==> s[a] == t[a] && s'[a] == t'[a];
    }
  }
}
