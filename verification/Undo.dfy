/** creat or mkdir of a fresh name, then unlink of it: nothing is left behind. */
module Undo {
  import opened Bytes
  import opened Numbering
  import opened Layout
  import opened Inodes
  import opened State
  import opened Dirents
  import opened DirBlocks
  import opened Listings
  import opened Names
  import opened Effects
  import opened Fsck
  import opened FsckDirs
  import opened FsckMake

  /** A name that is not in the listing is in none of the blocks. */
  lemma {:induction false} UnnamedParts(ds: seq<seq<Entry>>, n: nat, name: Name, k: nat)
    requires k < n <= |ds| && Unnamed(Flat(ds, n), name)
    ensures Unnamed(ds[k], name)
  {
    var front, last := Flat(ds, n - 1), ds[n - 1];
    assert Flat(ds, n) == front + last;
    if k < n - 1 {
      forall j | 0 <= j < |front| ensures front[j].name != name {
        assert (front + last)[j] == front[j];
      }
      UnnamedParts(ds, n - 1, name, k);
    } else {
      forall j | 0 <= j < |last| ensures last[j].name != name {
        assert (front + last)[|front| + j] == last[j];
      }
    }
  }

  /** Which block holds the new entry after the edit. */
  ghost function Target(inode: Inode, bs: nat, edit: Edit): nat
    requires bs > 0
  {
    if edit.Rewrite? then edit.k else NBlocks(inode, bs)
  }

  /** After the insertion only one block holds the name; it holds other entries too exactly
      if the block was there before. */
  lemma {:induction false} NameInOneBlock(data: Data, free: set<nat>, inode: Inode, bs: nat, e: Entry, edit: Edit, i: nat)
    requires bs > 0 && EntersBy(data, free, inode, bs, e, edit) && NoRepeats(inode, bs)
    requires Unnamed(ListingOf(data, inode, bs), e.name)
    requires edit.Extend? ==> forall j :: 0 <= j < NBlocks(inode, bs) ==> inode.direct[j] != edit.b
    requires i < NBlocks(EditInode(inode, bs, edit), bs)
    ensures var inode', data' := EditInode(inode, bs, edit), EditData(data, inode, edit);
            && i < |inode'.direct|
            && (i != Target(inode, bs, edit) ==> Unnamed(PartAt(data', inode'.direct[i]), e.name))
            && (i == Target(inode, bs, edit) ==> (|PartAt(data', inode'.direct[i])| == 1 <==> edit.Extend?))
  {
    var inode', data' := EditInode(inode, bs, edit), EditData(data, inode, edit);
    var ds := Parts(data, inode, bs);
    var n := NBlocks(inode, bs);
    if edit.Extend? {
      GrowSpan(inode, bs, n, edit.b);
    }
    if i < n {
      assert BlockTiled(data, inode.direct[i], bs);
      assert ds[i] == PartAt(data, inode.direct[i]);
      UnnamedParts(ds, |ds|, e.name, i);
    }
    if edit.Rewrite? && i == edit.k {
      var s := edit.s;
      assert PartAt(data', inode'.direct[i]) == Entries(s, 0, |s|);
      var j: nat :| InsertedAt(Entries(data[inode.direct[i] as nat], 0, bs), Entries(s, 0, |s|), j, e);
      assert |Entries(s, 0, |s|)| == |Entries(data[inode.direct[i] as nat], 0, bs)| + 1;
    }
  }

  /** The block the driver takes the name out of is the one it was put in. */
  lemma {:induction false} EditsMatch(data: Data, free: set<nat>, inode: Inode, bs: nat, e: Entry, edit: Edit, data1: Data, edit2: Edit)
    requires bs > 0 && EntersBy(data, free, inode, bs, e, edit) && NoRepeats(inode, bs)
    requires Unnamed(ListingOf(data, inode, bs), e.name)
    requires edit.Extend? ==> forall j :: 0 <= j < NBlocks(inode, bs) ==> inode.direct[j] != edit.b
    requires var inode1 := EditInode(inode, bs, edit); var data' := EditData(data, inode, edit);
             && LeavesBy(data1, inode1, bs, e.name, edit2)
             && forall i :: 0 <= i < Span(inode1, bs) ==> PartAt(data1, inode1.direct[i]) == PartAt(data', inode1.direct[i])
    ensures edit.Rewrite? ==> edit2.Rewrite?
    ensures edit.Extend? ==> edit2 == Drop(NBlocks(inode, bs)) && EditInode(inode, bs, edit).direct[NBlocks(inode, bs)] == edit.b
  {
    var inode1 := EditInode(inode, bs, edit);
    var k := edit2.k;
    assert k < NBlocks(inode1, bs) && k < Span(inode1, bs);
    NameInOneBlock(data, free, inode, bs, e, edit, k);
    var part := PartAt(data1, inode1.direct[k]);
    if edit2.Rewrite? {
      assert BlockTiled(data1, inode1.direct[k], bs);
      var j: nat :| RemovedAt(part, Entries(edit2.s, 0, |edit2.s|), j, e.name);
      assert part[j].name == e.name && |part| > 1;
    } else {
      assert part[0].name == e.name && |part| == 1;
    }
  }

  /** Directory d after the name came and went. */
  lemma {:induction false} DirRestored(v: View, v1: View, vm: View, v2: View, geo: Geometry, o: Owners, d: nat, free: set<nat>, e: Entry, edit: Edit, edit2: Edit)
    requires geo.blockSize > 0 && Holds(v, geo.blockSize, o, d) && IsDir(v.table[d]) && e.name != DOT
    requires EntersBy(v.data, free, v.table[d], geo.blockSize, e, edit) && free <= v.blocks.free
    requires Unnamed(ListingOf(v.data, v.table[d], geo.blockSize), e.name) && Edited(v, v1, d, geo.blockSize, edit)
    requires d in vm.table && vm.table[d] == v1.table[d] && vm.data == v1.data && d !in vm.inodes.free
    requires Holds(vm, geo.blockSize, EditOwner(o, d, v.table[d], geo.blockSize, edit), d)
    requires Leaves(vm, v2, geo, d, e.name, edit2)
    ensures ListingOf(v2.data, v2.table[d], geo.blockSize) == ListingOf(v.data, v.table[d], geo.blockSize)
  {
    var bs := geo.blockSize;
    LeaveEdited(vm, v2, geo, d, e.name, edit2);
    LeavesMeans(vm, v2, geo, d, e.name, edit2);
    HoldsListing(v, bs, o, d);
    hide *;
    var p := EnterHolds(v, v1, d, bs, o, free, e, edit);
    var q := LeaveHolds(vm, v2, d, bs, EditOwner(o, d, v.table[d], bs, edit), e.name, edit2);
    RemovedBounds(ListingOf(v1.data, v1.table[d], bs), ListingOf(v2.data, v2.table[d], bs), q);
    RemoveUndoesInsert(ListingOf(v.data, v.table[d], bs), ListingOf(v1.data, v1.table[d], bs),
                       ListingOf(v2.data, v2.table[d], bs), p, q, e);
  }

  lemma {:induction false} LeavesMeans(v: View, v': View, geo: Geometry, d: nat, name: Name, edit: Edit)
    requires geo.blockSize > 0 && Leaves(v, v', geo, d, name, edit)
    ensures d in v.table && LeavesBy(v.data, v.table[d], geo.blockSize, name, edit)
    ensures d in v'.table && v'.table[d] == EditInode(v.table[d], geo.blockSize, edit)
  {
  }

  lemma {:induction false} HoldsListing(v: View, bs: nat, o: Owners, d: nat)
    requires bs > 0 && Holds(v, bs, o, d) && IsDir(v.table[d])
    ensures Unique(ListingOf(v.data, v.table[d], bs)) && Owns(v, bs, o, d)
  {
  }

  /** The block taken for the name, if any, is the block given back. */
  lemma {:induction false} BlocksRestored(v: View, v1: View, vm: View, bs: nat, o: Owners, d: nat, free: set<nat>, e: Entry, edit: Edit, edit2: Edit)
    requires bs > 0 && Owns(v, bs, o, d)
    requires EntersBy(v.data, free, v.table[d], bs, e, edit) && free <= v.blocks.free
    requires Unnamed(ListingOf(v.data, v.table[d], bs), e.name) && Edited(v, v1, d, bs, edit)
    requires d in vm.table && vm.table[d] == v1.table[d] && vm.data == v1.data
    requires LeavesBy(vm.data, vm.table[d], bs, e.name, edit2)
    ensures EditFree(EditFree(free, v.table[d], edit), vm.table[d], edit2) == free
    ensures var inode2 := EditInode(vm.table[d], bs, edit2);
            NBlocks(inode2, bs) == NBlocks(v.table[d], bs) && inode2.size == v.table[d].size
  {
    hide LeavesBy, EntersBy, ListingOf, NBlocks, Owns, NoRepeats, Tiled, Entries, Unnamed;
    EntersOk(v, d, bs, free, e, edit);
    OwnsNoRepeats(v, bs, o, d);
    EditedData(v, v1, d, bs, o, free, edit);
    if edit.Extend? {
      TakenBlock(v, v1, d, bs, o, free, e, edit);
    }
    EditsMatch(v.data, free, v.table[d], bs, e, edit, vm.data, edit2);
    assert edit.Extend? ==> free - {edit.b as nat} + {edit.b as nat} == free;
  }

  /** The block taken for a name was nobody's, and giving it back restores the size. */
  lemma {:induction false} TakenBlock(v: View, v1: View, d: nat, bs: nat, o: Owners, free: set<nat>, e: Entry, edit: Edit)
    requires bs > 0 && Owns(v, bs, o, d) && free <= v.blocks.free && edit.Extend?
    requires EntersBy(v.data, free, v.table[d], bs, e, edit) && Edited(v, v1, d, bs, edit)
    ensures forall i :: 0 <= i < NBlocks(v.table[d], bs) ==> v.table[d].direct[i] != edit.b
    ensures edit.b as nat in free
    ensures d in v1.table && NBlocks(v.table[d], bs) < |v1.table[d].direct|
    ensures var inode2 := EditInode(v1.table[d], bs, Drop(NBlocks(v.table[d], bs)));
            NBlocks(inode2, bs) == NBlocks(v.table[d], bs) && inode2.size == v.table[d].size
  {
    var inode, inode1 := v.table[d], v1.table[d];
    EntersOk(v, d, bs, free, e, edit);
    forall i | 0 <= i < NBlocks(inode, bs) ensures inode.direct[i] != edit.b {
      assert OwnedAt(v, o, inode.direct[i], d, i);
    }
    GrowSpan(inode, bs, NBlocks(inode, bs), edit.b);
    ShrinkSpan(inode1, bs, NBlocks(inode, bs) + 1, NBlocks(inode, bs));
  }

  lemma {:induction false} VacateKeepsDir(v1: View, vm: View, geo: Geometry, c1: Catalog, d: nat, x: nat)
    requires Ok(v1, geo, c1) && LiveDir(v1, c1.Live(), d) && x in c1.Live() && d != x && Vacates(v1, vm, geo, x)
    ensures d in vm.table && vm.table[d] == v1.table[d] && vm.data == v1.data && d !in vm.inodes.free
    ensures Holds(vm, geo.blockSize, c1.owner, d)
  {
    hide *;
    OkParts(v1, geo, c1);
    DirThere(v1, c1, d);
    LiveUsed(v1, geo, c1, d);
    LiveUsed(v1, geo, c1, x);
    HoldsOwned(v1, geo.blockSize, c1.owner, x);
    VacateOutside(v1, vm, geo, c1.owner, x);
    FrameHolds(v1, vm, geo.blockSize, c1.owner, c1.owner, {x}, d);
    HoldsKnown(vm, geo.blockSize, c1.owner, d);
    VacateData(v1, vm, geo, x);
  }

  lemma {:induction false} DirThere(v: View, c: Catalog, d: nat)
    requires LiveDir(v, c.Live(), d)
    ensures d in v.table && d in c.Live() && IsDir(v.table[d])
  {
  }

  lemma {:induction false} VacateData(v1: View, vm: View, geo: Geometry, x: nat)
    requires geo.blockSize > 0 && Vacates(v1, vm, geo, x)
    ensures vm.data == v1.data
  {
  }

  /** Everything the user can see of v is as it was in v2: bitmaps and counters, the listing
      and size of directory d, every other inode, and the contents of every block in use
      outside d. */
  ghost predicate Restored(v: View, v2: View, geo: Geometry, live: set<nat>, d: nat)
    requires geo.blockSize > 0
  {
    && v2.blocks == v.blocks && v2.inodes == v.inodes
    && d in v.table && d in v2.table
    && ListingOf(v2.data, v2.table[d], geo.blockSize) == ListingOf(v.data, v.table[d], geo.blockSize)
    && v2.table[d].size == v.table[d].size && NBlocks(v2.table[d], geo.blockSize) == NBlocks(v.table[d], geo.blockSize)
    && forall i :: i in live && i != d ==> SameInode(v, v2, geo.blockSize, i)
  }

  /** Inode i and the contents of its blocks are the same. */
  ghost predicate SameInode(v: View, v': View, bs: nat, i: nat)
    requires bs > 0
  {
    && i in v.table && i in v'.table && v'.table[i] == v.table[i]
    && forall k :: 0 <= k < Span(v.table[i], bs) ==> SameBlock(v, v', v.table[i].direct[k])
  }

  ghost predicate SameBlock(v: View, v': View, b: nat) {
    b in v.data && b in v'.data && v'.data[b] == v.data[b]
  }

  lemma {:induction false} SameOutside(v: View, v': View, bs: nat, o: Owners, o': Owners, touched: set<nat>, i: nat)
    requires bs > 0 && Holds(v, bs, o, i) && i !in touched && Outside(v, v', o, o', touched)
    ensures SameInode(v, v', bs, i)
  {
    assert InodeKept(v, v', i);
    forall k | 0 <= k < Span(v.table[i], bs) ensures SameBlock(v, v', v.table[i].direct[k]) {
      assert OwnedAt(v, o, v.table[i].direct[k], i, k);
      assert BlockKept(v, v', o, o', touched, v.table[i].direct[k]);
    }
  }

  lemma {:induction false} SameThrice(v: View, v1: View, vm: View, v2: View, bs: nat, i: nat)
    requires bs > 0 && SameInode(v, v1, bs, i) && SameInode(v1, vm, bs, i) && SameInode(vm, v2, bs, i)
    ensures SameInode(v, v2, bs, i)
  {
    forall k | 0 <= k < Span(v.table[i], bs) ensures SameBlock(v, v2, v.table[i].direct[k]) {
      assert SameBlock(v, v1, v.table[i].direct[k]) && SameBlock(v1, vm, v.table[i].direct[k]) && SameBlock(vm, v2, v.table[i].direct[k]);
    }
  }

  /** An inode that neither the directory nor the new one is. */
  lemma {:induction false} OthersSame(v: View, v1: View, vm: View, v2: View, geo: Geometry, c: Catalog, o: Owners, c1: Catalog, d: nat, e: Entry, edit: Edit, edit2: Edit, i: nat)
    requires geo.blockSize > 0 && Ok(v1, geo, c1) && i in c1.Live() && i != d && i != e.ino && e.ino in c1.Live() && LiveDir(v1, c1.Live(), d) && d != e.ino
    requires Holds(v, geo.blockSize, o, i) && Outside(v, v1, o, c1.owner, {d, e.ino as nat})
    requires Vacates(v1, vm, geo, e.ino as nat) && Leaves(vm, v2, geo, d, e.name, edit2)
    ensures SameInode(v, v2, geo.blockSize, i)
  {
    hide *;
    var bs, x := geo.blockSize, e.ino as nat;
    OkParts(v1, geo, c1);
    LiveUsed(v1, geo, c1, i);
    LiveUsed(v1, geo, c1, x);
    HoldsOwned(v1, bs, c1.owner, x);
    SameOutside(v, v1, bs, o, c1.owner, {d, x}, i);
    VacateOutside(v1, vm, geo, c1.owner, x);
    SameOutside(v1, vm, bs, c1.owner, c1.owner, {x}, i);
    FrameHolds(v1, vm, bs, c1.owner, c1.owner, {x}, i);
    VacateKeepsDir(v1, vm, geo, c1, d, x);
    LeaveEdited(vm, v2, geo, d, e.name, edit2);
    HoldsOwned(vm, bs, c1.owner, d);
    EditOutside(vm, v2, d, d, bs, c1.owner, edit2);
    SameOutside(vm, v2, bs, c1.owner, EditOwner(c1.owner, d, vm.table[d], bs, edit2), {d, d}, i);
    SameThrice(v, v1, vm, v2, bs, i);
  }

  lemma {:induction false} HoldsOwned(v: View, bs: nat, o: Owners, i: nat)
    requires bs > 0 && Holds(v, bs, o, i)
    ensures Owns(v, bs, o, i)
  {
  }

  /** The parts of both undo theorems that concern the directory. */
  lemma {:induction false} DirUndone(v: View, v1: View, vm: View, v2: View, geo: Geometry, o: Owners, c1: Catalog, d: nat, free: set<nat>, e: Entry, edit: Edit, edit2: Edit)
    requires Ok(v1, geo, c1) && LiveDir(v1, c1.Live(), d) && e.ino in c1.Live() && d != e.ino && e.name != DOT
    requires Holds(v, geo.blockSize, o, d) && IsDir(v.table[d]) && c1.owner == EditOwner(o, d, v.table[d], geo.blockSize, edit)
    requires EntersBy(v.data, free, v.table[d], geo.blockSize, e, edit) && free <= v.blocks.free
    requires Unnamed(ListingOf(v.data, v.table[d], geo.blockSize), e.name) && Edited(v, v1, d, geo.blockSize, edit)
    requires Vacates(v1, vm, geo, e.ino as nat) && Leaves(vm, v2, geo, d, e.name, edit2)
    ensures d in v2.table && d in vm.table
    ensures ListingOf(v2.data, v2.table[d], geo.blockSize) == ListingOf(v.data, v.table[d], geo.blockSize)
    ensures v2.table[d].size == v.table[d].size && NBlocks(v2.table[d], geo.blockSize) == NBlocks(v.table[d], geo.blockSize)
    ensures EditFree(EditFree(free, v.table[d], edit), vm.table[d], edit2) == free
    ensures vm.table[d] == v1.table[d]
  {
    hide *;
    OkParts(v1, geo, c1);
    VacateKeepsDir(v1, vm, geo, c1, d, e.ino as nat);
    LeavesMeans(vm, v2, geo, d, e.name, edit2);
    HoldsListing(v, geo.blockSize, o, d);
    BlocksRestored(v, v1, vm, geo.blockSize, o, d, free, e, edit, edit2);
    DirRestored(v, v1, vm, v2, geo, o, d, free, e, edit, edit2);
  }

  /** Bitmaps and counters, from the free numbers. */
  lemma {:induction false} NumbersRestored(v: View, v1: View, vm: View, v2: View, geo: Geometry, b1: set<nat>, i1: set<nat>, bm: set<nat>, im: set<nat>)
    requires Sane(v, geo)
    requires Moved(v.blocks, v1.blocks, geo.groupBlocks, b1) && Moved(v.inodes, v1.inodes, geo.groupInodes, i1)
    requires Moved(v1.blocks, vm.blocks, geo.groupBlocks, bm) && Moved(v1.inodes, vm.inodes, geo.groupInodes, im)
    requires Moved(vm.blocks, v2.blocks, geo.groupBlocks, v.blocks.free) && Moved(vm.inodes, v2.inodes, geo.groupInodes, v.inodes.free)
    ensures v2.blocks == v.blocks && v2.inodes == v.inodes
  {
    MovedTwice(v.blocks, v1.blocks, vm.blocks, geo.groupBlocks, b1, bm);
    MovedTwice(v.blocks, vm.blocks, v2.blocks, geo.groupBlocks, bm, v.blocks.free);
    MovedTwice(v.inodes, v1.inodes, vm.inodes, geo.groupInodes, i1, im);
    MovedTwice(v.inodes, vm.inodes, v2.inodes, geo.groupInodes, im, v.inodes.free);
    FreeDetermines(v.blocks, v2.blocks, geo.groupBlocks);
    FreeDetermines(v.inodes, v2.inodes, geo.groupInodes);
  }

  lemma {:induction false} EmptySet(inode: Inode, bs: nat)
    requires bs > 0 && inode.size == 0
    ensures BlockSet(inode, bs) == {}
  {
    SpanZero(inode, bs);
  }

  /** creat of a fresh name and unlink of it restore bitmaps, counters, the directory's size
      and names, and everything else. */
  lemma {:induction false} UnlinkUndoesCreate(v: View, v1: View, vm: View, v2: View, geo: Geometry, c: Catalog, d: nat, e: Entry, node: Inode, edit: Edit, edit2: Edit)
    requires Ok(v, geo, c) && LiveDir(v, c.Live(), d) && Unnamed(ListingOf(v.data, v.table[d], geo.blockSize), e.name)
    requires Creates(v, v1, geo, d, e, node, edit) && Unlinks(v1, vm, v2, geo, d, e, edit2)
    ensures Restored(v, v2, geo, c.Live(), d)
  {
    hide *;
    var bs, x := geo.blockSize, e.ino as nat;
    OkParts(v, geo, c);
    DirThere(v, c, d);
    var c1 := AfterCreate(c, d, v.table[d], bs, e, edit);
    CreateKeeps(v, v1, geo, c, d, e, node, edit);
    CreateParts(v, v1, geo, c, d, e, node, edit);
    UnlinkParts(v1, vm, v2, geo, d, e, edit2);
    NotDots(v, geo, c, d, e.name);
    DotsMeans(e.name);
    DirUndone(v, v1, vm, v2, geo, c.owner, c1, d, v.blocks.free, e, edit, edit2);
    CreateNumbers(v, v1, vm, v2, geo, d, e, node, edit, edit2);
    forall i | i in c.Live() && i != d ensures SameInode(v, v2, bs, i) {
      LiveUsed(v, geo, c, i);
      OthersSame(v, v1, vm, v2, geo, c, c.owner, c1, d, e, edit, edit2, i);
    }
    RestoredFrom(v, v2, geo, c.Live(), d);
  }

  lemma {:induction false} RestoredFrom(v: View, v2: View, geo: Geometry, live: set<nat>, d: nat)
    requires geo.blockSize > 0 && v2.blocks == v.blocks && v2.inodes == v.inodes && d in v.table && d in v2.table
    requires ListingOf(v2.data, v2.table[d], geo.blockSize) == ListingOf(v.data, v.table[d], geo.blockSize)
    requires v2.table[d].size == v.table[d].size && NBlocks(v2.table[d], geo.blockSize) == NBlocks(v.table[d], geo.blockSize)
    requires forall i :: i in live && i != d ==> SameInode(v, v2, geo.blockSize, i)
    ensures Restored(v, v2, geo, live, d)
  {
  }

  lemma {:induction false} DotsMeans(name: Name)
    requires !Dots(name)
    ensures name != DOT
  {
  }

  lemma {:induction false} UnlinkParts(v1: View, vm: View, v2: View, geo: Geometry, d: nat, e: Entry, edit: Edit)
    requires geo.blockSize > 0 && Unlinks(v1, vm, v2, geo, d, e, edit)
    ensures Vacates(v1, vm, geo, e.ino as nat) && Leaves(vm, v2, geo, d, e.name, edit)
  {
  }

  /** What creat tells about the directory, the catalog and the rest. */
  lemma {:induction false} CreateParts(v: View, v1: View, geo: Geometry, c: Catalog, d: nat, e: Entry, node: Inode, edit: Edit)
    requires Ok(v, geo, c) && LiveDir(v, c.Live(), d) && Creates(v, v1, geo, d, e, node, edit)
    ensures d in v.table && d != e.ino && EntersBy(v.data, v.blocks.free, v.table[d], geo.blockSize, e, edit)
    ensures Holds(v, geo.blockSize, c.owner, d) && Edited(v, v1, d, geo.blockSize, edit)
    ensures e.ino !in c.Live()
    ensures var c1 := AfterCreate(c, d, v.table[d], geo.blockSize, e, edit);
            && c1.owner == EditOwner(c.owner, d, v.table[d], geo.blockSize, edit)
            && LiveDir(v1, c1.Live(), d) && e.ino in c1.Live() && (forall i :: i in c.Live() ==> i in c1.Live())
            && Outside(v, v1, c.owner, c1.owner, {d, e.ino as nat})
  {
    hide *;
    OkParts(v, geo, c);
    DirThere(v, c, d);
    LiveUsed(v, geo, c, d);
    CreateMeans(v, v1, geo, d, e, node, edit);
    FreeNotLive(v, geo, c, e.ino);
    CreateEdited(v, v1, geo, d, e, node, edit);
    EntersOk(v, d, geo.blockSize, v.blocks.free, e, edit);
    HoldsOwned(v, geo.blockSize, c.owner, d);
    EditOutside(v, v1, d, e.ino as nat, geo.blockSize, c.owner, edit);
    AfterMeans(v, v1, c, d, geo.blockSize, e, edit);
  }

  lemma {:induction false} CreateMeans(v: View, v1: View, geo: Geometry, d: nat, e: Entry, node: Inode, edit: Edit)
    requires geo.blockSize > 0 && Creates(v, v1, geo, d, e, node, edit)
    ensures e.ino in v.inodes.free && d != e.ino && d in v.table
    ensures EntersBy(v.data, v.blocks.free, v.table[d], geo.blockSize, e, edit)
  {
  }

  lemma {:induction false} AfterMeans(v: View, v1: View, c: Catalog, d: nat, bs: nat, e: Entry, edit: Edit)
    requires bs > 0 && LiveDir(v, c.Live(), d) && Edited(v, v1, d, bs, edit)
    ensures var c1 := AfterCreate(c, d, v.table[d], bs, e, edit);
            && c1.owner == EditOwner(c.owner, d, v.table[d], bs, edit)
            && LiveDir(v1, c1.Live(), d) && e.ino in c1.Live() && (forall i :: i in c.Live() ==> i in c1.Live())
  {
  }

  // The numbers each operation moves.

  lemma {:induction false} CreateMoves(v: View, v': View, geo: Geometry, d: nat, e: Entry, node: Inode, edit: Edit)
    requires geo.blockSize > 0 && Creates(v, v', geo, d, e, node, edit)
    ensures d in v.table && e.ino as nat in v.inodes.free && e.ino as nat in v'.table && v'.table[e.ino as nat] == node && node.size == 0
    ensures Moved(v.blocks, v'.blocks, geo.groupBlocks, EditFree(v.blocks.free, v.table[d], edit))
    ensures Moved(v.inodes, v'.inodes, geo.groupInodes, v.inodes.free - {e.ino as nat})
  {
    hide EntersBy, EditInode, EditData, EditFree, InodeOk, IsReg, Moved;
  }

  lemma {:induction false} MakeMoves(v: View, v': View, geo: Geometry, d: nat, e: Entry, node: Inode, nb: u32, s: seq<byte>, edit: Edit)
    requires geo.blockSize > 0 && Makes(v, v', geo, d, e, node, nb, s, edit)
    ensures d in v.table && e.ino as nat in v.inodes.free && nb as nat in v.blocks.free
    ensures e.ino as nat in v'.table && v'.table[e.ino as nat] == node && node.size == geo.blockSize && |node.direct| > 0 && node.direct[0] == nb
    ensures Moved(v.blocks, v'.blocks, geo.groupBlocks, EditFree(v.blocks.free - {nb as nat}, v.table[d], edit))
    ensures Moved(v.inodes, v'.inodes, geo.groupInodes, v.inodes.free - {e.ino as nat})
  {
    hide EntersBy, EditInode, EditData, EditFree, IsDir, Tiled, Entries, Moved;
  }

  lemma {:induction false} VacateMoves(v: View, v': View, geo: Geometry, x: nat)
    requires geo.blockSize > 0 && Vacates(v, v', geo, x)
    ensures x in v.table
    ensures Moved(v.blocks, v'.blocks, geo.groupBlocks, v.blocks.free + BlockSet(v.table[x], geo.blockSize))
    ensures Moved(v.inodes, v'.inodes, geo.groupInodes, v.inodes.free + {x})
  {
    hide Emptied, BlockSet, Moved;
  }

  lemma {:induction false} LeaveMoves(v: View, v': View, geo: Geometry, d: nat, name: Name, edit: Edit)
    requires geo.blockSize > 0 && Leaves(v, v', geo, d, name, edit)
    ensures d in v.table
    ensures Moved(v.blocks, v'.blocks, geo.groupBlocks, EditFree(v.blocks.free, v.table[d], edit))
    ensures Moved(v.inodes, v'.inodes, geo.groupInodes, v.inodes.free)
  {
    hide LeavesBy, EditInode, EditData, EditFree, Moved;
  }

  lemma {:induction false} MovedTo(a: Alloc, b: Alloc, per: nat, free: set<nat>)
    requires Moved(a, b, per, free)
    ensures b.free == free
  {
    hide Alloc.Ok;
  }

  lemma {:induction false} SizePositive(v: View, geo: Geometry)
    requires Sane(v, geo)
    ensures geo.blockSize > 0
  {
    hide DataFits, TableFits, Alloc.Ok;
  }

  lemma {:induction false} CreateNumbers(v: View, v1: View, vm: View, v2: View, geo: Geometry, d: nat, e: Entry, node: Inode, edit: Edit, edit2: Edit)
    requires Sane(v, geo) && Creates(v, v1, geo, d, e, node, edit)
    requires Vacates(v1, vm, geo, e.ino as nat) && Leaves(vm, v2, geo, d, e.name, edit2)
    requires d in vm.table && EditFree(EditFree(v.blocks.free, v.table[d], edit), vm.table[d], edit2) == v.blocks.free
    ensures v2.blocks == v.blocks && v2.inodes == v.inodes
  {
    hide *;
    SizePositive(v, geo);
    CreateMoves(v, v1, geo, d, e, node, edit);
    VacateMoves(v1, vm, geo, e.ino as nat);
    LeaveMoves(vm, v2, geo, d, e.name, edit2);
    var b1, i1 := EditFree(v.blocks.free, v.table[d], edit), v.inodes.free - {e.ino as nat};
    var im := i1 + {e.ino as nat};
    MovedTo(v.blocks, v1.blocks, geo.groupBlocks, b1);
    MovedTo(v.inodes, v1.inodes, geo.groupInodes, i1);
    EmptySet(node, geo.blockSize);
    assert b1 + {} == b1;
    MovedTo(v1.blocks, vm.blocks, geo.groupBlocks, b1);
    MovedTo(v1.inodes, vm.inodes, geo.groupInodes, im);
    assert im == v.inodes.free;
    NumbersRestored(v, v1, vm, v2, geo, b1, i1, b1, im);
  }

  // ---- mkdir -----------------------------------------------------------------------------

  /** mkdir of a fresh name and unlink of it likewise. */
  lemma {:induction false} UnlinkUndoesMake(v: View, v1: View, vm: View, v2: View, geo: Geometry, c: Catalog, d: nat, e: Entry, node: Inode, nb: u32, s: seq<byte>, edit: Edit, edit2: Edit)
    requires Ok(v, geo, c) && LiveDir(v, c.Live(), d) && Unnamed(ListingOf(v.data, v.table[d], geo.blockSize), e.name)
    requires Makes(v, v1, geo, d, e, node, nb, s, edit) && Unlinks(v1, vm, v2, geo, d, e, edit2)
    ensures Restored(v, v2, geo, c.Live(), d)
  {
    hide *;
    var bs, x := geo.blockSize, e.ino as nat;
    var ahead := Catalog(c.owner[nb as nat := Place(x, 0)], c.home);
    OkParts(v, geo, c);
    DirThere(v, c, d);
    AheadMeans(c, nb as nat, Place(x, 0));
    var c1 := AfterMake(c, d, v.table[d], bs, e, nb, edit);
    MakeKeeps(v, v1, geo, c, d, e, node, nb, s, edit);
    MakeMeans(v, v1, geo, c, d, e, node, nb, s, edit);
    OwnerAhead(v, geo, c, nb as nat, Place(x, 0));
    MakeParts(v, v1, geo, ahead, d, e, node, nb, s, edit);
    UnlinkParts(v1, vm, v2, geo, d, e, edit2);
    NotDots(v, geo, c, d, e.name);
    DotsMeans(e.name);
    DirUndone(v, v1, vm, v2, geo, ahead.owner, c1, d, v.blocks.free - {nb as nat}, e, edit, edit2);
    MakeNumbers(v, v1, vm, v2, geo, d, e, node, nb, s, edit, edit2);
    forall i | i in c.Live() && i != d ensures SameInode(v, v2, bs, i) {
      LiveUsed(v, geo, ahead, i);
      OthersSame(v, v1, vm, v2, geo, ahead, ahead.owner, c1, d, e, edit, edit2, i);
    }
    RestoredFrom(v, v2, geo, c.Live(), d);
  }

  lemma {:induction false} AheadMeans(c: Catalog, b: nat, p: Place)
    ensures var a := Catalog(c.owner[b := p], c.home); a.Live() == c.Live() && a.home == c.home
  {
  }

  lemma {:induction false} MakeMeans(v: View, v1: View, geo: Geometry, c: Catalog, d: nat, e: Entry, node: Inode, nb: u32, s: seq<byte>, edit: Edit)
    requires geo.blockSize > 0 && Makes(v, v1, geo, d, e, node, nb, s, edit)
    ensures e.ino in v.inodes.free && d != e.ino && nb in v.blocks.free && d in v.table
    ensures EntersBy(v.data, v.blocks.free - {nb as nat}, v.table[d], geo.blockSize, e, edit)
    ensures var ahead := Catalog(c.owner[nb as nat := Place(e.ino as nat, 0)], c.home);
            AfterMake(c, d, v.table[d], geo.blockSize, e, nb, edit) == AfterCreate(ahead, d, v.table[d], geo.blockSize, e, edit)
    ensures v.blocks.free - {nb as nat} <= v.blocks.free
  {
  }

  /** What mkdir tells about the directory, the catalog and the rest. */
  lemma {:induction false} MakeParts(v: View, v1: View, geo: Geometry, c: Catalog, d: nat, e: Entry, node: Inode, nb: u32, s: seq<byte>, edit: Edit)
    requires Ok(v, geo, c) && LiveDir(v, c.Live(), d) && Makes(v, v1, geo, d, e, node, nb, s, edit)
    ensures d in v.table && Holds(v, geo.blockSize, c.owner, d) && Edited(v, v1, d, geo.blockSize, edit)
    ensures e.ino !in c.Live()
    ensures var c1 := AfterCreate(c, d, v.table[d], geo.blockSize, e, edit);
            && c1.owner == EditOwner(c.owner, d, v.table[d], geo.blockSize, edit)
            && LiveDir(v1, c1.Live(), d) && e.ino in c1.Live() && (forall i :: i in c.Live() ==> i in c1.Live())
            && Outside(v, v1, c.owner, c1.owner, {d, e.ino as nat})
  {
    hide *;
    OkParts(v, geo, c);
    DirThere(v, c, d);
    LiveUsed(v, geo, c, d);
    MakeMeans(v, v1, geo, c, d, e, node, nb, s, edit);
    FreeNotLive(v, geo, c, e.ino);
    MakeEdited(v, v1, geo, d, e, node, nb, s, edit);
    EntersOk(v, d, geo.blockSize, v.blocks.free - {nb as nat}, e, edit);
    EnterOkFree(v, d, geo.blockSize, v.blocks.free - {nb as nat}, edit);
    HoldsOwned(v, geo.blockSize, c.owner, d);
    EditOutside(v, v1, d, e.ino as nat, geo.blockSize, c.owner, edit);
    AfterMeans(v, v1, c, d, geo.blockSize, e, edit);
  }

  lemma {:induction false} OneBlock(inode: Inode, bs: nat, b: u32)
    requires bs > 0 && inode.size == bs && |inode.direct| > 0 && inode.direct[0] == b
    ensures BlockSet(inode, bs) == {b as nat}
  {
    SpanOne(inode, bs);
  }

  /** The edit that takes the name out gives back the same block whatever else is free. */
  lemma {:induction false} EditFreeAdds(free: set<nat>, inode: Inode, edit: Edit, more: set<nat>)
    requires !edit.Extend?
    ensures EditFree(free + more, inode, edit) == EditFree(free, inode, edit) + more
  {
  }

  lemma {:induction false} NotExtend(v: View, v': View, geo: Geometry, d: nat, name: Name, edit: Edit)
    requires geo.blockSize > 0 && Leaves(v, v', geo, d, name, edit)
    ensures !edit.Extend?
  {
  }

  lemma {:induction false} MakeNumbers(v: View, v1: View, vm: View, v2: View, geo: Geometry, d: nat, e: Entry, node: Inode, nb: u32, s: seq<byte>, edit: Edit, edit2: Edit)
    requires Sane(v, geo) && Makes(v, v1, geo, d, e, node, nb, s, edit)
    requires Vacates(v1, vm, geo, e.ino as nat) && Leaves(vm, v2, geo, d, e.name, edit2)
    requires d in vm.table && EditFree(EditFree(v.blocks.free - {nb as nat}, v.table[d], edit), vm.table[d], edit2) == v.blocks.free - {nb as nat}
    ensures v2.blocks == v.blocks && v2.inodes == v.inodes
  {
    hide *;
    SizePositive(v, geo);
    MakeMoves(v, v1, geo, d, e, node, nb, s, edit);
    VacateMoves(v1, vm, geo, e.ino as nat);
    LeaveMoves(vm, v2, geo, d, e.name, edit2);
    NotExtend(vm, v2, geo, d, e.name, edit2);
    var b1, i1 := EditFree(v.blocks.free - {nb as nat}, v.table[d], edit), v.inodes.free - {e.ino as nat};
    var bm, im := b1 + {nb as nat}, i1 + {e.ino as nat};
    MovedTo(v.blocks, v1.blocks, geo.groupBlocks, b1);
    MovedTo(v.inodes, v1.inodes, geo.groupInodes, i1);
    OneBlock(node, geo.blockSize, nb);
    MovedTo(v1.blocks, vm.blocks, geo.groupBlocks, bm);
    MovedTo(v1.inodes, vm.inodes, geo.groupInodes, im);
    EditFreeAdds(b1, vm.table[d], edit2, {nb as nat});
    assert v.blocks.free - {nb as nat} + {nb as nat} == v.blocks.free;
    assert im == v.inodes.free;
    NumbersRestored(v, v1, vm, v2, geo, b1, i1, bm, im);
  }

  /** A directory just made is bare, so unlink will not refuse it. */
  lemma {:induction false} FreshIsBare(v: View, v1: View, geo: Geometry, d: nat, e: Entry, node: Inode, nb: u32, s: seq<byte>, edit: Edit)
    requires geo.blockSize > 0 && Makes(v, v1, geo, d, e, node, nb, s, edit) && d !in v.inodes.free
    ensures Bare(v1, geo.blockSize, e.ino as nat) && v1.table[e.ino as nat].size <= geo.blockSize
  {
    MakeEdited(v, v1, geo, d, e, node, nb, s, edit);
    var o: Owners := map[nb as nat := Place(e.ino as nat, 0)];
    FreshDirHolds(v1, geo.blockSize, o, e.ino, d, nb);
    var es := ListingOf(v1.data, v1.table[e.ino as nat], geo.blockSize);
    forall f | f in es ensures Dots(f.name) {
      assert f in Content(es);
    }
  }
}
