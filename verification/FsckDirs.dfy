/** Creating, making and removing names keeps a volume clean. */
module FsckDirs {
  import opened Arith
  import opened Bytes
  import opened Numbering
  import opened Layout
  import opened Inodes
  import opened State
  import opened Dirents
  import opened DirBlocks
  import opened Listings
  import opened Names
  import opened Effects
  import opened Fsck

  // ---- the operations ------------------------------------------------------------------

  /** A directory of a clean volume and an edit of it. */
  ghost predicate EditOk(v: View, d: nat, bs: nat, free: set<nat>, edit: Edit)
    requires bs > 0
  {
    && d in v.table
    && match edit
       case Rewrite(k, s) => k < Span(v.table[d], bs) && |s| == bs
       case Extend(b, s) =>
         && NBlocks(v.table[d], bs) < DIRECT && b as nat in free && |s| == bs
         && v.table[d].size + bs < U32_LIMIT && v.table[d].size == Times(NBlocks(v.table[d], bs), bs)
       case Drop(k) =>
         k < NBlocks(v.table[d], bs) <= DIRECT && v.table[d].size == Times(NBlocks(v.table[d], bs), bs)
  }

  function EditOwner(o: Owners, d: nat, inode: Inode, bs: nat, edit: Edit): Owners
    requires bs > 0
  {
    match edit
    case Rewrite(_, _) => o
    case Extend(b, _) => o[b as nat := Place(d, NBlocks(inode, bs))]
    case Drop(k) =>
      map b | b in o :: if o[b].ino == d && o[b].k > k then Place(d, o[b].k - 1) else o[b]
  }

  /** v' has directory d's new inode, contents and free blocks; other inodes, and blocks
      that were free before, may differ. */
  ghost predicate Edited(v: View, v': View, d: nat, bs: nat, edit: Edit)
    requires bs > 0
  {
    && d in v.table && d in v'.table && v'.table[d] == EditInode(v.table[d], bs, edit) && d !in v'.inodes.free
    && (forall b :: b in v.data && b !in v.blocks.free ==> EditedBlock(v, v', v.table[d], edit, b))
    && (edit.Extend? ==> edit.b as nat in v'.data && v'.data[edit.b as nat] == edit.s && edit.b as nat !in v'.blocks.free)
  }

  ghost predicate EditedBlock(v: View, v': View, inode: Inode, edit: Edit, b: nat)
    requires b in v.data
  {
    && b in v'.data
    && (edit.Rewrite? && edit.k < |inode.direct| && b == inode.direct[edit.k] ==> v'.data[b] == edit.s)
    && (!(edit.Rewrite? && edit.k < |inode.direct| && b == inode.direct[edit.k]) ==> v'.data[b] == v.data[b])
    && (b in v'.blocks.free ==> edit.Drop? && edit.k < |inode.direct| && b == inode.direct[edit.k])
  }

  lemma {:induction false} EditOwns(v: View, v': View, d: nat, bs: nat, o: Owners, edit: Edit)
    requires bs > 0 && Owns(v, bs, o, d) && EditOk(v, d, bs, v.blocks.free, edit) && Edited(v, v', d, bs, edit)
    ensures Owns(v', bs, EditOwner(o, d, v.table[d], bs, edit), d)
  {
    var inode, inode' := v.table[d], v'.table[d];
    var o' := EditOwner(o, d, inode, bs, edit);
    match edit
    case Rewrite(k, s) =>
      forall i | 0 <= i < Span(inode', bs) ensures OwnedAt(v', o', inode'.direct[i], d, i) {
        assert OwnedAt(v, o, inode.direct[i], d, i);
        assert EditedBlock(v, v', inode, edit, inode.direct[i]);
      }
    case Extend(b, s) =>
      GrowSpan(inode, bs, NBlocks(inode, bs), b);
      forall i | 0 <= i < Span(inode', bs) ensures OwnedAt(v', o', inode'.direct[i], d, i) {
        if i < NBlocks(inode, bs) {
          assert OwnedAt(v, o, inode.direct[i], d, i);
          assert EditedBlock(v, v', inode, edit, inode.direct[i]);
        }
      }
    case Drop(k) =>
      DropOwns(v, v', d, bs, o, k);
  }

  lemma {:induction false} DropOwns(v: View, v': View, d: nat, bs: nat, o: Owners, k: nat)
    requires bs > 0 && Owns(v, bs, o, d) && EditOk(v, d, bs, v.blocks.free, Drop(k)) && Edited(v, v', d, bs, Drop(k))
    ensures Owns(v', bs, EditOwner(o, d, v.table[d], bs, Drop(k)), d)
  {
    var inode, inode' := v.table[d], v'.table[d];
    var o' := EditOwner(o, d, inode, bs, Drop(k));
    ShrinkSpan(inode, bs, NBlocks(inode, bs), k);
    assert OwnedAt(v, o, inode.direct[k], d, k);
    forall i | 0 <= i < Span(inode', bs) ensures OwnedAt(v', o', inode'.direct[i], d, i) {
      var j := if i < k then i else i + 1;
      assert inode'.direct[i] == inode.direct[j];
      assert OwnedAt(v, o, inode.direct[j], d, j);
      assert EditedBlock(v, v', inode, Drop(k), inode.direct[j]);
    }
  }

  // ---- the edited directory ------------------------------------------------------------

  lemma {:induction false} EntersOk(v: View, d: nat, bs: nat, free: set<nat>, e: Entry, edit: Edit)
    requires bs > 0 && d in v.table && EntersBy(v.data, free, v.table[d], bs, e, edit)
    ensures EditOk(v, d, bs, free, edit) && !edit.Drop?
  {
    if edit.Rewrite? {
      assert BlockTiled(v.data, v.table[d].direct[edit.k], bs);
    }
  }

  lemma {:induction false} LeavesOk(v: View, d: nat, bs: nat, name: Name, edit: Edit)
    requires bs > 0 && d in v.table && LeavesBy(v.data, v.table[d], bs, name, edit)
    ensures EditOk(v, d, bs, {}, edit) && !edit.Extend?
  {
    if edit.Rewrite? {
      assert BlockTiled(v.data, v.table[d].direct[edit.k], bs);
    }
  }

  /** On the directory's blocks the new contents are those the edit gives. */
  lemma {:induction false} EditedData(v: View, v': View, d: nat, bs: nat, o: Owners, free: set<nat>, edit: Edit)
    requires bs > 0 && Owns(v, bs, o, d) && EditOk(v, d, bs, free, edit) && Edited(v, v', d, bs, edit)
    requires edit.Extend? ==> edit.b as nat in v.blocks.free
    ensures var inode' := v'.table[d]; var data' := EditData(v.data, v.table[d], edit);
            forall i :: 0 <= i < Span(inode', bs) ==>
              inode'.direct[i] in data' && inode'.direct[i] in v'.data && v'.data[inode'.direct[i]] == data'[inode'.direct[i]]
  {
    var inode, inode' := v.table[d], v'.table[d];
    var data' := EditData(v.data, inode, edit);
    if edit.Extend? {
      GrowSpan(inode, bs, NBlocks(inode, bs), edit.b);
    }
    if edit.Drop? {
      ShrinkSpan(inode, bs, NBlocks(inode, bs), edit.k);
    }
    forall i | 0 <= i < Span(inode', bs)
      ensures inode'.direct[i] in data' && inode'.direct[i] in v'.data && v'.data[inode'.direct[i]] == data'[inode'.direct[i]]
    {
      var j := if edit.Drop? && i >= edit.k then i + 1 else i;
      if !(edit.Extend? && i == NBlocks(inode, bs)) {
        assert inode'.direct[i] == inode.direct[j];
        assert OwnedAt(v, o, inode.direct[j], d, j);
        assert EditedBlock(v, v', inode, edit, inode.direct[j]);
      }
    }
  }

  lemma {:induction false} EnterListing(data: Data, free: set<nat>, inode: Inode, bs: nat, e: Entry, edit: Edit) returns (p: nat)
    requires bs > 0 && EntersBy(data, free, inode, bs, e, edit) && NoRepeats(inode, bs) && ListingOf(data, inode, bs) != []
    requires edit.Extend? ==> forall i :: 0 <= i < NBlocks(inode, bs) ==> inode.direct[i] != edit.b
    ensures var data', inode' := EditData(data, inode, edit), EditInode(inode, bs, edit);
            && DirShape(data', inode', bs)
            && p > 0 && Inserted(ListingOf(data, inode, bs), ListingOf(data', inode', bs), p, e)
  {
    hide AddedTo, Inserted, Tiled, Entries, ListingOf, NoRepeats;
    match edit
    case Rewrite(k, s) => p := EnterByRewrite(data, inode, bs, e, k, s);
    case Extend(b, s) =>
      EnterByExtend(data, inode, bs, e, b, s);
      p := |ListingOf(data, inode, bs)|;
  }

  lemma {:induction false} LeaveListing(data: Data, inode: Inode, bs: nat, name: Name, edit: Edit) returns (p: nat)
    requires bs > 0 && LeavesBy(data, inode, bs, name, edit) && NoRepeats(inode, bs) && name != DOT
    requires ListingOf(data, inode, bs) != [] && ListingOf(data, inode, bs)[0].name == DOT
    ensures var data', inode' := EditData(data, inode, edit), EditInode(inode, bs, edit);
            && DirShape(data', inode', bs)
            && Removed(ListingOf(data, inode, bs), ListingOf(data', inode', bs), p)
            && ListingOf(data, inode, bs)[p].name == name
  {
    if edit.Drop? {
      FirstBlockStays(data, inode, bs, name, edit.k);
    }
    hide RemovedFrom, Removed, Tiled, Entries, ListingOf, NoRepeats, PartAt;
    match edit
    case Rewrite(k, s) => p := LeaveByRewrite(data, inode, bs, name, k, s);
    case Drop(k) => p := LeaveByDrop(data, inode, bs, k);
  }

  /** Insertion: the directory stays well formed and gains just e. */
  lemma {:induction false} EnterHolds(v: View, v': View, d: nat, bs: nat, o: Owners, free: set<nat>, e: Entry, edit: Edit)
    returns (p: nat)
    requires bs > 0 && Holds(v, bs, o, d) && IsDir(v.table[d])
    requires EntersBy(v.data, free, v.table[d], bs, e, edit) && free <= v.blocks.free
    requires Unnamed(ListingOf(v.data, v.table[d], bs), e.name) && Edited(v, v', d, bs, edit)
    ensures Holds(v', bs, EditOwner(o, d, v.table[d], bs, edit), d) && IsDir(v'.table[d])
    ensures Inserted(ListingOf(v.data, v.table[d], bs), ListingOf(v'.data, v'.table[d], bs), p, e)
    ensures Content(ListingOf(v'.data, v'.table[d], bs)) == Content(ListingOf(v.data, v.table[d], bs)) + {e}
  {
    var inode := v.table[d];
    EntersOk(v, d, bs, free, e, edit);
    EditOwns(v, v', d, bs, o, edit);
    OwnsNoRepeats(v, bs, o, d);
    EditedData(v, v', d, bs, o, free, edit);
    if edit.Extend? {
      forall i | 0 <= i < NBlocks(inode, bs) ensures inode.direct[i] != edit.b {
        assert OwnedAt(v, o, inode.direct[i], d, i);
      }
    }
    assert IsDir(v'.table[d]) && DirOk(v.data, inode, bs);
    assert Owns(v', bs, EditOwner(o, d, inode, bs, edit), d);
    assert ListingOf(v.data, inode, bs) != [] && Unique(ListingOf(v.data, inode, bs)) && ListingOf(v.data, inode, bs)[0].name == DOT;
    hide DirShape, EntersBy, Edited, Owns, ListingOf, Content, Unnamed, EditInode, EditData, EditOwner, Inserted, NoRepeats, Unique;
    p := EnterListing(v.data, free, inode, bs, e, edit);
    ListingFrame(EditData(v.data, inode, edit), v'.data, v'.table[d], bs);
    InsertContent(ListingOf(v.data, inode, bs), ListingOf(v'.data, v'.table[d], bs), p, e);
    InsertedNonempty(ListingOf(v.data, inode, bs), ListingOf(v'.data, v'.table[d], bs), p, e);
  }

  lemma {:induction false} InsertedNonempty(es: seq<Entry>, es': seq<Entry>, p: nat, e: Entry)
    requires Inserted(es, es', p, e)
    ensures es' != []
  {
  }

  /** Removal: the directory stays well formed and loses just the entry of that name. */
  lemma {:induction false} LeaveHolds(v: View, v': View, d: nat, bs: nat, o: Owners, name: Name, edit: Edit)
    returns (p: nat)
    requires bs > 0 && Holds(v, bs, o, d) && IsDir(v.table[d]) && name != DOT
    requires LeavesBy(v.data, v.table[d], bs, name, edit) && Edited(v, v', d, bs, edit)
    ensures Holds(v', bs, EditOwner(o, d, v.table[d], bs, edit), d) && IsDir(v'.table[d])
    ensures Removed(ListingOf(v.data, v.table[d], bs), ListingOf(v'.data, v'.table[d], bs), p)
    ensures ListingOf(v.data, v.table[d], bs)[p].name == name
    ensures Content(ListingOf(v'.data, v'.table[d], bs))
         == Content(ListingOf(v.data, v.table[d], bs)) - {ListingOf(v.data, v.table[d], bs)[p]}
  {
    var inode := v.table[d];
    LeavesOk(v, d, bs, name, edit);
    EditOwns(v, v', d, bs, o, edit);
    OwnsNoRepeats(v, bs, o, d);
    EditedData(v, v', d, bs, o, {}, edit);
    assert IsDir(v'.table[d]) && DirOk(v.data, inode, bs);
    assert Owns(v', bs, EditOwner(o, d, inode, bs, edit), d);
    assert ListingOf(v.data, inode, bs) != [] && Unique(ListingOf(v.data, inode, bs)) && ListingOf(v.data, inode, bs)[0].name == DOT;
    hide DirShape, LeavesBy, Edited, Owns, ListingOf, Content, Unnamed, EditInode, EditData, EditOwner, Removed, NoRepeats, Unique;
    p := LeaveListing(v.data, inode, bs, name, edit);
    ListingFrame(EditData(v.data, inode, edit), v'.data, v'.table[d], bs);
    RemoveContent(ListingOf(v.data, inode, bs), ListingOf(v'.data, v'.table[d], bs), p);
    RemovedBounds(ListingOf(v.data, inode, bs), ListingOf(v'.data, v'.table[d], bs), p);
  }

  lemma {:induction false} RemovedBounds(es: seq<Entry>, es': seq<Entry>, p: nat)
    requires Removed(es, es', p)
    ensures p < |es|
  {
  }

  // ---- creating ------------------------------------------------------------------------

  /** What the edit of d leaves alone. */
  lemma {:induction false} EditOutside(v: View, v': View, d: nat, x: nat, bs: nat, o: Owners, edit: Edit)
    requires bs > 0 && Owns(v, bs, o, d) && EditOk(v, d, bs, v.blocks.free, edit) && Edited(v, v', d, bs, edit)
    requires forall i :: i != d && i != x ==> InodeKept(v, v', i)
    ensures Outside(v, v', o, EditOwner(o, d, v.table[d], bs, edit), {d, x})
  {
    var inode := v.table[d];
    var o' := EditOwner(o, d, inode, bs, edit);
    forall b ensures BlockKept(v, v', o, o', {d, x}, b) {
      if b in o && o[b].ino != d && b in v.data && b !in v.blocks.free {
        assert EditedBlock(v, v', inode, edit, b);
        if !edit.Extend? {
          assert OwnedAt(v, o, inode.direct[edit.k], d, edit.k);
        }
      }
    }
  }

  lemma {:induction false} SpanZero(inode: Inode, bs: nat)
    requires bs > 0 && inode.size == 0
    ensures NBlocks(inode, bs) == 0
  {
    CeilUnique(0, 0, bs);
  }

  lemma {:induction false} SpanOne(inode: Inode, bs: nat)
    requires bs > 0 && inode.size == bs
    ensures NBlocks(inode, bs) == 1 && Times(1, bs) == bs
  {
    TimesOne(bs);
    CeilUnique(bs, 1, bs);
  }

  /** What the catalog says of directory d: it holds "." and "..", so a name that is not in
      it is neither. */
  lemma {:induction false} NotDots(v: View, geo: Geometry, c: Catalog, d: nat, name: Name)
    requires Ok(v, geo, c) && LiveDir(v, c.Live(), d) && Unnamed(ListingOf(v.data, v.table[d], geo.blockSize), name)
    ensures !Dots(name) && d < U32_LIMIT
  {
    var t := TreeOf(v, geo.blockSize, c.Live());
    assert d in t && DirNamesOk(t, c.home, ROOT, d);
    assert Entry(d, DOT) in ListingOf(v.data, v.table[d], geo.blockSize);
    assert Entry(ParentOf(c.home, ROOT, d), DOTDOT) in ListingOf(v.data, v.table[d], geo.blockSize);
  }

  /** Directory d gained an entry and the other inodes are as before. */
  lemma {:induction false} EnterEdits(v: View, v': View, bs: nat, o: Owners, live: set<nat>, d: nat, x: nat, free: set<nat>, e: Entry, edit: Edit)
    requires bs > 0 && AllHold(v, bs, o, live) && LiveDir(v, live, d)
    requires EntersBy(v.data, free, v.table[d], bs, e, edit) && free <= v.blocks.free
    requires Unnamed(ListingOf(v.data, v.table[d], bs), e.name)
    requires Edited(v, v', d, bs, edit)
    requires forall i :: i != d && i != x ==> InodeKept(v, v', i)
    ensures var o' := EditOwner(o, d, v.table[d], bs, edit);
            && AllHold(v', bs, o', live - {d, x}) && Holds(v', bs, o', d)
            && TreeOf(v', bs, live - {d, x}) == TreeOf(v, bs, live - {d, x})
            && d in v'.table && IsDir(v'.table[d])
            && Content(ListingOf(v'.data, v'.table[d], bs)) == Content(ListingOf(v.data, v.table[d], bs)) + {e}
  {
    var o' := EditOwner(o, d, v.table[d], bs, edit);
    assert Holds(v, bs, o, d);
    EntersOk(v, d, bs, free, e, edit);
    EnterOkFree(v, d, bs, free, edit);
    EditOutside(v, v', d, x, bs, o, edit);
    hide Outside, EntersBy, EditOwner, ListingOf, Content, Inserted, EditOk, Owns, Unnamed, DirOk, InodeKept;
    var p := EnterHolds(v, v', d, bs, o, free, e, edit);
    Frame(v, v', bs, o, o', {d, x}, live);
  }

  /** A new inode x and its name in directory d: the common part of creat and mkdir. */
  lemma {:induction false} EnterKeeps(v: View, v': View, geo: Geometry, c: Catalog, d: nat, free: set<nat>, e: Entry, edit: Edit)
    requires Ok(v, geo, c) && LiveDir(v, c.Live(), d) && Sane(v', geo)
    requires EntersBy(v.data, free, v.table[d], geo.blockSize, e, edit) && free <= v.blocks.free
    requires Unnamed(ListingOf(v.data, v.table[d], geo.blockSize), e.name)
    requires Edited(v, v', d, geo.blockSize, edit) && e.ino !in c.Live()
    requires forall i :: i != d && i != e.ino ==> InodeKept(v, v', i)
    requires Holds(v', geo.blockSize, EditOwner(c.owner, d, v.table[d], geo.blockSize, edit), e.ino)
    requires IsDir(v'.table[e.ino as nat]) ==>
               && d < U32_LIMIT
               && Content(ListingOf(v'.data, v'.table[e.ino as nat], geo.blockSize)) == {Entry(e.ino, DOT), Entry(d, DOTDOT)}
    ensures Ok(v', geo, Catalog(EditOwner(c.owner, d, v.table[d], geo.blockSize, edit), NewHome(c.home, ROOT, d, e)))
    ensures d in TreeOf(v, geo.blockSize, c.Live())
    ensures TreeOf(v', geo.blockSize, c.Live() + {e.ino as nat})
         == TreeWith(TreeOf(v, geo.blockSize, c.Live()), d, e, IsDir(v'.table[e.ino as nat]))
  {
    var bs, x, o, live := geo.blockSize, e.ino as nat, c.owner, c.Live();
    var o' := EditOwner(o, d, v.table[d], bs, edit);
    var c' := Catalog(o', NewHome(c.home, ROOT, d, e));
    assert d in v.table && bs > 0;
    hide *;
    OkParts(v, geo, c);
    NotDots(v, geo, c, d, e.name);
    EnterEdits(v, v', bs, o, live, d, x, free, e, edit);
    HoldsKnown(v', bs, o', x);
    AllHoldAgain(v', bs, o', live, d, x);
    TreeAgain(v, v', bs, live, d, x);
    EnterNames(v, v', bs, c, d, e);
    LiveAfter(c, o', d, e);
    OkFrom(v', geo, c');
  }

  lemma {:induction false} OkParts(v: View, geo: Geometry, c: Catalog)
    requires Ok(v, geo, c)
    ensures Sane(v, geo) && geo.blockSize > 0 && AllHold(v, geo.blockSize, c.owner, c.Live())
    ensures NamesOk(TreeOf(v, geo.blockSize, c.Live()), c.home, ROOT)
  {
  }

  lemma {:induction false} OkFrom(v: View, geo: Geometry, c: Catalog)
    requires Sane(v, geo) && geo.blockSize > 0 && AllHold(v, geo.blockSize, c.owner, c.Live())
    requires NamesOk(TreeOf(v, geo.blockSize, c.Live()), c.home, ROOT)
    ensures Ok(v, geo, c)
  {
  }

  lemma {:induction false} LiveAfter(c: Catalog, o: Owners, d: nat, e: Entry)
    ensures Catalog(o, NewHome(c.home, ROOT, d, e)).Live() == c.Live() + {e.ino as nat}
  {
  }

  lemma {:induction false} EnterNames(v: View, v': View, bs: nat, c: Catalog, d: nat, e: Entry)
    requires bs > 0 && NamesOk(TreeOf(v, bs, c.Live()), c.home, ROOT) && LiveDir(v, c.Live(), d)
    requires d in v'.table && e.ino as nat in v'.table && e.ino !in c.Live() && !Dots(e.name)
    requires TreeOf(v', bs, c.Live() + {e.ino as nat})
          == if IsDir(v'.table[e.ino as nat]) then TreeOf(v, bs, c.Live())[d := Content(ListingOf(v'.data, v'.table[d], bs))][e.ino as nat := Content(ListingOf(v'.data, v'.table[e.ino as nat], bs))]
             else TreeOf(v, bs, c.Live())[d := Content(ListingOf(v'.data, v'.table[d], bs))]
    requires Content(ListingOf(v'.data, v'.table[d], bs)) == Content(ListingOf(v.data, v.table[d], bs)) + {e}
    requires IsDir(v'.table[e.ino as nat]) ==>
               && d < U32_LIMIT
               && Content(ListingOf(v'.data, v'.table[e.ino as nat], bs)) == {Entry(e.ino, DOT), Entry(d, DOTDOT)}
    ensures NamesOk(TreeOf(v', bs, c.Live() + {e.ino as nat}), NewHome(c.home, ROOT, d, e), ROOT)
    ensures d in TreeOf(v, bs, c.Live())
    ensures TreeOf(v', bs, c.Live() + {e.ino as nat}) == TreeWith(TreeOf(v, bs, c.Live()), d, e, IsDir(v'.table[e.ino as nat]))
  {
    var t := TreeOf(v, bs, c.Live());
    assert d in t && t[d] == Content(ListingOf(v.data, v.table[d], bs));
    hide NamesOk, Content, ListingOf, Listing, NewHome;
    NameNode(t, TreeOf(v', bs, c.Live() + {e.ino as nat}), c.home, ROOT, d, e, IsDir(v'.table[e.ino as nat]));
  }

  lemma {:induction false} EnterOkFree(v: View, d: nat, bs: nat, free: set<nat>, edit: Edit)
    requires bs > 0 && EditOk(v, d, bs, free, edit) && free <= v.blocks.free
    ensures EditOk(v, d, bs, v.blocks.free, edit)
  {
  }

  lemma {:induction false} AllHoldAgain(v': View, bs: nat, o': Owners, live: set<nat>, d: nat, x: nat)
    requires bs > 0 && AllHold(v', bs, o', live - {d, x}) && Holds(v', bs, o', d) && Holds(v', bs, o', x)
    ensures AllHold(v', bs, o', live + {x})
  {
    hide Holds;
    forall i | i in live + {x} ensures Holds(v', bs, o', i) {
      assert i == d || i == x || i in live - {d, x};
    }
  }

  /** The tree away from d and x is as before. */
  lemma {:induction false} TreeAgain(v: View, v': View, bs: nat, live: set<nat>, d: nat, x: nat)
    requires bs > 0 && TreeOf(v', bs, live - {d, x}) == TreeOf(v, bs, live - {d, x})
    requires LiveDir(v, live, d) && d in v'.table && IsDir(v'.table[d]) && x in v'.table && x !in live
    ensures TreeOf(v', bs, live + {x})
         == if IsDir(v'.table[x]) then TreeOf(v, bs, live)[d := Content(ListingOf(v'.data, v'.table[d], bs))][x := Content(ListingOf(v'.data, v'.table[x], bs))]
            else TreeOf(v, bs, live)[d := Content(ListingOf(v'.data, v'.table[d], bs))]
  {
    hide ListingOf, Content, IsDir;
    var t, t' := TreeOf(v, bs, live), TreeOf(v', bs, live + {x});
    var s, s' := TreeOf(v, bs, live - {d, x}), TreeOf(v', bs, live - {d, x});
    forall a ensures a != d && a != x ==> (a in t <==> a in t') && (a in t ==> t[a] == t'[a]) {
      if a != d && a != x {
        assert (a in t <==> a in s) && (a in t' <==> a in s');
        assert a in s ==> s[a] == t[a] && s'[a] == t'[a];
      }
    }
    assert x !in t;
  }

  lemma {:induction false} FreeNotLive(v: View, geo: Geometry, c: Catalog, x: nat)
    requires Ok(v, geo, c) && x in v.inodes.free
    ensures x !in c.Live()
  {
    forall i | i in c.Live() ensures i !in v.inodes.free {
      assert Holds(v, geo.blockSize, c.owner, i);
    }
  }

  lemma {:induction false} SaneAfter(v: View, v': View, geo: Geometry, blocks: set<nat>, inodes: set<nat>, table: map<nat, Inode>, data: Data)
    requires Sane(v, geo) && Becomes(v, v', geo, blocks, inodes, table, data)
    requires DataFits(data, geo) && TableFits(table, geo)
    requires (forall b :: b in blocks ==> b in data) && (forall i :: i in inodes ==> i in table)
    ensures Sane(v', geo)
  {
  }

  lemma {:induction false} EditKeepsInodeOk(inode: Inode, geo: Geometry, edit: Edit)
    requires geo.blockSize > 0 && InodeOk(inode, geo.inodeSize)
    ensures InodeOk(EditInode(inode, geo.blockSize, edit), geo.inodeSize)
  {
  }

  /** An edit stays in range. */
  lemma {:induction false} EditSane(v: View, geo: Geometry, d: nat, free: set<nat>, edit: Edit)
    requires Sane(v, geo) && EditOk(v, d, geo.blockSize, free, edit) && free <= v.blocks.free
    requires edit.Rewrite? ==> v.table[d].direct[edit.k] as nat in v.data
    requires edit.Drop? ==> v.table[d].direct[edit.k] as nat in v.data
    ensures DataFits(EditData(v.data, v.table[d], edit), geo)
    ensures TableFits(v.table[d := EditInode(v.table[d], geo.blockSize, edit)], geo)
    ensures forall b :: b in EditFree(free, v.table[d], edit) ==> b in EditData(v.data, v.table[d], edit)
  {
    EditKeepsInodeOk(v.table[d], geo, edit);
  }

  /** The edit, read off the relation the operations state. */
  lemma {:induction false} EditedBy(v: View, v': View, bs: nat, d: nat, x: nat, free: set<nat>, edit: Edit)
    requires bs > 0 && d in v.table && d != x && EditOk(v, d, bs, free, edit) && free <= v.blocks.free && !edit.Drop?
    requires d in v'.table && v'.table[d] == EditInode(v.table[d], bs, edit) && d !in v'.inodes.free
    requires forall b :: b in EditData(v.data, v.table[d], edit) && (b in v.blocks.free ==> edit.Extend? && b == edit.b) ==>
               b in v'.data && v'.data[b] == EditData(v.data, v.table[d], edit)[b]
    requires forall b :: b in v'.blocks.free ==> b in EditFree(free, v.table[d], edit)
    ensures Edited(v, v', d, bs, edit)
  {
    forall b | b in v.data && b !in v.blocks.free ensures EditedBlock(v, v', v.table[d], edit, b) {
      assert b in EditData(v.data, v.table[d], edit);
    }
  }

  function AfterCreate(c: Catalog, d: nat, inode: Inode, bs: nat, e: Entry, edit: Edit): Catalog
    requires bs > 0
  {
    Catalog(EditOwner(c.owner, d, inode, bs, edit), NewHome(c.home, ROOT, d, e))
  }

  lemma {:induction false} CreateSane(v: View, v': View, geo: Geometry, d: nat, e: Entry, node: Inode, edit: Edit)
    requires Sane(v, geo) && Creates(v, v', geo, d, e, node, edit)
    ensures Sane(v', geo)
  {
    var bs := geo.blockSize;
    EntersOk(v, d, bs, v.blocks.free, e, edit);
    if edit.Rewrite? {
      assert BlockTiled(v.data, v.table[d].direct[edit.k], bs);
    }
    EditSane(v, geo, d, v.blocks.free, edit);
    var table' := v.table[d := EditInode(v.table[d], bs, edit)][e.ino as nat := node];
    assert TableFits(table', geo);
    var data', blocks', inodes' := EditData(v.data, v.table[d], edit), EditFree(v.blocks.free, v.table[d], edit), v.inodes.free - {e.ino as nat};
    hide Sane, EntersBy, EditOk, EditInode, EditData, EditFree, Moved, InodeOk, IsReg;
    SaneAfter(v, v', geo, blocks', inodes', table', data');
  }

  lemma {:induction false} CreateEdited(v: View, v': View, geo: Geometry, d: nat, e: Entry, node: Inode, edit: Edit)
    requires geo.blockSize > 0 && Creates(v, v', geo, d, e, node, edit) && d !in v.inodes.free
    ensures Edited(v, v', d, geo.blockSize, edit)
    ensures forall i :: i != d && i != e.ino ==> InodeKept(v, v', i)
    ensures e.ino as nat in v'.table && v'.table[e.ino as nat] == node && e.ino !in v'.inodes.free
  {
    var bs := geo.blockSize;
    EntersOk(v, d, bs, v.blocks.free, e, edit);
    hide EntersBy, EditInode, InodeOk;
    EditedBy(v, v', bs, d, e.ino as nat, v.blocks.free, edit);
  }

  lemma {:induction false} EmptyFileHolds(v': View, bs: nat, o: Owners, x: nat)
    requires bs > 0 && x in v'.table && x !in v'.inodes.free
    requires v'.table[x].size == 0 && IsReg(v'.table[x]) && ZeroFrom(v'.table[x], 0)
    ensures Holds(v', bs, o, x) && !IsDir(v'.table[x])
  {
    SpanZero(v'.table[x], bs);
  }

  lemma {:induction false} CreateParts(v: View, v': View, geo: Geometry, c: Catalog, d: nat, e: Entry, node: Inode, edit: Edit)
    requires LiveDir(v, c.Live(), d) && geo.blockSize > 0 && Creates(v, v', geo, d, e, node, edit)
    ensures d in v.table && d in c.Live() && e.ino as nat in v.inodes.free && !IsDir(node)
    ensures EntersBy(v.data, v.blocks.free, v.table[d], geo.blockSize, e, edit)
    ensures node.size == 0 && IsReg(node) && ZeroFrom(node, 0)
    ensures AfterCreate(c, d, v.table[d], geo.blockSize, e, edit)
         == Catalog(EditOwner(c.owner, d, v.table[d], geo.blockSize, edit), NewHome(c.home, ROOT, d, e))
  {
  }

  /** creat keeps the volume clean. */
  lemma {:induction false} CreateKeeps(v: View, v': View, geo: Geometry, c: Catalog, d: nat, e: Entry, node: Inode, edit: Edit)
    requires Ok(v, geo, c) && LiveDir(v, c.Live(), d) && Creates(v, v', geo, d, e, node, edit)
    requires Unnamed(ListingOf(v.data, v.table[d], geo.blockSize), e.name)
    ensures Ok(v', geo, AfterCreate(c, d, v.table[d], geo.blockSize, e, edit))
    ensures d in TreeOf(v, geo.blockSize, c.Live())
    ensures TreeOf(v', geo.blockSize, AfterCreate(c, d, v.table[d], geo.blockSize, e, edit).Live())
         == TreeWith(TreeOf(v, geo.blockSize, c.Live()), d, e, false)
  {
    var bs, x := geo.blockSize, e.ino as nat;
    hide *;
    OkParts(v, geo, c);
    CreateParts(v, v', geo, c, d, e, node, edit);
    LiveUsed(v, geo, c, d);
    FreeNotLive(v, geo, c, x);
    CreateSane(v, v', geo, d, e, node, edit);
    CreateEdited(v, v', geo, d, e, node, edit);
    EmptyFileHolds(v', bs, EditOwner(c.owner, d, v.table[d], bs, edit), x);
    LiveAfter(c, EditOwner(c.owner, d, v.table[d], bs, edit), d, e);
    EnterKeeps(v, v', geo, c, d, v.blocks.free, e, edit);
  }

  lemma {:induction false} LiveUsed(v: View, geo: Geometry, c: Catalog, i: nat)
    requires Ok(v, geo, c) && i in c.Live()
    ensures i !in v.inodes.free && i in v.table && Holds(v, geo.blockSize, c.owner, i)
  {
    assert Holds(v, geo.blockSize, c.owner, i);
  }
}
