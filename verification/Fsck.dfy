/** What a file-system check would verify: counters and bitmaps agree, no block has two
    owners or is both owned and free, directories are tiled by records with unique names,
    and the names form a tree. */
module Fsck {
  import opened Arith
  import opened Bytes
  import opened Numbering
  import opened Layout
  import opened Inodes
  import opened State
  import opened Dirents
  import opened DirBlocks
  import opened Listings
  import opened Names
  import opened Effects

  const ROOT: nat := 2

  /** The k-th block of an inode. */
  datatype Place = Place(ino: nat, k: nat)

  type Owners = map<nat, Place>

  ghost predicate DataFits(data: Data, geo: Geometry) {
    forall b :: b in data ==>
      |data[b]| == geo.blockSize && 1 <= b <= Times(geo.groups, geo.groupBlocks) && b < U32_LIMIT
  }

  ghost predicate TableFits(table: map<nat, Inode>, geo: Geometry) {
    forall i :: i in table ==>
      InodeOk(table[i], geo.inodeSize) && 1 <= i <= Times(geo.groups, geo.groupInodes) && i < U32_LIMIT
  }

  /** The allocators' bitmaps and counts agree, and numbers, blocks and inodes are in range. */
  ghost predicate Sane(v: View, geo: Geometry) {
    && geo.blockSize > 0
    && v.blocks.Ok(geo.groupBlocks) && |v.blocks.maps| == geo.groups
    && v.inodes.Ok(geo.groupInodes) && |v.inodes.maps| == geo.groups
    && DataFits(v.data, geo) && TableFits(v.table, geo)
    && (forall b :: b in v.blocks.free ==> b in v.data)
    && (forall i :: i in v.inodes.free ==> i in v.table)
  }

  /** Block b is in use as the k-th block of inode i, and as nothing else. */
  ghost predicate OwnedAt(v: View, owner: Owners, b: nat, i: nat, k: nat) {
    b in v.data && b !in v.blocks.free && b in owner && owner[b] == Place(i, k)
  }

  ghost predicate Owns(v: View, bs: nat, owner: Owners, i: nat)
    requires bs > 0
  {
    && i in v.table && i !in v.inodes.free && |v.table[i].direct| == DIRECT
    && forall k :: 0 <= k < Span(v.table[i], bs) ==> OwnedAt(v, owner, v.table[i].direct[k], i, k)
  }

  ghost predicate DirOk(data: Data, inode: Inode, bs: nat)
    requires bs > 0
  {
    && DirShape(data, inode, bs)
    && var es := ListingOf(data, inode, bs); Unique(es) && es != [] && es[0].name == DOT
  }

  /** Inode i is in use, owns its blocks, and is well formed if it is a directory; the
      pointers behind the blocks of a file are 0. */
  ghost predicate Holds(v: View, bs: nat, owner: Owners, i: nat)
    requires bs > 0
  {
    && Owns(v, bs, owner, i)
    && if IsDir(v.table[i]) then DirOk(v.data, v.table[i], bs) else ZeroFrom(v.table[i], NBlocks(v.table[i], bs))
  }

  ghost predicate AllHold(v: View, bs: nat, owner: Owners, live: set<nat>)
    requires bs > 0
  {
    forall i :: i in live ==> Holds(v, bs, owner, i)
  }

  ghost predicate LiveDir(v: View, live: set<nat>, d: nat) {
    d in live && d in v.table && IsDir(v.table[d])
  }

  /** What directory d holds. */
  ghost function Held(v: View, bs: nat, live: set<nat>, d: nat): set<Entry>
    requires bs > 0
  {
    if LiveDir(v, live, d) then Content(ListingOf(v.data, v.table[d], bs)) else {}
  }

  ghost function TreeOf(v: View, bs: nat, live: set<nat>): Tree
    requires bs > 0
  {
    map d | d in live && LiveDir(v, live, d) :: Held(v, bs, live, d)
  }

  /** Who owns which block, and where each inode has its name. */
  datatype Catalog = Catalog(owner: Owners, home: Homes)
  {
    function Live(): set<nat> { home.Keys + {ROOT} }
  }

  ghost predicate Ok(v: View, geo: Geometry, c: Catalog) {
    && Sane(v, geo)
    && AllHold(v, geo.blockSize, c.owner, c.Live())
    && NamesOk(TreeOf(v, geo.blockSize, c.Live()), c.home, ROOT)
  }

  // ---- what the check means ------------------------------------------------------------

  /** No block belongs to two inodes, or twice to one. */
  lemma {:induction false} BlocksExclusive(v: View, geo: Geometry, c: Catalog, i: nat, j: nat, k: nat, l: nat)
    requires Ok(v, geo, c) && i in c.Live() && j in c.Live()
    requires k < Span(v.table[i], geo.blockSize) && l < Span(v.table[j], geo.blockSize)
    requires i != j || k != l
    ensures v.table[i].direct[k] != v.table[j].direct[l]
  {
    assert Holds(v, geo.blockSize, c.owner, i) && Holds(v, geo.blockSize, c.owner, j);
    assert OwnedAt(v, c.owner, v.table[i].direct[k], i, k) && OwnedAt(v, c.owner, v.table[j].direct[l], j, l);
  }

  lemma {:induction false} OwnsNoRepeats(v: View, bs: nat, owner: Owners, i: nat)
    requires bs > 0 && Owns(v, bs, owner, i)
    ensures NoRepeats(v.table[i], bs)
  {
    forall j, k | 0 <= j < k < Span(v.table[i], bs) ensures v.table[i].direct[j] != v.table[i].direct[k] {
      assert OwnedAt(v, owner, v.table[i].direct[j], i, j) && OwnedAt(v, owner, v.table[i].direct[k], i, k);
    }
  }

  /** Every name in a directory stands for an inode in use. */
  lemma {:induction false} NamesLive(v: View, geo: Geometry, c: Catalog, d: nat, e: Entry)
    requires Ok(v, geo, c) && LiveDir(v, c.Live(), d) && e in ListingOf(v.data, v.table[d], geo.blockSize)
    ensures e.ino in c.Live() && e.ino in v.table && e.ino !in v.inodes.free
  {
    var t := TreeOf(v, geo.blockSize, c.Live());
    assert d in t && e in t[d];
    assert DirNamesOk(t, c.home, ROOT, d) && EntryOk(c.home, ROOT, d, e);
    assert Holds(v, geo.blockSize, c.owner, e.ino) by {
      if d in c.home {
        assert HomeOk(t, c.home, ROOT, d);
      }
    }
  }

  // ---- frames --------------------------------------------------------------------------

  /** Block b, unless an inode of `touched` owns it, keeps its contents, use and owner. */
  ghost predicate BlockKept(v: View, v': View, o: Owners, o': Owners, touched: set<nat>, b: nat) {
    b in o && o[b].ino !in touched && b in v.data && b !in v.blocks.free ==>
      b in v'.data && v'.data[b] == v.data[b] && b !in v'.blocks.free && b in o' && o'[b] == o[b]
  }

  ghost predicate InodeKept(v: View, v': View, i: nat) {
    i in v.table && i !in v.inodes.free ==> i in v'.table && v'.table[i] == v.table[i] && i !in v'.inodes.free
  }

  /** Only inodes of `touched` and their blocks change. */
  ghost predicate Outside(v: View, v': View, o: Owners, o': Owners, touched: set<nat>) {
    && (forall i :: i !in touched ==> InodeKept(v, v', i))
    && (forall b :: BlockKept(v, v', o, o', touched, b))
  }

  lemma {:induction false} ListingFrame(data: Data, data': Data, inode: Inode, bs: nat)
    requires bs > 0
    requires forall k :: 0 <= k < Span(inode, bs) ==>
               inode.direct[k] in data && inode.direct[k] in data' && data'[inode.direct[k]] == data[inode.direct[k]]
    ensures ListingOf(data', inode, bs) == ListingOf(data, inode, bs)
    ensures DirShape(data, inode, bs) ==> DirShape(data', inode, bs)
  {
    var ds, ds' := Parts(data, inode, bs), Parts(data', inode, bs);
    forall k | 0 <= k < |ds| ensures ds[k] == ds'[k] {
      assert ds[k] == PartAt(data, inode.direct[k]) && ds'[k] == PartAt(data', inode.direct[k]);
    }
    FlatFrame(ds, ds', |ds|);
    if DirShape(data, inode, bs) {
      forall k | 0 <= k < NBlocks(inode, bs) ensures BlockTiled(data', inode.direct[k], bs) {
        assert BlockTiled(data, inode.direct[k], bs);
      }
    }
  }

  lemma {:induction false} FrameHolds(v: View, v': View, bs: nat, o: Owners, o': Owners, touched: set<nat>, i: nat)
    requires bs > 0 && Holds(v, bs, o, i) && i !in touched && Outside(v, v', o, o', touched)
    ensures Holds(v', bs, o', i) && v'.table[i] == v.table[i]
    ensures ListingOf(v'.data, v.table[i], bs) == ListingOf(v.data, v.table[i], bs)
  {
    assert InodeKept(v, v', i);
    var inode := v.table[i];
    forall k | 0 <= k < Span(inode, bs)
      ensures OwnedAt(v', o', inode.direct[k], i, k)
      ensures inode.direct[k] in v.data && inode.direct[k] in v'.data && v'.data[inode.direct[k]] == v.data[inode.direct[k]]
    {
      assert OwnedAt(v, o, inode.direct[k], i, k);
      assert BlockKept(v, v', o, o', touched, inode.direct[k]);
    }
    hide Outside, DirShape, Parts, Listing, Unique;
    ListingFrame(v.data, v'.data, inode, bs);
  }

  /** What was not touched still holds, and its part of the tree is as before. */
  lemma {:induction false} Frame(v: View, v': View, bs: nat, o: Owners, o': Owners, touched: set<nat>, live: set<nat>)
    requires bs > 0 && AllHold(v, bs, o, live) && Outside(v, v', o, o', touched)
    ensures AllHold(v', bs, o', live - touched)
    ensures TreeOf(v', bs, live - touched) == TreeOf(v, bs, live - touched)
  {
    hide Holds, Outside, ListingOf, Content;
    forall i | i in live - touched
      ensures Holds(v', bs, o', i) && i in v.table && i in v'.table && v'.table[i] == v.table[i]
      ensures ListingOf(v'.data, v.table[i], bs) == ListingOf(v.data, v.table[i], bs)
    {
      FrameHolds(v, v', bs, o, o', touched, i);
      HoldsKnown(v, bs, o, i);
      HoldsKnown(v', bs, o', i);
    }
  }

  lemma {:induction false} HoldsKnown(v: View, bs: nat, o: Owners, i: nat)
    requires bs > 0 && Holds(v, bs, o, i)
    ensures i in v.table && i !in v.inodes.free && |v.table[i].direct| == DIRECT
  {
  }

  // ---- what a volume's bytes guarantee -------------------------------------------------

  /** The groups cover every block, and block numbers fit their type. */
  lemma {:induction false} BlocksCovered(m: Image)
    requires MirrorOk(m)
    ensures m.L.geo.blockCount <= Times(m.L.geo.groups, m.L.geo.groupBlocks) && m.L.geo.blockCount < U32_LIMIT
    ensures m.L.role[0] != Data
  {
    var geo := m.L.geo;
    hide Normalize, U16At, SbBytes, TableBytes, Quot, Times;
    GroupCountIsCeil(geo.blockCount, geo.groupBlocks);
    CeilBounds(geo.blockCount, geo.groupBlocks);
  }

  lemma {:induction false} RepData(m: Image, v: View)
    requires Rep(m, v)
    ensures DataFits(v.data, m.L.geo)
  {
    hide Plan.Ok, KindOk, TableOk, DescsOk, Normalize, U32At, U16At, SbBytes, TableBytes, Times;
    var geo := m.L.geo;
    RoleCount(m.L);
    BlocksCovered(m);
  }

  lemma {:induction false} RepTable(m: Image, v: View)
    requires Rep(m, v)
    ensures TableFits(v.table, m.L.geo)
  {
    var geo := m.L.geo;
    var per := geo.groupInodes;
    forall i | i in v.table ensures InodeOk(v.table[i], geo.inodeSize) && IsInode(m.L, i) {
      NumOf(per, i, geo.groups);
      assert v.table[Num(per, GroupOf(per, i), IndexOf(per, i))] == Decode(Slot(m, GroupOf(per, i), IndexOf(per, i)));
    }
  }

  /** The meaning of a volume's bytes passes the range and counter checks. */
  lemma {:induction false} RepSane(m: Image, v: View)
    requires Rep(m, v)
    ensures Sane(v, m.L.geo)
  {
    RepData(m, v);
    RepTable(m, v);
    RepFree(m, v);
    hide DataFits, TableFits, MirrorOk, DescsOk, TableOk, DataOk, Alloc.Ok;
  }

  lemma {:induction false} RepFree(m: Image, v: View)
    requires Rep(m, v)
    ensures forall b :: b in v.blocks.free ==> b in v.data
    ensures forall i :: i in v.inodes.free ==> i in v.table
  {
    hide Plan.Ok, MirrorOk, DescsOk, CountsOk, Num, Slot, Decode, Times;
    assert BitsOk(v.inodes.maps, m.L.geo.groupInodes, v.inodes.free);
  }
}
