/** Where runs start: a file system with nothing in it. */
module Fresh {
  import opened Bytes
  import opened Numbering
  import opened Layout
  import opened Inodes
  import opened State
  import opened Dirents
  import opened DirBlocks
  import opened Listings
  import opened Names
  import opened Effects
  import opened Fsck
  import FsckMake

  /** The root directory's inode is the only one that is named, and has one block, which
      holds "." and "..". */
  ghost predicate Empty(v: View, geo: Geometry, nb: u32) {
    && Sane(v, geo) && ROOT in v.table && ROOT !in v.inodes.free
    && IsDir(v.table[ROOT]) && v.table[ROOT].size == geo.blockSize && v.table[ROOT].direct[0] == nb
    && nb as nat in v.data && nb !in v.blocks.free
    && var s := v.data[nb as nat];
       Tiled(s, 0, |s|) && Entries(s, 0, |s|) == [Entry(ROOT, DOT), Entry(ROOT, DOTDOT)]
  }

  ghost function RootOnly(nb: u32): Catalog {
    Catalog(map[nb as nat := Place(ROOT, 0)], map[])
  }

  /** Such a volume is clean, whatever else is allocated. */
  lemma {:induction false} EmptyIsClean(v: View, geo: Geometry, nb: u32)
    requires Empty(v, geo, nb)
    ensures Ok(v, geo, RootOnly(nb))
    ensures TreeOf(v, geo.blockSize, {ROOT}) == map[ROOT := {Entry(ROOT, DOT), Entry(ROOT, DOTDOT)}]
  {
    var c := RootOnly(nb);
    assert c.Live() == {ROOT};
    hide Sane, Tiled, Entries, NamesOk, Holds, TreeOf;
    RootInode(v, geo);
    FsckMake.FreshDirHolds(v, geo.blockSize, c.owner, ROOT, ROOT, nb);
    RootTree(v, geo.blockSize);
  }

  lemma {:induction false} RootInode(v: View, geo: Geometry)
    requires Sane(v, geo) && ROOT in v.table
    ensures geo.blockSize > 0 && |v.table[ROOT].direct| == DIRECT && forall b :: b in v.data ==> |v.data[b]| == geo.blockSize
  {
  }

  lemma {:induction false} RootTree(v: View, bs: nat)
    requires bs > 0 && ROOT in v.table && IsDir(v.table[ROOT])
    requires Content(ListingOf(v.data, v.table[ROOT], bs)) == {Entry(ROOT, DOT), Entry(ROOT, DOTDOT)}
    ensures NamesOk(TreeOf(v, bs, {ROOT}), map[], ROOT)
    ensures TreeOf(v, bs, {ROOT}) == map[ROOT := {Entry(ROOT, DOT), Entry(ROOT, DOTDOT)}]
  {
    hide ListingOf, Content, IsDir;
    var t := TreeOf(v, bs, {ROOT});
    assert t.Keys == {ROOT} && t[ROOT] == {Entry(ROOT, DOT), Entry(ROOT, DOTDOT)};
  }
}
