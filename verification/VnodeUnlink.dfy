/** unlink: give up an inode's blocks and the inode, and remove its name. */
module VnodeUnlink {
  import opened Arith
  import opened Bytes
  import opened Numbering
  import opened Layout
  import opened Inodes
  import opened State
  import opened Volumes
  import opened Dirents
  import opened DirBlocks
  import opened Listings
  import opened Names
  import opened Effects
  import opened Fsck
  import opened FsckMake
  import opened Vnodes
  import opened VnodeDirs

  /** The scan of unlink: any entry other than "." and ".."? */
  method OnlyDots(buf: array<byte>) returns (bare: bool)
    requires Tiled(buf[..], 0, buf.Length)
    ensures bare <==> forall e :: e in Entries(buf[..], 0, buf.Length) ==> Dots(e.name)
  {
    hide Tiled, Entries, EntryAt, AllDots, RecLen, NameLen;
    ghost var s := buf[..];
    var off := 0;
    AllDotsIs(s);
    while off < buf.Length
      invariant off <= buf.Length && Tiled(s, off, |s|)
      invariant AllDots(s, 0) <==> AllDots(s, off)
      decreases buf.Length - off
    {
      RecordBounds(s, off, |s|);
      DotsStep(s, off);
      var name := EntryAt(buf[..], off).name;
      if name == DOT || name == DOTDOT {
        off := off + RecLen(buf[..], off);
      } else {
        return false;
      }
    }
    bare := true;
  }

  /** The entries from `off` on are called "." and "..". */
  ghost predicate AllDots(s: seq<byte>, off: nat)
    requires Tiled(s, off, |s|)
  {
    forall e :: e in Entries(s, off, |s|) ==> Dots(e.name)
  }

  lemma {:induction false} AllDotsIs(s: seq<byte>)
    requires Tiled(s, 0, |s|)
    ensures AllDots(s, 0) <==> forall e :: e in Entries(s, 0, |s|) ==> Dots(e.name)
    ensures Tiled(s, |s|, |s|) && AllDots(s, |s|)
  {
  }

  lemma {:induction false} DotsStep(s: seq<byte>, off: nat)
    requires Tiled(s, off, |s|) && off < |s| && off + HEADER <= |s| && off + HEADER + NameLen(s, off) as int <= |s|
    requires Tiled(s, off + RecLen(s, off), |s|)
    ensures AllDots(s, off) <==> Dots(EntryAt(s, off).name) && AllDots(s, off + RecLen(s, off))
  {
    FirstRecord(s, off, |s|);
    hide Tiled, EntryAt;
    var e, es := EntryAt(s, off), Entries(s, off + RecLen(s, off), |s|);
    assert e in [e] + es && forall f :: f in [e] + es <==> f == e || f in es;
  }

  /** Pointers from the i-th on are given back. */
  function ZeroedFrom(ps: seq<u32>, i: nat, n: nat): (r: seq<u32>)
    ensures |r| == |ps|
    ensures forall k {:trigger r[k]} :: 0 <= k < |ps| ==> r[k] == if i <= k < n then 0 else ps[k]
  {
    seq(|ps|, k requires 0 <= k < |ps| => if i <= k < n then 0 as u32 else ps[k])
  }

  ghost function BlocksFrom(inode: Inode, i: nat, n: nat): set<nat>
    requires n <= |inode.direct|
  {
    set k | i <= k < n :: inode.direct[k] as nat
  }

  /** From v, blocks i to n of inode x were given back, last one first, and the inode
      written each time. */
  ghost predicate FreedFrom(v: View, v': View, geo: Geometry, x: nat, inode: Inode, inode': Inode, i: nat, n: nat)
    requires geo.blockSize > 0 && i <= n <= |inode.direct|
  {
    && inode' == inode.(size := inode'.size, direct := ZeroedFrom(inode.direct, i, n))
    && inode'.size == Times(i, geo.blockSize)
    && Becomes(v, v', geo, v.blocks.free + BlocksFrom(inode, i, n), v.inodes.free,
               if i == n then v.table else v.table[x := inode'], v.data)
  }

  lemma {:induction false} FreedNext(v: View, v1: View, v2: View, geo: Geometry, x: nat, inode: Inode, i1: Inode, i2: Inode, i: nat, n: nat)
    requires geo.blockSize > 0 && 0 < i <= n <= |inode.direct| && FreedFrom(v, v1, geo, x, inode, i1, i, n)
    requires Times(i - 1, geo.blockSize) < U32_LIMIT
    requires BlockGiven(v1, v2, geo, x, i1.(size := Times(i - 1, geo.blockSize)), i2, i - 1)
    ensures FreedFrom(v, v2, geo, x, inode, i2, i - 1, n)
  {
    assert i2.direct == ZeroedFrom(inode.direct, i - 1, n);
    assert i1.direct[i - 1] == inode.direct[i - 1];
    assert BlocksFrom(inode, i - 1, n) == BlocksFrom(inode, i, n) + {inode.direct[i - 1] as nat};
    assert v.blocks.free + BlocksFrom(inode, i - 1, n) == v.blocks.free + BlocksFrom(inode, i, n) + {inode.direct[i - 1] as nat};
    assert v2.table == v.table[x := i2];
  }

  lemma {:induction false} FreedReady(v: View, v1: View, geo: Geometry, x: nat, inode: Inode, i1: Inode, i: nat, n: nat)
    requires geo.blockSize > 0 && 0 < i <= n <= |inode.direct| && FreedFrom(v, v1, geo, x, inode, i1, i, n)
    requires OwnBlocks(v, inode, geo.blockSize) && n == NBlocks(inode, geo.blockSize) && x in v.table
    requires InodeOk(inode, geo.inodeSize)
    ensures |i1.direct| == DIRECT && i1.direct[i - 1] as nat in v1.data && i1.direct[i - 1] !in v1.blocks.free
    ensures x in v1.table && i1.size == Times(i, geo.blockSize) && InodeOk(i1, geo.inodeSize)
    ensures Times(i, geo.blockSize) == geo.blockSize + Times(i - 1, geo.blockSize)
  {
  }

  lemma {:induction false} FreedNone(v: View, geo: Geometry, x: nat, inode: Inode, n: nat)
    requires Sane(v, geo) && n <= |inode.direct| && Times(n, geo.blockSize) < U32_LIMIT
    ensures FreedFrom(v, v, geo, x, inode, inode.(size := Times(n, geo.blockSize)), n, n)
  {
    assert ZeroedFrom(inode.direct, n, n) == inode.direct;
    assert v.blocks.free + BlocksFrom(inode, n, n) == v.blocks.free;
  }

  lemma {:induction false} SmallSize(inode: Inode, bs: nat, n: nat)
    requires 0 < bs <= 0x8000 && n <= DIRECT
    ensures Times(n, bs) < U32_LIMIT
  {
    TimesMono(n, DIRECT, bs);
    TimesIsProduct(DIRECT, bs);
  }

  /** All blocks given back: the inode is empty. */
  lemma {:induction false} FreedAll(v: View, v1: View, geo: Geometry, x: nat, inode: Inode, i1: Inode)
    requires geo.blockSize > 0 && NBlocks(inode, geo.blockSize) <= DIRECT == |inode.direct| && x in v.table && v.table[x] == inode
    requires FreedFrom(v, v1, geo, x, inode, i1, 0, NBlocks(inode, geo.blockSize))
    ensures i1 == Emptied(inode, geo.blockSize)
    ensures Becomes(v, v1, geo, v.blocks.free + BlockSet(inode, geo.blockSize), v.inodes.free,
                    v.table[x := Emptied(inode, geo.blockSize)], v.data)
  {
    var bs, n := geo.blockSize, NBlocks(inode, geo.blockSize);
    assert i1.direct == Emptied(inode, bs).direct;
    assert BlocksFrom(inode, 0, n) == BlockSet(inode, bs);
    if n == 0 {
      CeilBounds(inode.size, bs);
      assert i1.direct == inode.direct;
      assert v.table[x := i1] == v.table;
    }
  }

  /** One round of unlink's loop. */
  method FreeOne(fs: Volume, vn: Vnode, i: nat, n: nat, ghost v: View, ghost inode: Inode)
    requires fs.Valid() && fs.geo.blockSize > 0 && i < n <= |inode.direct|
    requires OwnBlocks(v, inode, fs.geo.blockSize) && n == NBlocks(inode, fs.geo.blockSize)
    requires vn.ino as nat in v.table && InodeOk(inode, fs.geo.inodeSize)
    requires FreedFrom(v, fs.view, fs.geo, vn.ino as nat, inode, vn.inode, i + 1, n)
    modifies fs, vn
    ensures fs.Valid() && FreedFrom(v, fs.view, fs.geo, vn.ino as nat, inode, vn.inode, i, n)
  {
    hide OwnBlocks, FreedFrom, Sane, InodeOk, BlockGiven, Rep, Becomes, Emptied;
    OwnKnown(v, inode, fs.geo.blockSize);
    FreedReady(v, fs.view, fs.geo, vn.ino as nat, inode, vn.inode, i + 1, n);
    ghost var v1, i1 := fs.view, vn.inode;
    vn.inode := vn.inode.(size := vn.inode.size - fs.geo.blockSize);
    SameInodeOk(i1, vn.inode, fs.geo.inodeSize);
    var _ := FreeInodeBlock(fs, vn, i);
    FreedNext(v, v1, fs.view, fs.geo, vn.ino as nat, inode, i1, vn.inode, i + 1, n);
  }

  /** unlink's loop: the blocks go back from the last to the first. */
  method FreeBlocks(fs: Volume, vn: Vnode)
    requires fs.Valid() && fs.geo.blockSize > 0 && vn.Synced(fs) && OwnBlocks(fs.view, vn.inode, fs.geo.blockSize)
    modifies fs, vn
    ensures fs.Valid() && vn.Synced(fs) && vn.inode == Emptied(old(vn.inode), fs.geo.blockSize)
    ensures Becomes(old(fs.view), fs.view, fs.geo,
                    old(fs.view).blocks.free + BlockSet(old(vn.inode), fs.geo.blockSize), old(fs.view).inodes.free,
                    old(fs.view).table[vn.ino as nat := vn.inode], old(fs.view).data)
  {
    hide *;
    ghost var v, inode, x := fs.view, vn.inode, vn.ino as nat;
    OwnKnown(v, inode, fs.geo.blockSize);
    SyncedMeans(fs, vn);
    VolumeSane(fs);
    GeometryBounds(fs);
    ShapesOk(fs, vn);
    var nblocks := NBlocks(vn.inode, fs.geo.blockSize);
    SmallSize(inode, fs.geo.blockSize, nblocks);
    WordLimit();
    FreedNone(v, fs.geo, x, inode, nblocks);
    vn.inode := vn.inode.(size := Times(nblocks, fs.geo.blockSize));
    var i := nblocks;
    while i > 0
      invariant 0 <= i <= nblocks && fs.Valid()
      invariant FreedFrom(v, fs.view, fs.geo, x, inode, vn.inode, i, nblocks)
    {
      i := i - 1;
      FreeOne(fs, vn, i, nblocks, v, inode);
    }
    FreedAll(v, fs.view, fs.geo, x, inode, vn.inode);
    BecomesTable(v, fs.view, fs.geo, x, inode);
    MakeSynced(fs, vn);
  }

  lemma {:induction false} WordLimit()
    ensures U32_LIMIT == 0x1_0000_0000
  {
  }

  lemma {:induction false} SyncedMeans(fs: Volume, vn: Vnode)
    requires vn.Synced(fs)
    ensures vn.ino as nat in fs.view.table && fs.view.table[vn.ino as nat] == vn.inode
  {
  }

  lemma {:induction false} MakeSynced(fs: Volume, vn: Vnode)
    requires vn.ino as nat in fs.view.table && fs.view.table[vn.ino as nat] == vn.inode
    ensures vn.Synced(fs)
  {
  }

  lemma {:induction false} BecomesTable(v: View, v1: View, geo: Geometry, x: nat, inode: Inode)
    requires geo.blockSize > 0 && Becomes(v, v1, geo, v.blocks.free + BlockSet(inode, geo.blockSize), v.inodes.free,
                     v.table[x := Emptied(inode, geo.blockSize)], v.data)
    ensures x in v1.table && v1.table[x] == Emptied(inode, geo.blockSize)
  {
  }

  lemma {:induction false} OwnKnown(v: View, inode: Inode, bs: nat)
    requires bs > 0 && OwnBlocks(v, inode, bs)
    ensures NBlocks(inode, bs) <= DIRECT == |inode.direct|
  {
  }

  /** What unlink relies on: the inode and its blocks are in use, the directory it is named
      in is another one with other blocks, and if it is a directory itself it is tiled. */
  ghost predicate Removable(v: View, geo: Geometry, at: nat, dir: Inode, x: nat, inode: Inode)
    requires geo.blockSize > 0
  {
    && at != x && x in v.table && x !in v.inodes.free
    && OwnBlocks(v, inode, geo.blockSize) && DirShape(v.data, dir, geo.blockSize)
    && (forall k :: 0 <= k < NBlocks(dir, geo.blockSize) ==>
          dir.direct[k] !in v.blocks.free && dir.direct[k] as nat !in BlockSet(inode, geo.blockSize))
    && (IsDir(inode) ==> DirShape(v.data, inode, geo.blockSize))
  }

  lemma {:induction false} RemovableParts(v: View, geo: Geometry, at: nat, dir: Inode, x: nat, inode: Inode)
    requires geo.blockSize > 0 && Removable(v, geo, at, dir, x, inode)
    ensures at != x && x in v.table && x !in v.inodes.free && OwnBlocks(v, inode, geo.blockSize)
    ensures DirShape(v.data, dir, geo.blockSize) && (IsDir(inode) ==> DirShape(v.data, inode, geo.blockSize))
  {
  }

  /** One block of directory: its entries are the listing. */
  lemma {:induction false} OneBlockListing(data: Data, inode: Inode, bs: nat)
    requires bs > 0 && DirShape(data, inode, bs)
    ensures inode.size <= bs <==> NBlocks(inode, bs) == 1
    ensures inode.size <= bs ==> ListingOf(data, inode, bs) == PartAt(data, inode.direct[0])
  {
    TimesOne(bs);
    if NBlocks(inode, bs) > 1 {
      TimesMono(2, NBlocks(inode, bs), bs);
      TimesAdd(1, 1, bs);
    } else {
      var ds := Parts(data, inode, bs);
      assert Flat(ds, 0) == [] && Flat(ds, 1) == Flat(ds, 0) + ds[0];
    }
  }

  /** Reading the first block of a directory shows whether it is bare. */
  lemma {:induction false} BareIfDots(v: View, bs: nat, x: nat)
    requires bs > 0 && x in v.table && IsDir(v.table[x]) && DirShape(v.data, v.table[x], bs) && v.table[x].size <= bs
    ensures Bare(v, bs, x) <==> forall e :: e in PartAt(v.data, v.table[x].direct[0]) ==> Dots(e.name)
  {
    OneBlockListing(v.data, v.table[x], bs);
  }

  /** The check unlink makes of a directory. */
  method CheckBare(fs: Volume, vn: Vnode) returns (bare: bool)
    requires fs.Valid() && fs.geo.blockSize > 0 && vn.Synced(fs) && IsDir(vn.inode)
    requires DirShape(fs.view.data, vn.inode, fs.geo.blockSize)
    ensures bare <==> vn.inode.size <= fs.geo.blockSize && Bare(fs.view, fs.geo.blockSize, vn.ino as nat)
  {
    hide Rep, DirShape, PointersOk, FoundBlock, PartAt, Tiled, Entries, Dots, Bare;
    if vn.inode.size > fs.geo.blockSize {
      return false;
    }
    NoBlockZero(fs);
    BareIfDots(fs.view, fs.geo.blockSize, vn.ino as nat);
    ShapeKnown(fs.view.data, vn.inode, fs.geo.blockSize);
    DirBlockAt(fs.view.data, vn.inode, fs.geo.blockSize, 0);
    var buf := new byte[fs.geo.blockSize];
    var _ := ReadInodeBlock(fs, vn.inode, 0, buf);
    bare := OnlyDots(buf);
  }

  lemma {:induction false} VacateSteps(v: View, v1: View, v2: View, geo: Geometry, x: nat)
    requires Sane(v1, geo) && x in v.table && x !in v.inodes.free
    requires Becomes(v, v1, geo, v.blocks.free + BlockSet(v.table[x], geo.blockSize), v.inodes.free,
                     v.table[x := Emptied(v.table[x], geo.blockSize)], v.data)
    requires v2 == v1.With(Kind.Inodes, v1.inodes.Give(geo.groupInodes, x))
    ensures Vacates(v, v2, geo, x)
  {
    InodeInRange(v1, geo, x);
    hide Sane, Moved, Alloc.Give, Emptied, BlockSet;
    GiveBecomes(v1, geo, Kind.Inodes, x);
  }

  lemma {:induction false} InodeInRange(v: View, geo: Geometry, x: nat)
    requires Sane(v, geo) && x in v.table
    ensures 1 <= x <= Times(geo.groups, geo.groupInodes)
  {
  }

  /** After the inode has gone the directory is as it was. */
  lemma {:induction false} DirRemains(v: View, v1: View, geo: Geometry, at: nat, dir: Inode, x: nat, inode: Inode)
    requires geo.blockSize > 0 && Removable(v, geo, at, dir, x, inode) && v.table[x] == inode
    requires at in v.table && v.table[at] == dir && Vacates(v, v1, geo, x)
    ensures at in v1.table && v1.table[at] == dir && v1.data == v.data && DirShape(v1.data, dir, geo.blockSize)
    ensures forall k :: 0 <= k < NBlocks(dir, geo.blockSize) ==> dir.direct[k] !in v1.blocks.free
  {
  }

  /** ext2_vnode_unlink. -EISDIR exactly if vn is a directory of more than one block or that
      holds more than "." and ".."; otherwise vn's blocks and inode go back and the name
      leaves the directory (-EIO exactly if it was not there). */
  method Unlink(fs: Volume, at: Vnode, vn: Vnode, name: Name) returns (res: int, ghost vm: View, ghost edit: Edit)
    requires fs.Valid() && fs.geo.blockSize > 0 && at != vn && at.Synced(fs) && vn.Synced(fs)
    requires Removable(fs.view, fs.geo, at.ino as nat, at.inode, vn.ino as nat, vn.inode)
    requires Lookup(ListingOf(fs.view.data, at.inode, fs.geo.blockSize), name) in {0, vn.ino}
    modifies fs, at, vn
    ensures fs.Valid() && at.Synced(fs)
    ensures res == EISDIR <==> IsDir(old(vn.inode))
                               && (old(vn.inode).size > fs.geo.blockSize || !Bare(old(fs.view), fs.geo.blockSize, vn.ino as nat))
    ensures res == EISDIR ==> fs.view == old(fs.view) && at.inode == old(at.inode) && vn.inode == old(vn.inode)
    ensures res == 0 ==> Unlinks(old(fs.view), vm, fs.view, fs.geo, at.ino as nat, Entry(vn.ino, name), edit)
    ensures res != 0 && res != EISDIR ==> res == EIO && Vacates(old(fs.view), fs.view, fs.geo, vn.ino as nat)
    ensures res == EIO <==> res != EISDIR && Unnamed(ListingOf(old(fs.view).data, old(at.inode), fs.geo.blockSize), name)
  {
    hide Rep, Sane, Removable, Becomes, OwnBlocks, DirShape, Bare, Vacates, Leaves, Alloc.Give, Emptied, BlockSet, UnnamedBefore, IsDir, Unnamed, Lookup, ListingOf;
    ghost var v, dir, inode := fs.view, at.inode, vn.inode;
    vm := v;
    RemovableParts(v, fs.geo, at.ino as nat, dir, vn.ino as nat, inode);
    if IsDir(vn.inode) {
      var bare := CheckBare(fs, vn);
      if !bare {
        return EISDIR, vm, Drop(0);
      }
    } else {
      FileBare(v, fs.geo.blockSize, vn.ino as nat);
    }
    FreeBlocks(fs, vn);
    ghost var v1 := fs.view;
    VolumeSane(fs);
    StillUsed(v, v1, fs.geo, vn.ino as nat, inode);
    res := fs.Free(Kind.Inodes, vn.ino);
    vm := fs.view;
    VacateSteps(v, v1, vm, fs.geo, vn.ino as nat);
    DirRemains(v, vm, fs.geo, at.ino as nat, dir, vn.ino as nat, inode);
    res, edit := RemoveName(fs, at, name, vn.ino);
    if res >= 0 {
      res := 0;
    }
  }

  lemma {:induction false} FileBare(v: View, bs: nat, x: nat)
    requires bs > 0 && x in v.table && !IsDir(v.table[x])
    ensures Bare(v, bs, x)
  {
  }

  lemma {:induction false} StillUsed(v: View, v1: View, geo: Geometry, x: nat, inode: Inode)
    requires geo.blockSize > 0 && Sane(v1, geo) && x in v.table && x !in v.inodes.free
    requires Becomes(v, v1, geo, v.blocks.free + BlockSet(inode, geo.blockSize), v.inodes.free,
                     v.table[x := Emptied(inode, geo.blockSize)], v.data)
    ensures 1 <= x <= Times(geo.groups, geo.groupInodes) && x !in v1.inodes.free
  {
    assert x in v1.table;
  }
}
