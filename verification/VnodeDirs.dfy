/** Directory operations of the vnode layer: adding and removing names. */
module VnodeDirs {
  import opened Arith
  import opened Bytes
  import opened Numbering
  import opened Layout
  import opened Inodes
  import opened State
  import opened Volumes
  import opened Dirents
  import opened DirBlocks
  import opened Listings
  import opened Effects
  import opened Fsck
  import opened Vnodes

  lemma {:induction false} DirBlockAt(data: Data, inode: Inode, bs: nat, k: nat)
    requires bs > 0 && DirShape(data, inode, bs) && k < NBlocks(inode, bs)
    ensures k < |inode.direct| && inode.direct[k] as nat in data
    ensures var s := data[inode.direct[k] as nat];
            |s| == bs && Tiled(s, 0, |s|) && PartAt(data, inode.direct[k]) == Entries(s, 0, |s|)
    ensures PointersOk(data, inode, bs, k) && FoundBlock(data, inode, bs, k) == inode.direct[k]
  {
    assert BlockTiled(data, inode.direct[k], bs);
  }

  lemma {:induction false} NoBlockZero(fs: Volume)
    requires fs.Valid()
    ensures 0 !in fs.view.data
  {
    VolumeSane(fs);
    hide Rep;
  }

  /** Block k of the directory has a record that can give up the room for e. */
  ghost predicate RoomAt(data: Data, inode: Inode, bs: nat, name: Name, reserved: nat, k: nat)
    requires bs > 0 && DirShape(data, inode, bs) && k < NBlocks(inode, bs)
  {
    DirBlockAt(data, inode, bs, k);
    HasRoom(data[inode.direct[k] as nat], 0, AlignUp(|name| + HEADER), reserved)
  }

  ghost predicate NoRoomBefore(data: Data, inode: Inode, bs: nat, name: Name, reserved: nat, k: nat)
    requires bs > 0 && DirShape(data, inode, bs) && k <= NBlocks(inode, bs)
  {
    forall j: nat :: j < k ==> !RoomAt(data, inode, bs, name, reserved, j)
  }

  /** Where the driver puts e: into the first block with room, or into a new one if there is
      none. */
  ghost predicate FirstRoom(data: Data, inode: Inode, bs: nat, name: Name, reserved: nat, edit: Edit)
    requires bs > 0 && DirShape(data, inode, bs)
  {
    match edit
    case Rewrite(k, _) =>
      && k < NBlocks(inode, bs) && RoomAt(data, inode, bs, name, reserved, k)
      && NoRoomBefore(data, inode, bs, name, reserved, k)
    case Extend(b, _) => NoRoomBefore(data, inode, bs, name, reserved, NBlocks(inode, bs))
    case Drop(_) => false
  }

  /** The bytes of block k. */
  ghost function BlockBytes(data: Data, inode: Inode, k: nat): seq<byte> {
    if k < |inode.direct| && inode.direct[k] as nat in data then data[inode.direct[k] as nat] else []
  }

  /** In bytes: some record of some block has room for a name of n bytes. */
  ghost predicate TakesName(data: Data, inode: Inode, bs: nat, n: nat, reserved: nat)
    requires bs > 0
  {
    exists k: nat, off: nat :: k < NBlocks(inode, bs) && TakesAt(BlockBytes(data, inode, k), off, n, reserved)
  }

  lemma {:induction false} TakesIsRoom(data: Data, inode: Inode, bs: nat, name: Name, reserved: nat)
    requires bs > 0 && DirShape(data, inode, bs)
    ensures TakesName(data, inode, bs, |name|, reserved) <==> !NoRoomBefore(data, inode, bs, name, reserved, NBlocks(inode, bs))
  {
    hide HasRoom, TakesAt, DirShape, AlignUp, Tiled, PartAt, PointersOk, FoundBlock;
    forall k: nat | k < NBlocks(inode, bs)
      ensures RoomAt(data, inode, bs, name, reserved, k) <==> exists off :: TakesAt(BlockBytes(data, inode, k), off, |name|, reserved)
    {
      DirBlockAt(data, inode, bs, k);
      var s := data[inode.direct[k] as nat];
      assert BlockBytes(data, inode, k) == s;
      RoomExact(s, |name|, reserved);
    }
  }

  lemma {:induction false} RewriteEnters(v: View, geo: Geometry, d: nat, e: Entry, k: nat, s: seq<byte>)
    requires Sane(v, geo) && d in v.table && DirShape(v.data, v.table[d], geo.blockSize) && k < NBlocks(v.table[d], geo.blockSize)
    requires v.table[d].direct[k] as nat in v.data && AddedTo(v.data[v.table[d].direct[k] as nat], s, e)
    ensures Enters(v, v.(data := v.data[v.table[d].direct[k] as nat := s]), geo, d, e, Rewrite(k, s))
  {
    assert k < |v.table[d].direct|;
    hide AddedTo, Sane, Moved, DirShape;
    WriteBecomes(v, geo, v.table, v.data[v.table[d].direct[k] as nat := s]);
    assert v.table[d := v.table[d]] == v.table;
  }

  lemma {:induction false} ExtendEnters(v: View, v1: View, geo: Geometry, d: nat, e: Entry, inode': Inode, b: nat, s: seq<byte>)
    requires Sane(v, geo) && d in v.table && DirShape(v.data, v.table[d], geo.blockSize) && NBlocks(v.table[d], geo.blockSize) < DIRECT
    requires var inode := v.table[d];
             && inode.size + geo.blockSize < U32_LIMIT
             && BlockTaken(v, v1, geo, d, inode.(size := inode.size + geo.blockSize), inode', NBlocks(inode, geo.blockSize), b)
    requires Sane(v1, geo) && |s| == geo.blockSize && Tiled(s, 0, |s|) && Entries(s, 0, |s|) == [e]
    ensures Enters(v, v1.(data := v1.data[b := s]), geo, d, e, Extend(b, s))
    ensures inode' == EditInode(v.table[d], geo.blockSize, Extend(b, s))
  {
    var inode, bs := v.table[d], geo.blockSize;
    assert EntersBy(v.data, v.blocks.free, inode, bs, e, Extend(b, s));
    assert inode' == EditInode(inode, bs, Extend(b, s));
    hide Sane, Moved, DirShape, EntersBy, EditInode, Tiled, Entries;
    WriteBecomes(v1, geo, v1.table, v1.data[b := s]);
    assert v1.(data := v1.data[b := s]) == v1.(table := v1.table, data := v1.data[b := s]);
  }

  lemma {:induction false} SizeFits(inode: Inode, bs: nat)
    requires 0 < bs <= 0x8000 && NBlocks(inode, bs) < DIRECT && inode.size == Times(NBlocks(inode, bs), bs)
    ensures inode.size + bs < U32_LIMIT
  {
    TimesMono(NBlocks(inode, bs), 11, bs);
    TimesIsProduct(11, bs);
  }

  lemma {:induction false} TakenKnown(v: View, v1: View, geo: Geometry, d: nat, inode: Inode, inode': Inode, n: nat, b: nat)
    requires Sane(v, geo) && BlockTaken(v, v1, geo, d, inode, inode', n, b)
    ensures b < U32_LIMIT && n < |inode'.direct| && inode'.direct[n] == b && b in v1.data && |inode'.direct| == |inode.direct|
  {
  }

  /** The part of ext2_dir_add_inode that adds a block. */
  method AddBlock(fs: Volume, dir: Vnode, buf: array<byte>, n: nat, e: Entry) returns (res: int, ghost edit: Edit)
    requires fs.Valid() && fs.geo.blockSize > 0 && dir.Synced(fs) && buf.Length == fs.geo.blockSize
    requires DirShape(fs.view.data, dir.inode, fs.geo.blockSize) && n == NBlocks(dir.inode, fs.geo.blockSize) < DIRECT
    requires |e.name| < 0x100 && e.ino != 0
    modifies fs, dir, buf
    ensures fs.Valid() && dir.Synced(fs)
    ensures res >= 0 ==> edit.Extend? && Enters(old(fs.view), fs.view, fs.geo, dir.ino as nat, e, edit)
    ensures res < 0 ==> res == ENOSPC && fs.view == old(fs.view) && dir.inode == old(dir.inode)
    ensures res < 0 <==> old(fs.view).blocks.free == {}
  {
    hide DirShape, Rep, Sane, Enters, Tiled, Entries, BlockTaken;
    ghost var v, inode := fs.view, dir.inode;
    var bs := fs.geo.blockSize;
    GeometryBounds(fs);
    VolumeSane(fs);
    ShapeKnown(v.data, inode, bs);
    SizeFits(inode, bs);
    ShapesOk(fs, dir);
    dir.inode := dir.inode.(size := dir.inode.size + bs);
    ghost var no;
    res, no := AllocInodeBlock(fs, dir, n);
    if res < 0 {
      dir.inode := dir.inode.(size := dir.inode.size - bs);
      return res, Drop(0);
    }
    ghost var v1 := fs.view;
    VolumeSane(fs);
    TakenKnown(v, v1, fs.geo, dir.ino as nat, inode.(size := inode.size + bs), dir.inode, n, no);
    FormatEntry(buf, e);
    edit := Extend(no, buf[..]);
    ExtendEnters(v, v1, fs.geo, dir.ino as nat, e, dir.inode, no, buf[..]);
    EntersTable(v, fs.geo, dir.ino as nat, e, edit, v1.(data := v1.data[no := buf[..]]));
    res := WriteInodeBlock(fs, dir.inode, n, buf);
  }

  lemma {:induction false} EntersTable(v: View, geo: Geometry, d: nat, e: Entry, edit: Edit, v': View)
    requires geo.blockSize > 0 && Enters(v, v', geo, d, e, edit)
    ensures d in v.table && d in v'.table && v'.table[d] == EditInode(v.table[d], geo.blockSize, edit)
  {
  }

  /** ext2_dir_add_inode. The directory has room or fewer than the twelve blocks the driver
      can add to. */
  method AddName(fs: Volume, dir: Vnode, e: Entry, reserved: nat) returns (res: int, ghost edit: Edit)
    requires fs.Valid() && fs.geo.blockSize > 0 && dir.Synced(fs)
    requires DirShape(fs.view.data, dir.inode, fs.geo.blockSize)
    requires 1 <= |e.name| < 0x100 && e.ino != 0 && reserved >= HEADER
    requires NBlocks(dir.inode, fs.geo.blockSize) == DIRECT ==>
               !NoRoomBefore(fs.view.data, dir.inode, fs.geo.blockSize, e.name, reserved, DIRECT)
    modifies fs, dir
    ensures fs.Valid() && dir.Synced(fs)
    ensures res >= 0 ==>
              && Enters(old(fs.view), fs.view, fs.geo, dir.ino as nat, e, edit)
              && FirstRoom(old(fs.view).data, old(dir.inode), fs.geo.blockSize, e.name, reserved, edit)
    ensures res < 0 ==>
              && res == ENOSPC && fs.view == old(fs.view) && dir.inode == old(dir.inode)
              && fs.view.blocks.free == {}
              && NoRoomBefore(fs.view.data, dir.inode, fs.geo.blockSize, e.name, reserved, NBlocks(dir.inode, fs.geo.blockSize))
    ensures TakesName(old(fs.view).data, old(dir.inode), fs.geo.blockSize, |e.name|, reserved) ==>
              res >= 0 && edit.Rewrite? && dir.inode == old(dir.inode) && fs.view == old(fs.view).(data := fs.view.data)
    ensures !TakesName(old(fs.view).data, old(dir.inode), fs.geo.blockSize, |e.name|, reserved) ==>
              (res < 0 <==> old(fs.view).blocks.free == {}) && (res >= 0 ==> edit.Extend?)
  {
    hide DirShape, Rep, Sane, Enters, AddedTo, HasRoom, Tiled, Entries, BlockTaken, PartAt, PointersOk, FoundBlock, TakesAt, TakesName, FirstSplit;
    ghost var v, inode := fs.view, dir.inode;
    TakesIsRoom(v.data, inode, fs.geo.blockSize, e.name, reserved);
    var bs := fs.geo.blockSize;
    GeometryBounds(fs);
    NoBlockZero(fs);
    VolumeSane(fs);
    var buf := new byte[bs];
    var n := NBlocks(dir.inode, bs);
    var i := 0;
    while i < n
      invariant i <= n && fs.Valid() && fs.view == v && dir.inode == inode
      invariant NoRoomBefore(v.data, inode, bs, e.name, reserved, i)
    {
      DirBlockAt(v.data, inode, bs, i);
      res := ReadInodeBlock(fs, dir.inode, i, buf);
      var added := AddToBlock(buf, e, reserved);
      if added {
        edit := Rewrite(i, buf[..]);
        RewriteEnters(v, fs.geo, dir.ino as nat, e, i, buf[..]);
        res := WriteInodeBlock(fs, dir.inode, i, buf);
        return 0, edit;
      }
      i := i + 1;
    }
    ShapeKnown(v.data, inode, bs);
    res, edit := AddBlock(fs, dir, buf, n, e);
  }

  lemma {:induction false} ShapeKnown(data: Data, inode: Inode, bs: nat)
    requires bs > 0 && DirShape(data, inode, bs)
    ensures |inode.direct| == DIRECT && 1 <= NBlocks(inode, bs) <= DIRECT && inode.size == Times(NBlocks(inode, bs), bs)
  {
  }

  lemma {:induction false} ShapesOk(fs: Volume, vn: Vnode)
    requires fs.Valid() && vn.Synced(fs)
    ensures InodeOk(vn.inode, fs.geo.inodeSize)
  {
    VolumeSane(fs);
    hide Rep;
  }

  // ---- removal -------------------------------------------------------------------------

  /** ext2_free_block_index's loop: the pointers after the k-th move down. */
  method ShiftPointers(vn: Vnode, index: nat)
    requires |vn.inode.direct| == DIRECT && index < DIRECT
    modifies vn
    ensures vn.inode == old(vn.inode).(direct := Shifted(old(vn.inode).direct, index))
  {
    ghost var inode := vn.inode;
    var i := index;
    while i < DIRECT - 1
      invariant index <= i <= DIRECT - 1 && |vn.inode.direct| == DIRECT
      invariant vn.inode == inode.(direct := vn.inode.direct)
      invariant forall j :: 0 <= j < DIRECT ==> vn.inode.direct[j] == inode.direct[if index <= j < i then j + 1 else j]
    {
      vn.inode := vn.inode.(direct := vn.inode.direct[i := vn.inode.direct[i + 1]]);
      i := i + 1;
    }
    vn.inode := vn.inode.(direct := vn.inode.direct[DIRECT - 1 := 0]);
    assert vn.inode.direct == Shifted(inode.direct, index);
  }

  lemma {:induction false} DropLeaves(v: View, v1: View, geo: Geometry, d: nat, name: Name, k: nat)
    requires Sane(v, geo) && d in v.table && LeavesBy(v.data, v.table[d], geo.blockSize, name, Drop(k))
    requires k < |v.table[d].direct| && v.table[d].direct[k] as nat in v.data && v.table[d].direct[k] !in v.blocks.free
    requires v1 == v.With(Blocks, v.blocks.Give(geo.groupBlocks, v.table[d].direct[k])) && Sane(v1, geo)
    ensures Leaves(v, v1.(table := v1.table[d := EditInode(v.table[d], geo.blockSize, Drop(k))]), geo, d, name, Drop(k))
  {
    var inode', b := EditInode(v.table[d], geo.blockSize, Drop(k)), v.table[d].direct[k] as nat;
    DataInRange(v, geo, b);
    assert EditFree(v.blocks.free, v.table[d], Drop(k)) == v.blocks.free + {b};
    assert EditData(v.data, v.table[d], Drop(k)) == v.data;
    hide Sane, Moved, LeavesBy, EditInode, Alloc.Give, EditFree, EditData;
    GiveBecomes(v, geo, Blocks, b);
    WriteBecomes(v1, geo, v1.table[d := inode'], v1.data);
    assert v1.(table := v1.table[d := inode']) == v1.(table := v1.table[d := inode'], data := v1.data);
  }

  /** ext2_free_block_index: free block `index` and remove it from the pointers. */
  method DropBlock(fs: Volume, dir: Vnode, index: nat, ghost name: Name) returns (res: int)
    requires fs.Valid() && fs.geo.blockSize > 0 && dir.Synced(fs)
    requires LeavesBy(fs.view.data, dir.inode, fs.geo.blockSize, name, Drop(index))
    requires index < |dir.inode.direct| && dir.inode.direct[index] !in fs.view.blocks.free
    modifies fs, dir
    ensures fs.Valid() && dir.Synced(fs) && res == 0
    ensures Leaves(old(fs.view), fs.view, fs.geo, dir.ino as nat, name, Drop(index))
  {
    hide LeavesBy, Leaves, Rep, Sane, InodeOk, Alloc.Give, EditInode, Plan.Ok;
    ghost var v, inode := fs.view, dir.inode;
    var bs := fs.geo.blockSize;
    DropKnown(v.data, inode, bs, name, index);
    VolumeSane(fs);
    DataInRange(v, fs.geo, inode.direct[index]);
    ShapesOk(fs, dir);
    res := fs.Free(Blocks, dir.inode.direct[index]);
    ghost var v1 := fs.view;
    VolumeSane(fs);
    ShiftPointers(dir, index);
    dir.inode := dir.inode.(size := dir.inode.size - bs);
    SameInodeOk(inode, dir.inode, fs.geo.inodeSize);
    fs.WriteInode(dir.inode, dir.ino);
    DropLeaves(v, v1, fs.geo, dir.ino as nat, name, index);
  }

  lemma {:induction false} DropKnown(data: Data, inode: Inode, bs: nat, name: Name, k: nat)
    requires bs > 0 && LeavesBy(data, inode, bs, name, Drop(k))
    ensures |inode.direct| == DIRECT && k < DIRECT && inode.direct[k] as nat in data && bs <= inode.size
    ensures EditInode(inode, bs, Drop(k)) == inode.(direct := Shifted(inode.direct, k), size := inode.size - bs)
  {
    ShrinkSpan(inode, bs, NBlocks(inode, bs), k);
    assert BlockTiled(data, inode.direct[k], bs);
  }

  lemma {:induction false} RewriteLeaves(v: View, geo: Geometry, d: nat, name: Name, k: nat, s: seq<byte>)
    requires Sane(v, geo) && d in v.table && LeavesBy(v.data, v.table[d], geo.blockSize, name, Rewrite(k, s))
    requires k < |v.table[d].direct|
    ensures Leaves(v, v.(data := v.data[v.table[d].direct[k] as nat := s]), geo, d, name, Rewrite(k, s))
  {
    hide LeavesBy, Sane, Moved;
    WriteBecomes(v, geo, v.table, v.data[v.table[d].direct[k] as nat := s]);
    assert v.table[d := v.table[d]] == v.table;
  }

  /** No block before the k-th names it. */
  ghost predicate UnnamedBefore(data: Data, inode: Inode, name: Name, k: nat)
    requires k <= |inode.direct|
  {
    forall j :: 0 <= j < k ==> Unnamed(PartAt(data, inode.direct[j]), name)
  }

  /** The pass of ext2_dir_remove_inode over block k; `done` if the name was there. */
  method RemoveAt(fs: Volume, dir: Vnode, buf: array<byte>, k: nat, name: Name, ino: u32) returns (done: bool, res: int, ghost edit: Edit)
    requires fs.Valid() && fs.geo.blockSize > 0 && dir.Synced(fs) && buf.Length == fs.geo.blockSize
    requires DirShape(fs.view.data, dir.inode, fs.geo.blockSize) && k < NBlocks(dir.inode, fs.geo.blockSize) <= |dir.inode.direct|
    requires dir.inode.direct[k] !in fs.view.blocks.free && UnnamedBefore(fs.view.data, dir.inode, name, k)
    requires Lookup(PartAt(fs.view.data, dir.inode.direct[k]), name) in {0, ino}
    modifies fs, dir, buf
    ensures fs.Valid() && dir.Synced(fs)
    ensures done <==> Lookup(PartAt(old(fs.view).data, old(dir.inode).direct[k]), name) != 0
    ensures done ==> res >= 0 && Leaves(old(fs.view), fs.view, fs.geo, dir.ino as nat, name, edit)
    ensures !done ==>
              && fs.view == old(fs.view) && dir.inode == old(dir.inode)
              && UnnamedBefore(old(fs.view).data, old(dir.inode), name, k + 1)
  {
    hide DirShape, Rep, Sane, Leaves, LeavesBy, RemovedFrom, Tiled, Entries, PartAt, PointersOk, FoundBlock, Unnamed, UnnamedBefore, Lookup;
    ghost var v, inode := fs.view, dir.inode;
    var bs := fs.geo.blockSize;
    GeometryBounds(fs);
    NoBlockZero(fs);
    DirBlockAt(v.data, inode, bs, k);
    res := ReadInodeBlock(fs, dir.inode, k, buf);
    var r := RemoveFromBlock(buf, name, ino);
    match r {
      case Absent =>
        UnnamedNext(v.data, inode, name, k);
        return false, 0, Drop(0);
      case Sole =>
        SoleLeaves(v.data, inode, bs, name, k);
        res := DropBlock(fs, dir, k, name);
        return true, res, Drop(k);
      case Gone =>
        GoneLeaves(v.data, inode, bs, name, k, buf[..]);
        VolumeSane(fs);
        ShapeKnown(v.data, inode, bs);
        RewriteLeaves(v, fs.geo, dir.ino as nat, name, k, buf[..]);
        edit := Rewrite(k, buf[..]);
        res := WriteInodeBlock(fs, dir.inode, k, buf);
        return true, res, edit;
    }
  }

  /** ext2_dir_remove_inode: the first entry of this name goes, or -EIO if and only if there
      is none. If there is one it must stand for `ino`. */
  method RemoveName(fs: Volume, dir: Vnode, name: Name, ino: u32) returns (res: int, ghost edit: Edit)
    requires fs.Valid() && fs.geo.blockSize > 0 && dir.Synced(fs)
    requires DirShape(fs.view.data, dir.inode, fs.geo.blockSize)
    requires Lookup(ListingOf(fs.view.data, dir.inode, fs.geo.blockSize), name) in {0, ino}
    requires forall k :: 0 <= k < NBlocks(dir.inode, fs.geo.blockSize) ==> dir.inode.direct[k] !in fs.view.blocks.free
    modifies fs, dir
    ensures fs.Valid() && dir.Synced(fs)
    ensures res >= 0 ==> Leaves(old(fs.view), fs.view, fs.geo, dir.ino as nat, name, edit)
    ensures res < 0 ==> res == EIO && fs.view == old(fs.view) && dir.inode == old(dir.inode)
    ensures res < 0 <==> Unnamed(ListingOf(old(fs.view).data, old(dir.inode), fs.geo.blockSize), name)
  {
    hide DirShape, Rep, Leaves, UnnamedBefore, Lookup, Unnamed, PartAt, InUse;
    ghost var v, inode := fs.view, dir.inode;
    ghost var ds := Parts(v.data, inode, fs.geo.blockSize);
    ShapeKnown(v.data, inode, fs.geo.blockSize);
    UnnamedNone(v.data, inode, name);
    LookupEmpty(name);
    FlatInUse(v.data, inode, fs.geo.blockSize, |ds|);
    LookupNone(Flat(ds, |ds|), name);
    var buf := new byte[fs.geo.blockSize];
    var n := NBlocks(dir.inode, fs.geo.blockSize);
    var i := 0;
    while i < n
      invariant i <= n && fs.Valid() && fs.view == v && dir.inode == inode
      invariant UnnamedBefore(v.data, inode, name, i) && Lookup(Flat(ds, i), name) == 0
    {
      LookupNext(v.data, inode, fs.geo.blockSize, name, i);
      if Lookup(Flat(ds, i + 1), name) != 0 {
        LookupStays(v.data, inode, fs.geo.blockSize, name, i + 1, n);
      }
      var done;
      done, res, edit := RemoveAt(fs, dir, buf, i, name, ino);
      if done {
        return;
      }
      i := i + 1;
    }
    return EIO, Drop(0);
  }

  lemma {:induction false} UnnamedNone(data: Data, inode: Inode, name: Name)
    ensures UnnamedBefore(data, inode, name, 0)
  {
  }

  lemma {:induction false} UnnamedNext(data: Data, inode: Inode, name: Name, k: nat)
    requires k < |inode.direct| && UnnamedBefore(data, inode, name, k) && Unnamed(PartAt(data, inode.direct[k]), name)
    ensures UnnamedBefore(data, inode, name, k + 1)
  {
  }

  lemma {:induction false} SoleLeaves(data: Data, inode: Inode, bs: nat, name: Name, k: nat)
    requires bs > 0 && DirShape(data, inode, bs) && k < NBlocks(inode, bs) <= |inode.direct|
    requires UnnamedBefore(data, inode, name, k)
    requires var es := PartAt(data, inode.direct[k]); |es| == 1 && es[0].name == name
    ensures LeavesBy(data, inode, bs, name, Drop(k))
  {
  }

  lemma {:induction false} GoneLeaves(data: Data, inode: Inode, bs: nat, name: Name, k: nat, s: seq<byte>)
    requires bs > 0 && DirShape(data, inode, bs) && k < NBlocks(inode, bs) <= |inode.direct|
    requires UnnamedBefore(data, inode, name, k) && inode.direct[k] as nat in data
    requires RemovedFrom(data[inode.direct[k] as nat], s, name)
    ensures LeavesBy(data, inode, bs, name, Rewrite(k, s))
  {
  }
}
