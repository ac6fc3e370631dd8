/** creat and mkdir. */
module VnodeOps {
  import opened Bytes
  import opened Numbering
  import opened Layout
  import opened Inodes
  import opened State
  import opened Volumes
  import opened Dirents
  import opened DirBlocks
  import opened Effects
  import opened Fsck
  import opened Vnodes
  import opened VnodeDirs

  /** The inode creat and mkdir fill in: one link, no times, no blocks but `first`. `rest`
      is what lies behind the 128 bytes the driver initializes. */
  function NewInode(typeBits: nat, mode: nat, uid: u16, gid: u16, size: u32, first: u32, rest: seq<byte>): (r: Inode)
    requires typeBits == TYPE_REG || typeBits == TYPE_DIR
    ensures |r.misc| == 32 && |r.direct| == DIRECT && |r.tail| == 36 + |rest|
    ensures r.size == size && r.direct[0] == first && ZeroFrom(r, 1)
    ensures IsReg(r) <==> typeBits == TYPE_REG
    ensures IsDir(r) <==> typeBits == TYPE_DIR
  {
    Inode(mode % 0x200 + typeBits, uid, size, Zeros(16) + Bytes16(gid) + Bytes16(1) + Zeros(12),
          seq(DIRECT, i requires 0 <= i < DIRECT => if i == 0 then first else 0 as u32), 0, Zeros(36) + rest)
  }

  /** The inode's first 128 bytes, as creat and mkdir fill in the packed structure: one link, no
      blocks but `first`, and 0 everywhere else. */
  ghost predicate FilledIn(b: seq<byte>, mode: nat, uid: nat, gid: nat, size: nat, first: nat) {
    && |b| >= 128
    && U16At(b, 0) == mode && U16At(b, 2) == uid && U32At(b, 4) == size
    && U16At(b, 24) == gid && U16At(b, 26) == 1 && U32At(b, 40) == first
    && (forall i :: 8 <= i < 24 || 28 <= i < 40 || 44 <= i < 128 ==> b[i] == 0)
  }

  lemma {:induction false} ZeroWord(b: seq<byte>, off: nat, i: nat)
    requires off + 4 <= |b| && U32At(b, off) == 0 && off <= i < off + 4
    ensures b[i] == 0
  {
  }

  lemma {:induction false} MiscBytes(gid: u16)
    ensures var misc := Zeros(16) + Bytes16(gid) + Bytes16(1) + Zeros(12);
            && |misc| == 32 && U16At(misc, 16) == gid && U16At(misc, 18) == 1
            && forall i :: 0 <= i < 16 || 20 <= i < 32 ==> misc[i] == 0
  {
    var g, l := Bytes16(gid), Bytes16(1);
    var misc := Zeros(16) + g + l + Zeros(12);
    assert misc[16] == g[0] && misc[17] == g[1] && misc[18] == l[0] && misc[19] == l[1];
  }

  lemma {:induction false} MiscAt(b: seq<byte>, misc: seq<byte>)
    requires |misc| == 32 && |b| >= 40 && b[8..40] == misc
    ensures U16At(b, 24) == U16At(misc, 16) && U16At(b, 26) == U16At(misc, 18)
  {
    assert b[24] == misc[16] && b[25] == misc[17] && b[26] == misc[18] && b[27] == misc[19];
  }

  lemma {:induction false} NewInodeBytes(typeBits: nat, mode: nat, uid: u16, gid: u16, size: u32, first: u32, rest: seq<byte>)
    requires typeBits == TYPE_REG || typeBits == TYPE_DIR
    ensures FilledIn(Encode(NewInode(typeBits, mode, uid, gid, size, first, rest)), mode % 0x200 + typeBits, uid, gid, size, first)
  {
    var node := NewInode(typeBits, mode, uid, gid, size, first, rest);
    var b := Encode(node);
    FieldsAt(node);
    MiscBytes(gid);
    assert node.misc == Zeros(16) + Bytes16(gid) + Bytes16(1) + Zeros(12) && node.tail == Zeros(36) + rest && node.l1 == 0;
    hide Encode, NewInode, U32At, U16At, Bytes16;
    MiscAt(b, node.misc);
    forall i | 8 <= i < 24 || 28 <= i < 40 || 44 <= i < 128 ensures b[i] == 0 {
      if i < 40 {
        assert b[i] == b[8..40][i - 8];
      } else if i < 92 {
        var k := (i - 40) / 4;
        assert k < DIRECT ==> U32At(b, 40 + 4 * k) == node.direct[k];
        ZeroWord(b, 40 + 4 * k, i);
      } else {
        assert b[i] == b[92..][i - 92];
      }
    }
  }

  /** Numbers were taken that nothing uses: what a failed call may leave behind. */
  ghost predicate Leaked(v: View, v': View, geo: Geometry) {
    && v'.blocks.free <= v.blocks.free && v'.inodes.free <= v.inodes.free
    && Becomes(v, v', geo, v'.blocks.free, v'.inodes.free, v.table, v.data)
  }

  lemma {:induction false} CreateSteps(v: View, v1: View, v2: View, v3: View, geo: Geometry, d: nat, e: Entry, node: Inode, edit: Edit)
    requires geo.blockSize > 0 && e.ino as nat in v.inodes.free && e.ino as nat != d
    requires Becomes(v, v1, geo, v.blocks.free, v.inodes.free - {e.ino as nat}, v.table, v.data)
    requires Enters(v1, v2, geo, d, e, edit) && Sane(v2, geo)
    requires v3 == v2.(table := v2.table[e.ino as nat := node])
    requires IsReg(node) && node.size == 0 && ZeroFrom(node, 0) && InodeOk(node, geo.inodeSize)
    ensures Creates(v, v3, geo, d, e, node, edit)
  {
    hide EntersBy, EditInode, EditData, EditFree, InodeOk, IsReg, Sane;
    WriteBecomes(v2, geo, v3.table, v2.data);
    assert v3 == v2.(table := v3.table, data := v2.data);
  }

  lemma {:induction false} NothingLeaked(v: View, geo: Geometry)
    requires Sane(v, geo)
    ensures Leaked(v, v, geo)
  {
  }

  lemma {:induction false} InodeNumber(v: View, geo: Geometry, n: nat)
    requires Sane(v, geo) && n in v.inodes.free
    ensures 1 <= n < U32_LIMIT && n in v.table
  {
  }

  lemma {:induction false} InodeTaken(v: View, v1: View, geo: Geometry, n: nat)
    requires Becomes(v, v1, geo, v.blocks.free, v.inodes.free - {n}, v.table, v.data)
    ensures v1.table == v.table && v1.data == v.data && v1.blocks.free == v.blocks.free && v1.inodes.free == v.inodes.free - {n}
    ensures Leaked(v, v1, geo)
  {
  }

  lemma {:induction false} EntersKeys(v: View, v': View, geo: Geometry, d: nat, e: Entry, edit: Edit)
    requires geo.blockSize > 0 && Enters(v, v', geo, d, e, edit)
    ensures v'.table.Keys == v.table.Keys
  {
  }

  lemma {:induction false} NewInodeOk(typeBits: nat, mode: nat, uid: u16, gid: u16, size: u32, first: u32, rest: seq<byte>, inodeSize: nat)
    requires (typeBits == TYPE_REG || typeBits == TYPE_DIR) && |rest| + 128 == inodeSize
    ensures InodeOk(NewInode(typeBits, mode, uid, gid, size, first, rest), inodeSize)
  {
  }

  /** No record of the directory can give up the room for this name. */
  ghost predicate Full(v: View, dir: Inode, bs: nat, name: Name, reserved: nat)
    requires bs > 0
  {
    DirShape(v.data, dir, bs) && NoRoomBefore(v.data, dir, bs, name, reserved, NBlocks(dir, bs))
  }

  lemma {:induction false} LastBlock(free: set<nat>, b: nat)
    requires b in free
    ensures free - {b} == {} <==> |free| == 1
  {
    assert free == (free - {b}) + {b};
  }

  /** ext2_vnode_creat. */
  method Creat(fs: Volume, at: Vnode, name: Name, mode: nat, uid: u16, gid: u16, rest: seq<byte>, reserved: nat)
    returns (res: int, vn: Vnode?, ghost edit: Edit)
    requires fs.Valid() && fs.geo.blockSize > 0 && at.Synced(fs) && at.ino !in fs.view.inodes.free
    requires DirShape(fs.view.data, at.inode, fs.geo.blockSize)
    requires 1 <= |name| < 0x100 && reserved >= HEADER && |rest| + 128 == fs.geo.inodeSize
    requires NBlocks(at.inode, fs.geo.blockSize) == DIRECT ==> !NoRoomBefore(fs.view.data, at.inode, fs.geo.blockSize, name, reserved, DIRECT)
    modifies fs, at
    ensures fs.Valid() && at.Synced(fs)
    ensures res == 0 ==>
              && vn != null && fresh(vn) && vn.Synced(fs)
              && Creates(old(fs.view), fs.view, fs.geo, at.ino as nat, Entry(vn.ino, name), vn.inode, edit)
              && (forall n :: n in old(fs.view).inodes.free ==> vn.ino as nat <= n)
              && FilledIn(Encode(vn.inode), mode % 0x200 + 0x8000, uid, gid, 0, 0)
    ensures res != 0 ==>
              && res == ENOSPC && vn == null && at.inode == old(at.inode) && Leaked(old(fs.view), fs.view, fs.geo)
              && (|| old(fs.view).inodes.free == {}
                  || (old(fs.view).blocks.free == {} && Full(old(fs.view), old(at.inode), fs.geo.blockSize, name, reserved)))
    ensures res != 0 <==>
              || old(fs.view).inodes.free == {}
              || (old(fs.view).blocks.free == {} && !TakesName(old(fs.view).data, old(at.inode), fs.geo.blockSize, |name|, reserved))
  {
    hide Becomes, Enters, DirShape, Rep, Sane, Creates, InodeOk, Leaked, Alloc.Take, FirstRoom, NoRoomBefore, NewInode, TakesName, FilledIn, Encode;
    ghost var v := fs.view;
    VolumeSane(fs);
    var ino;
    res, ino := fs.Alloc(Kind.Inodes);
    if res != 0 {
      NothingLeaked(v, fs.geo);
      return res, null, Drop(0);
    }
    ghost var v1 := fs.view;
    TakeBecomes(v, fs.geo, Kind.Inodes, ino);
    InodeNumber(v, fs.geo, ino);
    InodeTaken(v, v1, fs.geo, ino);
    res, edit := AddName(fs, at, Entry(ino, name), reserved);
    if res < 0 {
      return res, null, edit;
    }
    ghost var v2 := fs.view;
    VolumeSane(fs);
    var node := NewInode(TYPE_REG, mode, uid, gid, 0, 0, rest);
    NewInodeOk(TYPE_REG, mode, uid, gid, 0, 0, rest, fs.geo.inodeSize);
    NewInodeBytes(TYPE_REG, mode, uid, gid, 0, 0, rest);
    EntersKeys(v1, v2, fs.geo, at.ino as nat, Entry(ino, name), edit);
    fs.WriteInode(node, ino);
    CreateSteps(v, v1, v2, fs.view, fs.geo, at.ino as nat, Entry(ino, name), node, edit);
    vn := new Vnode(ino, node);
    res := 0;
  }

  // ---- mkdir -----------------------------------------------------------------------------

  lemma {:induction false} EntersData(v: View, v': View, geo: Geometry, d: nat, e: Entry, edit: Edit)
    requires geo.blockSize > 0 && Enters(v, v', geo, d, e, edit)
    ensures forall b :: b in v.data ==> b in v'.data
  {
  }

  lemma {:induction false} MakeSteps(v: View, v1: View, v2: View, v3: View, v4: View, geo: Geometry, d: nat, e: Entry, node: Inode, nb: u32, s: seq<byte>, edit: Edit)
    requires geo.blockSize > 0 && e.ino as nat in v.inodes.free && e.ino as nat != d && nb as nat in v.blocks.free
    requires Becomes(v, v1, geo, v.blocks.free, v.inodes.free - {e.ino as nat}, v.table, v.data)
    requires Becomes(v1, v2, geo, v1.blocks.free - {nb as nat}, v1.inodes.free, v1.table, v1.data)
    requires Enters(v2, v3, geo, d, e, edit) && Sane(v3, geo)
    requires v4 == v3.(data := v3.data[nb as nat := s]).(table := v3.table[e.ino as nat := node])
    requires d < U32_LIMIT && IsDir(node) && node.size == geo.blockSize && InodeOk(node, geo.inodeSize) && node.direct[0] == nb
    requires |s| == geo.blockSize && Tiled(s, 0, |s|) && Entries(s, 0, |s|) == [Entry(e.ino, DOT), Entry(d, DOTDOT)]
    ensures Makes(v, v4, geo, d, e, node, nb, s, edit)
  {
    hide EntersBy, EditInode, EditData, EditFree, IsDir, Sane, Tiled, Entries;
    WriteBecomes(v3, geo, v4.table, v4.data);
    assert v4 == v3.(table := v4.table, data := v4.data);
  }

  lemma {:induction false} BlockTakenKnown(v1: View, v2: View, geo: Geometry, nb: nat)
    requires Becomes(v1, v2, geo, v1.blocks.free - {nb}, v1.inodes.free, v1.table, v1.data)
    ensures v2.table == v1.table && v2.data == v1.data && v2.inodes.free == v1.inodes.free && v2.blocks.free == v1.blocks.free - {nb} && Leaked(v1, v2, geo)
  {
  }

  lemma {:induction false} LeakedTwice(v: View, v1: View, v2: View, geo: Geometry)
    requires Leaked(v, v1, geo) && Leaked(v1, v2, geo)
    ensures Leaked(v, v2, geo)
  {
  }

  /** The part of mkdir that fills the new directory's block and inode. */
  method WriteDir(fs: Volume, ino: u32, parent: u32, block: u32, mode: nat, rest: seq<byte>) returns (node: Inode, ghost s: seq<byte>)
    requires fs.Valid() && ino as nat in fs.view.table && block as nat in fs.view.data && ino != 0 && parent != 0
    requires |rest| + 128 == fs.geo.inodeSize
    modifies fs
    ensures fs.Valid()
    ensures fs.view == old(fs.view).(data := old(fs.view).data[block as nat := s]).(table := old(fs.view).table[ino as nat := node])
    ensures IsDir(node) && node.size == fs.geo.blockSize && InodeOk(node, fs.geo.inodeSize) && node.direct[0] == block
    ensures |s| == fs.geo.blockSize && Tiled(s, 0, |s|) && Entries(s, 0, |s|) == [Entry(ino, DOT), Entry(parent, DOTDOT)]
    ensures FilledIn(Encode(node), mode % 0x200 + 0x4000, 0, 0, fs.geo.blockSize, block)
    ensures forall n: nat, reserved: nat :: n > 0 && reserved >= HEADER ==> FirstFits(s, n, reserved)
  {
    hide Rep, Tiled, Entries, NewInode, RecordIs, FirstFits, FilledIn, Encode;
    GeometryBounds(fs);
    node := NewInode(TYPE_DIR, mode, 0, 0, fs.geo.blockSize, block, rest);
    NewInodeOk(TYPE_DIR, mode, 0, 0, fs.geo.blockSize, block, rest, fs.geo.inodeSize);
    NewInodeBytes(TYPE_DIR, mode, 0, 0, fs.geo.blockSize, block, rest);
    var buf := new byte[fs.geo.blockSize];
    FormatDir(buf, ino, parent);
    s := buf[..];
    forall n: nat, reserved: nat | n > 0 && reserved >= HEADER ensures FirstFits(s, n, reserved) {
      FreshTakes(s, ino, parent, n, reserved);
    }
    var _ := fs.Store(block, buf);
    fs.WriteInode(node, ino);
  }

  /** What a successful mkdir made: the entry, the inode, its block and the contents, and
      how the parent was edited. */
  datatype Made = Made(e: Entry, node: Inode, nb: u32, s: seq<byte>, edit: Edit)

  /** ext2_vnode_mkdir. */
  method Mkdir(fs: Volume, at: Vnode, name: Name, mode: nat, rest: seq<byte>, reserved: nat) returns (res: int, ghost made: Made)
    requires fs.Valid() && fs.geo.blockSize > 0 && at.Synced(fs) && at.ino !in fs.view.inodes.free
    requires DirShape(fs.view.data, at.inode, fs.geo.blockSize)
    requires 1 <= |name| < 0x100 && reserved >= HEADER && |rest| + 128 == fs.geo.inodeSize
    requires NBlocks(at.inode, fs.geo.blockSize) == DIRECT ==> !NoRoomBefore(fs.view.data, at.inode, fs.geo.blockSize, name, reserved, DIRECT)
    modifies fs, at
    ensures fs.Valid() && at.Synced(fs)
    ensures res == 0 ==>
              && made.e.name == name
              && Makes(old(fs.view), fs.view, fs.geo, at.ino as nat, made.e, made.node, made.nb, made.s, made.edit)
              && FilledIn(Encode(made.node), mode % 0x200 + 0x4000, 0, 0, fs.geo.blockSize, made.nb)
              && forall n: nat, r: nat :: n > 0 && r >= HEADER ==> FirstFits(made.s, n, r)
    ensures res != 0 ==>
              && res == ENOSPC && at.inode == old(at.inode) && Leaked(old(fs.view), fs.view, fs.geo)
              && (|| old(fs.view).inodes.free == {} || old(fs.view).blocks.free == {}
                  || (|old(fs.view).blocks.free| == 1 && Full(old(fs.view), old(at.inode), fs.geo.blockSize, name, reserved)))
    ensures res != 0 <==>
              || old(fs.view).inodes.free == {} || old(fs.view).blocks.free == {}
              || (|old(fs.view).blocks.free| == 1 && !TakesName(old(fs.view).data, old(at.inode), fs.geo.blockSize, |name|, reserved))
  {
    hide Becomes, Enters, DirShape, Rep, Sane, Makes, InodeOk, Leaked, Alloc.Take, FirstRoom, NoRoomBefore, IsDir, Tiled, Entries, TakesName, FilledIn, Encode, FirstFits;
    ghost var v := fs.view;
    made := Made(Entry(0, name), at.inode, 0, [], Drop(0));
    VolumeSane(fs);
    var ino;
    res, ino := fs.Alloc(Kind.Inodes);
    if res != 0 {
      NothingLeaked(v, fs.geo);
      return;
    }
    ghost var v1 := fs.view;
    TakeBecomes(v, fs.geo, Kind.Inodes, ino);
    InodeNumber(v, fs.geo, ino);
    InodeTaken(v, v1, fs.geo, ino);
    VolumeSane(fs);
    var block;
    res, block := fs.Alloc(Blocks);
    if res < 0 {
      return;
    }
    ghost var v2 := fs.view;
    TakeBecomes(v1, fs.geo, Blocks, block);
    FreeFits(v1, fs.geo, block);
    BlockTakenKnown(v1, v2, fs.geo, block);
    ghost var edit;
    res, edit := AddName(fs, at, Entry(ino, name), reserved);
    LastBlock(v.blocks.free, block);
    if res < 0 {
      LeakedTwice(v, v1, v2, fs.geo);
      return;
    }
    ghost var v3 := fs.view;
    VolumeSane(fs);
    EntersKeys(v2, v3, fs.geo, at.ino as nat, Entry(ino, name), edit);
    EntersData(v2, v3, fs.geo, at.ino as nat, Entry(ino, name), edit);
    ParentNumber(v, fs.geo, at.ino as nat);
    var node;
    ghost var s;
    node, s := WriteDir(fs, ino, at.ino, block, mode, rest);
    MakeSteps(v, v1, v2, v3, fs.view, fs.geo, at.ino as nat, Entry(ino, name), node, block, s, edit);
    made := Made(Entry(ino, name), node, block, s, edit);
    res := 0;
  }

  lemma {:induction false} ParentNumber(v: View, geo: Geometry, i: nat)
    requires Sane(v, geo) && i in v.table
    ensures i >= 1
  {
  }
}
