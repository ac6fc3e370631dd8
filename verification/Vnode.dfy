/** In-memory inodes and the block-level helpers the vnode operations share. */
module Vnodes {
  import opened Arith
  import opened Bytes
  import opened Numbering
  import opened Layout
  import opened Inodes
  import opened State
  import opened Volumes
  import opened Effects
  import opened Files
  import opened Fsck

  /** A vnode: the number and the in-memory copy of its inode. */
  class Vnode {
    const ino: u32
    var inode: Inode

    constructor (ino: u32, inode: Inode)
      ensures this.ino == ino && this.inode == inode
    {
      this.ino, this.inode := ino, inode;
    }

    /** The copy in memory is the one on the device. */
    ghost predicate Synced(fs: Volume)
      reads this, fs
    {
      ino as nat in fs.view.table && fs.view.table[ino as nat] == inode
    }
  }

  lemma {:induction false} VolumeSane(fs: Volume)
    requires fs.Valid()
    ensures Sane(fs.view, fs.geo)
  {
    RepSane(fs.Img(), fs.view);
  }

  // ---- relations between the allocator's steps and what becomes of a view ---------------

  lemma {:induction false} TakeBecomes(v: View, geo: Geometry, k: Kind, n: nat)
    requires Sane(v, geo) && n in v.Of(k).free
    ensures var v' := v.With(k, v.Of(k).Take(if k.Blocks? then geo.groupBlocks else geo.groupInodes, n));
            Becomes(v, v', geo, if k.Blocks? then v.blocks.free - {n} else v.blocks.free,
                    if k.Blocks? then v.inodes.free else v.inodes.free - {n}, v.table, v.data)
  {
    if k.Blocks? {
      TakeMoves(v.blocks, geo.groupBlocks, n);
    } else {
      TakeMoves(v.inodes, geo.groupInodes, n);
    }
  }

  lemma {:induction false} GiveBecomes(v: View, geo: Geometry, k: Kind, n: nat)
    requires Sane(v, geo) && n !in v.Of(k).free
    requires 1 <= n <= Times(geo.groups, if k.Blocks? then geo.groupBlocks else geo.groupInodes)
    ensures var v' := v.With(k, v.Of(k).Give(if k.Blocks? then geo.groupBlocks else geo.groupInodes, n));
            Becomes(v, v', geo, if k.Blocks? then v.blocks.free + {n} else v.blocks.free,
                    if k.Blocks? then v.inodes.free else v.inodes.free + {n}, v.table, v.data)
  {
    if k.Blocks? {
      GiveMoves(v.blocks, geo.groupBlocks, n);
    } else {
      GiveMoves(v.inodes, geo.groupInodes, n);
    }
  }

  /** A write of the table or of a block leaves the allocators. */
  lemma {:induction false} WriteBecomes(v: View, geo: Geometry, table: map<nat, Inode>, data: Data)
    requires Sane(v, geo)
    ensures Becomes(v, v.(table := table, data := data), geo, v.blocks.free, v.inodes.free, table, data)
  {
  }

  // ---- blocks of an inode ----------------------------------------------------------------

  /** The block number the driver finds for block `index` of an inode; 0 if it finds none. */
  ghost function FoundBlock(data: Data, inode: Inode, bs: nat, index: nat): nat {
    if index < DIRECT + bs / 4 then BlockNo(data, inode, index) else 0
  }

  /** The pointers read on the way to block `index` are 0 or data blocks. */
  ghost predicate PointersOk(data: Data, inode: Inode, bs: nat, index: nat) {
    && |inode.direct| == DIRECT
    && (DIRECT <= index < DIRECT + bs / 4 ==> inode.l1 == 0 || (inode.l1 as nat in data && |data[inode.l1 as nat]| == bs))
    && (FoundBlock(data, inode, bs, index) == 0 || FoundBlock(data, inode, bs, index) in data)
  }

  /** It is the index-th of the direct pointers and then the words of the indirect block. */
  lemma {:induction false} FoundInOrder(data: Data, inode: Inode, bs: nat, ps: seq<u32>, index: nat)
    requires |inode.direct| == DIRECT && inode.l1 as nat in data && data[inode.l1 as nat] == EncodeWords(ps) && 4 * |ps| == bs
    ensures FoundBlock(data, inode, bs, index) == if index < DIRECT + |ps| then (inode.direct + ps)[index] else 0
  {
    hide EncodeWords;
  }

  /** ext2_read_inode_block. */
  method ReadInodeBlock(fs: Volume, inode: Inode, index: nat, buf: array<byte>) returns (res: int)
    requires fs.Valid() && buf.Length == fs.geo.blockSize && PointersOk(fs.view.data, inode, fs.geo.blockSize, index)
    requires 0 !in fs.view.data
    modifies buf
    ensures var b := FoundBlock(fs.view.data, inode, fs.geo.blockSize, index);
            && (res < 0 <==> b == 0)
            && (b != 0 ==> res == fs.geo.blockSize && buf[..] == fs.view.data[b])
  {
    if index < DIRECT {
      res := fs.Load(inode.direct[index], buf);
    } else if index < DIRECT + fs.geo.blockSize / 4 {
      res := fs.Load(inode.l1, buf);
      if res < 0 {
        return EIO;
      }
      var block := U32At(buf[..], 4 * (index - DIRECT));
      res := fs.Load(block, buf);
    } else {
      res := EIO;
    }
  }

  /** ext2_write_inode_block, for the indexes it supports. */
  method WriteInodeBlock(fs: Volume, inode: Inode, index: nat, buf: array<byte>) returns (res: int)
    requires fs.Valid() && buf.Length == fs.geo.blockSize
    requires index < DIRECT && |inode.direct| == DIRECT && inode.direct[index] as nat in fs.view.data
    modifies fs
    ensures fs.Valid() && res == fs.geo.blockSize
    ensures fs.view == old(fs.view).(data := old(fs.view).data[inode.direct[index] as nat := buf[..]])
  {
    res := fs.Store(inode.direct[index], buf);
  }

  /** Block `no`, the lowest free one, became block `index` of inode `ino`, which was
      written. */
  ghost predicate BlockTaken(v: View, v': View, geo: Geometry, ino: nat, inode: Inode, inode': Inode, index: nat, no: nat) {
    && no in v.blocks.free && (forall n :: n in v.blocks.free ==> no <= n)
    && no < U32_LIMIT && index < |inode.direct|
    && inode' == inode.(direct := inode.direct[index := no])
    && Becomes(v, v', geo, v.blocks.free - {no}, v.inodes.free, v.table[ino := inode'], v.data)
  }

  lemma {:induction false} TakenSteps(v: View, v1: View, v2: View, geo: Geometry, ino: nat, inode: Inode, index: nat, no: nat)
    requires Sane(v, geo) && no in v.blocks.free && (forall n :: n in v.blocks.free ==> no <= n) && no < U32_LIMIT
    requires index < |inode.direct|
    requires v1 == v.With(Blocks, v.blocks.Take(geo.groupBlocks, no)) && Sane(v1, geo)
    requires var inode' := inode.(direct := inode.direct[index := no]); v2 == v1.(table := v1.table[ino := inode'])
    ensures BlockTaken(v, v2, geo, ino, inode, inode.(direct := inode.direct[index := no]), index, no)
  {
    var table' := v.table[ino := inode.(direct := inode.direct[index := no])];
    hide Sane, Moved, Alloc.Take;
    TakeBecomes(v, geo, Blocks, no);
    WriteBecomes(v1, geo, table', v.data);
    assert v2 == v1.(table := table', data := v.data);
  }

  /** ext2_inode_alloc_block: the inode is written with whatever size the caller has put
      into it. */
  method AllocInodeBlock(fs: Volume, vn: Vnode, index: nat) returns (res: int, ghost no: nat)
    requires fs.Valid() && vn.ino as nat in fs.view.table
    requires index < DIRECT && InodeOk(vn.inode, fs.geo.inodeSize)
    modifies fs, vn
    ensures fs.Valid()
    ensures old(fs.view).blocks.free == {} ==> res == ENOSPC && unchanged(fs) && unchanged(vn)
    ensures old(fs.view).blocks.free != {} ==>
              && res == 0 && vn.Synced(fs)
              && BlockTaken(old(fs.view), fs.view, fs.geo, vn.ino as nat, old(vn.inode), vn.inode, index, no)
  {
    hide BlockTaken, Sane, InodeOk, Alloc.Take, Rep;
    DirectCount(vn.inode, fs.geo.inodeSize);
    ghost var v, inode := fs.view, vn.inode;
    VolumeSane(fs);
    var block;
    res, block := fs.Alloc(Blocks);
    no := block;
    if res < 0 {
      return;
    }
    FreeFits(v, fs.geo, block);
    ghost var v1 := fs.view;
    VolumeSane(fs);
    vn.inode := vn.inode.(direct := vn.inode.direct[index := block]);
    SameInodeOk(inode, vn.inode, fs.geo.inodeSize);
    fs.WriteInode(vn.inode, vn.ino);
    TakenSteps(v, v1, fs.view, fs.geo, vn.ino as nat, inode, index, block);
    res := 0;
  }

  lemma {:induction false} FreeFits(v: View, geo: Geometry, no: nat)
    requires Sane(v, geo) && no in v.blocks.free
    ensures no < U32_LIMIT && no in v.data && 1 <= no
  {
  }

  lemma {:induction false} DirectCount(inode: Inode, inodeSize: nat)
    requires InodeOk(inode, inodeSize)
    ensures |inode.direct| == DIRECT
  {
  }

  lemma {:induction false} SameInodeOk(a: Inode, b: Inode, inodeSize: nat)
    requires InodeOk(a, inodeSize) && |b.direct| == |a.direct| && b.misc == a.misc && b.tail == a.tail
    ensures InodeOk(b, inodeSize)
  {
  }

  /** Block `index` of inode `ino` was freed and its pointer zeroed, and the inode written. */
  ghost predicate BlockGiven(v: View, v': View, geo: Geometry, ino: nat, inode: Inode, inode': Inode, index: nat) {
    && index < |inode.direct|
    && inode' == inode.(direct := inode.direct[index := 0])
    && Becomes(v, v', geo, v.blocks.free + {inode.direct[index] as nat}, v.inodes.free, v.table[ino := inode'], v.data)
  }

  lemma {:induction false} GivenSteps(v: View, v1: View, v2: View, geo: Geometry, ino: nat, inode: Inode, index: nat)
    requires Sane(v, geo) && index < |inode.direct| && inode.direct[index] as nat in v.data && inode.direct[index] !in v.blocks.free
    requires v1 == v.With(Blocks, v.blocks.Give(geo.groupBlocks, inode.direct[index])) && Sane(v1, geo)
    requires v2 == v1.(table := v1.table[ino := inode.(direct := inode.direct[index := 0])])
    ensures BlockGiven(v, v2, geo, ino, inode, inode.(direct := inode.direct[index := 0]), index)
  {
    var table' := v.table[ino := inode.(direct := inode.direct[index := 0])];
    DataInRange(v, geo, inode.direct[index]);
    hide Sane, Moved, Alloc.Give;
    GiveBecomes(v, geo, Blocks, inode.direct[index]);
    WriteBecomes(v1, geo, table', v.data);
    assert v2 == v1.(table := table', data := v.data);
  }

  lemma {:induction false} DataInRange(v: View, geo: Geometry, b: nat)
    requires Sane(v, geo) && b in v.data
    ensures 1 <= b <= Times(geo.groups, geo.groupBlocks) && |v.data[b]| == geo.blockSize
  {
  }

  /** ext2_free_inode_block. */
  method FreeInodeBlock(fs: Volume, vn: Vnode, index: nat) returns (res: int)
    requires fs.Valid() && vn.ino as nat in fs.view.table
    requires index < DIRECT && InodeOk(vn.inode, fs.geo.inodeSize)
    requires vn.inode.direct[index] as nat in fs.view.data && vn.inode.direct[index] !in fs.view.blocks.free
    modifies fs, vn
    ensures fs.Valid() && res == 0 && vn.Synced(fs)
    ensures BlockGiven(old(fs.view), fs.view, fs.geo, vn.ino as nat, old(vn.inode), vn.inode, index)
  {
    hide BlockGiven, Sane, InodeOk, Alloc.Give, Rep;
    DirectCount(vn.inode, fs.geo.inodeSize);
    ghost var v, inode := fs.view, vn.inode;
    VolumeSane(fs);
    var block := vn.inode.direct[index];
    DataInRange(v, fs.geo, block);
    res := fs.Free(Blocks, block);
    ghost var v1 := fs.view;
    VolumeSane(fs);
    vn.inode := vn.inode.(direct := vn.inode.direct[index := 0]);
    SameInodeOk(inode, vn.inode, fs.geo.inodeSize);
    fs.WriteInode(vn.inode, vn.ino);
    GivenSteps(v, v1, fs.view, fs.geo, vn.ino as nat, inode, index);
  }

  /** Bounds the layout puts on the geometry. */
  lemma {:induction false} GeometryBounds(fs: Volume)
    requires fs.Valid()
    ensures 1024 <= fs.geo.blockSize <= 0x8000 && fs.geo.blockSize % 1024 == 0 && 128 <= fs.geo.inodeSize
  {
  }
}
